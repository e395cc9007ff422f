# mm-mdfix-email, modelled in Dafny

mm-mdfix-email is a one-shot cleanup for a Mattermost `posts` table. It selects
the live, non-blank posts, finds the fenced code block of each message, and
inside that block replaces every Markdown mail link `[text](mailto:address)`
by the bare address. In commit mode it writes each changed message back,
commits it on its own, re-reads it and compares. A failed write is rolled back
and the run goes on with the next post, as long as the rollback itself
succeeds.

This project models that core in main.py:

- `Text`: searching a string, Python's `str.strip()` and PostgreSQL's `TRIM`.
- `EmailLinks`: `remove_markdown_from_emails`. The regex
  `\[([^\]]+)\]\(mailto:([^\)]+)\)` becomes an anchored matcher `MatchLink` and
  a left-to-right scanner `Rewrite`. `LinkPrefix` gives the regex's meaning
  independently: the text starts with `"[" + label + "](mailto:" + address + ")"`,
  where the label is non-empty without `]` and the address is non-empty without `)`.
- `CodeBlocks`: `format_code_blocks`. The regex ```` ```((?:.|\n)*)``` ```` becomes
  two steps. `LocateSpan` finds the span, and `Format` rewrites the span's
  content and puts both fences back. `FenceMatch` gives the regex's meaning.
  The greedy `(?:.|\n)*` closes at the last fence of the message, so several
  code blocks collapse into one span and text between them is rewritten too.
  The model keeps this behaviour on purpose (`FormatMergesBlocks`).
- `Pipeline`: the per-post loop as a fold (`Fold`) of the loop body
  `ProcessPost` over the selected posts; `Run` is that fold. The
  database is a `map<PostId, string>`. The caller supplies one `Reply` per post.
  A reply says whether the UPDATE or commit raised, and otherwise what the
  verification query returned or that it raised. The model's outcome tags are
  skipped, unchanged, dry run, verified, mismatch, failed, and failed after commit.
- `Selection`: the `WHERE` clause of the selection query as a filter over rows.

Where the code and its comments disagree, the model follows the code:

- The comment above the query says posts with `deleteat` "0 or NULL" are
  fetched. The query tests `deleteat = 0`, which is never true for NULL, so
  `Selected` excludes rows whose `deleteat` is NULL.

The transformation is not idempotent, although a one-shot cleanup might be
expected to be: `FormatNotIdempotent` gives a family of inputs on which a
second pass changes the message again.

## Model

| member | source | states |
|---|---|---|
| Text.Trim | main.py:128 | the result is empty exactly when every character of the input is dropped, and otherwise neither starts nor ends with a dropped character |
| Text.TrimSpan | main.py:128 | the result is a contiguous slice of the input, and everything cut away in front of it and behind it is droppable |
| Text.TrimIgnoresPadding | main.py:128 | padding a message with whitespace on either side does not change what `strip()` returns, so such padding never fails the verification |
| Text.PyStrip | main.py:128 | Python's `strip()`: the result is empty exactly when the text is all whitespace, otherwise it starts and ends with a non-whitespace character |
| Text.SqlTrim | main.py:80 | PostgreSQL's `TRIM`: the result is empty exactly when the text is all spaces, otherwise it neither starts nor ends with a space |
| EmailLinks.MatchLink | main.py:88 | a match at the start of the text is at least 12 characters long and longer than its address by at least 12 |
| EmailLinks.MatchLinkSound | main.py:88 | whatever the matcher reports is a well-formed `[label](mailto:address)` at the start of the text, with exactly that length |
| EmailLinks.MatchLinkComplete | main.py:88 | every well-formed link at the start of the text is found, with its own address and length |
| EmailLinks.NoLinkWithoutMailto | main.py:88 | `[label](` followed by anything other than `m` is no match at that position |
| EmailLinks.LinkPrefixUnique | main.py:88 | the pattern can match in only one way at a given position: label and address are forced by the negated character classes |
| EmailLinks.Rewrite | main.py:87-89 | the substitution never makes the text longer |
| EmailLinks.RewriteChangesIffLink | main.py:87-89 | the text is returned unchanged exactly when it contains no link, and each change removes at least 12 characters |
| EmailLinks.RewriteSkipsBracketFree | main.py:89 | text without `[` before the first match is copied unchanged |
| EmailLinks.RewriteBracketFree | main.py:89 | text without `[` is returned unchanged |
| EmailLinks.RewriteSingleLink | main.py:88-89 | a link on its own becomes its address (group 2) |
| EmailLinks.RewriteReplacesLink | main.py:88-89 | a link after `[`-free text is replaced by its address and the scan resumes right after its `)` |
| EmailLinks.RewriteReplacesLinkOnly | main.py:88-89 | a link between two `[`-free texts is the only change |
| EmailLinks.RewriteKeepsNonLink | main.py:88-89 | a `[` that starts no link is kept together with the `[`-free text after it, and the scan goes on behind them, so a link after such a `[` is still replaced |
| EmailLinks.RewriteUnwrapsNested | main.py:88-89 | in `[a]([b](mailto:mailto:x))` only the inner link matches, and what remains is the new link `[a](mailto:x)` |
| CodeBlocks.ContainsFence | main.py:107 | `'```' in message` holds exactly when a fence starts somewhere in the message |
| CodeBlocks.LastFence | main.py:93 | the closing fence is the last fence of the text: none starts after it |
| CodeBlocks.FirstFence | main.py:93 | the opening fence is the first fence in the range searched |
| CodeBlocks.LocateSpan | main.py:93 | the regex matches at the located span, which contains every other place it could match, so it is the leftmost-longest match; no match means no two fences at least three characters apart |
| CodeBlocks.Format | main.py:92-100 | the result is never longer, at least 12 characters shorter when it differs, and equal to the input when the fence pattern does not match |
| CodeBlocks.FormatKeepsOutside | main.py:96-98 | everything up to the end of the opening fence and from the closing fence on is kept, links included; in between is the rewritten group 1 |
| CodeBlocks.FormatChangesIff | main.py:92-100 | the message changes exactly when the span exists and its content holds a link |
| CodeBlocks.FormatSingleSpan | main.py:93-98 | a fence after backtick-free text and a fence before backtick-free text delimit the span, whatever lies between them |
| CodeBlocks.FormatRewritesLinkInBlock | main.py:88-98 | a link inside a single code block becomes its address and every other character is kept |
| CodeBlocks.FormatMergesBlocks | main.py:93 | with two code blocks, a link written between them, outside both, is rewritten as well |
| CodeBlocks.FormatSingleLinkBlock | main.py:93-98 | a code block holding one link becomes a code block holding its address |
| CodeBlocks.FormatNestedBlock | main.py:93-98 | a code block holding `[a]([b](mailto:mailto:x))` becomes one holding `[a](mailto:x)` |
| CodeBlocks.FormatNotIdempotent | main.py:87-100 | there are messages for which a second pass changes the result of the first |
| Pipeline.ProcessPost | main.py:106-135 | only the processed post's entry can change, no id is added or removed, and that entry becomes the formatted message exactly when the write was committed |
| Pipeline.Iteration | main.py:107-135 | given whether the message has a fence and its formatted text, the only entry that can change is the post's own, and it becomes the formatted text exactly when the outcome is a committed one |
| Pipeline.ProcessPostOutcome | main.py:107-135 | a post is skipped exactly when it has no fence; it is acted on only when formatting changes it; it is written only in commit mode; it is verified exactly when the re-read equals the formatted message after `strip()`, and a mismatch keeps the write |
| Pipeline.Fold | main.py:105-137 | the loop over the selected posts yields one outcome per post |
| Pipeline.FoldLocal | main.py:105-137 | when each iteration touches only its own post's row, the whole loop keeps the key set and every row no post of the batch names |
| Pipeline.FoldAppend | main.py:105 | for any loop body, looping over two batches one after the other equals looping over their concatenation |
| Pipeline.Loop | main.py:106-135 | the loop body touches only the row of the post it is given |
| Pipeline.Run | main.py:105-137 | every post gets exactly one outcome, no id is added or removed, and ids not among the posts keep their messages |
| Pipeline.DryRunWritesNothing | main.py:114 | without commit mode the store is identical before and after, and no post's write is committed |
| Pipeline.RunStep | main.py:105-106 | the run processes the first post against the initial store and then the rest against the resulting store |
| Pipeline.RunAppend | main.py:105 | processing two batches one after the other equals processing their concatenation |
| Pipeline.IdlePostIsIsolated | main.py:133-135 | a post whose write raised and was rolled back (or that wrote nothing) leaves the rest of the run exactly as if it had not been selected |
| Pipeline.RunFinalStoreAt | main.py:116-118 | with unique ids, a post's final message is its formatted message if its write was committed and its original message otherwise |
| Pipeline.RunFinalStore | main.py:116-118 | the same, for every selected post at once |
| Pipeline.CommittedWriteVerifies | main.py:121-129 | a committed write re-read with only extra surrounding whitespace is reported verified and stays written |
| Selection.SelectPosts | main.py:73-80 | the selection never yields more posts than there are rows |
| Selection.SelectPostsKeeps | main.py:73-80 | every row with `deleteat = 0`, a non-blank message and the configured channel yields a selected post |
| Selection.SelectPostsSource | main.py:73-80 | every selected post comes from such a row |
| Selection.SelectPostsExactly | main.py:69-80 | a post is selected exactly when some row with `deleteat = 0`, a non-blank message and, if a channel id is set, that channel yields it |
| Selection.SelectedNotBlank | main.py:80 | every selected message has a character other than a space |

## Left out

- Reading the environment (main.py:27-40) is configuration. The commit-mode
  flag and the channel id become parameters. The guard at main.py:28 uses `or`,
  so it stops the program only when all four variables are unset or empty.
- The psycopg2 connection, cursors and SQL execution (main.py:48-84) are
  replaced by the `Store` map, the row sequence and the caller's `Reply`. This
  includes the DEBUG count queries and the unclosed cursor and connection at
  main.py:146-147.
- Logging and timestamps are replaced by the `Outcome` tag of each post. This
  includes the final summary at main.py:140-143, which depends only on commit mode.
- The value read back by the verification query comes from the caller's
  `Reply`. The live chat server can edit a post between the commit and the
  re-read, so the model does not derive it from the store.
- `Run` assumes that `conn.rollback()` at main.py:135 succeeds. A rollback that
  itself raises, for example after a lost connection, ends the whole run, and
  so does an exception raised outside the `try` (main.py:107-113). The model
  then still processes every remaining post.
- The order of the selected rows is not modelled. The query has no `ORDER BY`,
  so the model takes the table order it is given.
- The replies are given as one `Reply` per post. A reply is consulted only
  for posts that reach the write.
- Idempotence of `format_code_blocks` is not claimed because it is false
  (`CodeBlocks.FormatNotIdempotent`).
