/**
  The per-post loop of main.py: skip posts without a fence, format the
  rest, and — only when the text changed and commit mode is on — write the
  new text, commit, re-read it and compare, rolling back when the write
  raises.

  The database is an in-memory map from post id to message. What the
  database does with each write is supplied by the caller as a `Reply`, one
  per post, so write failures, read failures and concurrent edits are all
  inputs of the model.
 */
module Pipeline {
  import opened Options
  import opened Text
  import opened CodeBlocks

  type PostId = string

  /** One selected row: its id and its message. */
  datatype Post = Post(id: PostId, message: string)

  /** The `message` column of the posts table, by id. */
  type Store = map<PostId, string>

  /** How the database answers the UPDATE, the commit and the verification query of one post. */
  datatype Reply =
    | UpdateRaised
      // the UPDATE or the commit raised: the transaction is rolled back
    | Committed(reread: Option<string>)
      // the write is durable; the verification query returned this message, or raised (None)

  /** The observable result of one iteration of the loop. */
  datatype Outcome =
    | Skipped            // no fence in the message
    | NoChange           // formatting left the message as it was
    | DryRun             // it would change, but commit mode is off
    | Verified           // written, committed, and read back equal up to surrounding whitespace
    | VerifyMismatch     // written and committed, but read back different
    | WriteFailed        // the UPDATE or the commit raised and was rolled back
    | FailedAfterCommit  // committed, then the verification query raised

  datatype Step = Step(store: Store, outcome: Outcome)

  datatype Trace = Trace(store: Store, outcomes: seq<Outcome>)

  /** The outcomes that follow a durable write. */
  predicate Committing(o: Outcome)
  {
    o == Verified || o == VerifyMismatch || o == FailedAfterCommit
  }

  /** The loop would act on this message: it has a fence and formatting changes it. */
  predicate Changes(message: string)
  {
    ContainsFence(message) && Format(message) != message
  }

  /** The verification of main.py: both sides compared after Python's `strip()`. */
  predicate VerifiesAs(current: string, formatted: string)
  {
    PyStrip(current) == PyStrip(formatted)
  }

  /** One iteration of the loop over the selected posts. */
  function ProcessPost(store: Store, post: Post, commitMode: bool, reply: Reply): (r: Step)
    ensures r.store.Keys == store.Keys
    ensures forall k :: k in store && k != post.id ==> r.store[k] == store[k]
    ensures post.id in store ==>
              r.store[post.id] == if Committing(r.outcome) then Format(post.message) else store[post.id]
  {
    Iteration(store, post, ContainsFence(post.message), Format(post.message), commitMode, reply)
  }

  /**
    The body of the loop, given whether the message has a fence and what
    formatting makes of it.
   */
  function Iteration(store: Store, post: Post, hasFence: bool, formatted: string, commitMode: bool, reply: Reply): (r: Step)
    ensures r.store.Keys == store.Keys
    ensures forall k :: k in store && k != post.id ==> r.store[k] == store[k]
    ensures post.id in store ==>
              r.store[post.id] == if Committing(r.outcome) then formatted else store[post.id]
  {
    if !hasFence then Step(store, Skipped)
    else if formatted == post.message then Step(store, NoChange)
    else if !commitMode then Step(store, DryRun)
    else
      match reply
      case UpdateRaised => Step(store, WriteFailed)
      case Committed(reread) =>
        if post.id !in store then
          // the UPDATE matched no row, and indexing the empty re-read raised
          Step(store, FailedAfterCommit)
        else
          var written := store[post.id := formatted];
          match reread
          case None => Step(written, FailedAfterCommit)
          case Some(current) =>
            Step(written, if VerifiesAs(current, formatted) then Verified else VerifyMismatch)
  }

  /**
    Which outcome a post gets: skipped exactly when it has no fence, acted
    on only when formatting changes it, written only in commit mode, and
    verified exactly when the re-read matches up to surrounding whitespace.
   */
  lemma ProcessPostOutcome(store: Store, post: Post, commitMode: bool, reply: Reply)
    ensures var r := ProcessPost(store, post, commitMode, reply);
      && (r.outcome == Skipped <==> !ContainsFence(post.message))
      && (r.outcome == NoChange <==> ContainsFence(post.message) && Format(post.message) == post.message)
      && (r.outcome == DryRun <==> !commitMode && Changes(post.message))
      && (r.outcome == WriteFailed <==> commitMode && Changes(post.message) && reply.UpdateRaised?)
      && (Committing(r.outcome) <==> commitMode && Changes(post.message) && reply.Committed?)
      && (r.outcome == Verified <==>
            && commitMode && Changes(post.message) && post.id in store
            && reply.Committed? && reply.reread.Some?
            && VerifiesAs(reply.reread.value, Format(post.message)))
      && (r.outcome == VerifyMismatch <==>
            && commitMode && Changes(post.message) && post.id in store
            && reply.Committed? && reply.reread.Some?
            && !VerifiesAs(reply.reread.value, Format(post.message)))
  {
  }

  /** No post of `posts` has id `k`. */
  predicate NotAmong(k: PostId, posts: seq<Post>)
  {
    forall i :: 0 <= i < |posts| ==> posts[i].id != k
  }

  /** A loop body: one post and its reply in, the new store and the post's outcome out. */
  type Body = (Store, Post, Reply) -> Step

  /** The body changes no key set and no row other than the one of the post it is given. */
  ghost predicate Local(body: Body)
  {
    forall store, post, reply :: body(store, post, reply).store.Keys == store.Keys
      && forall k :: k in store && k != post.id ==> body(store, post, reply).store[k] == store[k]
  }

  /** Runs `body` over the posts in order, threading the store and collecting one outcome per post. */
  function Fold(store: Store, posts: seq<Post>, replies: seq<Reply>, body: Body): (r: Trace)
    requires |replies| == |posts|
    ensures |r.outcomes| == |posts|
    decreases |posts|
  {
    if |posts| == 0 then Trace(store, [])
    else
      var step := body(store, posts[0], replies[0]);
      var rest := Fold(step.store, posts[1..], replies[1..], body);
      Trace(rest.store, [step.outcome] + rest.outcomes)
  }

  /** A fold of a local body keeps the key set and every row no post of the batch names. */
  lemma {:induction false} FoldLocal(store: Store, posts: seq<Post>, replies: seq<Reply>, body: Body)
    requires |replies| == |posts| && Local(body)
    ensures Fold(store, posts, replies, body).store.Keys == store.Keys
    ensures forall k :: k in store && NotAmong(k, posts) ==> Fold(store, posts, replies, body).store[k] == store[k]
    decreases |posts|
  {
    if |posts| > 0 {
      var step := body(store, posts[0], replies[0]);
      FoldLocal(step.store, posts[1..], replies[1..], body);
      forall k | k in store && NotAmong(k, posts)
        ensures Fold(store, posts, replies, body).store[k] == store[k]
      {
        assert posts[0].id != k;
        forall i | 0 <= i < |posts[1..]| ensures posts[1..][i].id != k {
          assert posts[1..][i] == posts[i + 1];
        }
      }
    }
  }

  /** Folding over two batches one after the other is folding over their concatenation. */
  lemma {:induction false} FoldAppend(store: Store, a: seq<Post>, b: seq<Post>, ra: seq<Reply>, rb: seq<Reply>, body: Body)
    requires |ra| == |a| && |rb| == |b|
    ensures var first := Fold(store, a, ra, body);
            var second := Fold(first.store, b, rb, body);
            Fold(store, a + b, ra + rb, body) == Trace(second.store, first.outcomes + second.outcomes)
    decreases |a|
  {
    if |a| == 0 {
      assert a + b == b && ra + rb == rb;
    } else {
      var step := body(store, a[0], ra[0]);
      var first := Fold(step.store, a[1..], ra[1..], body);
      var second := Fold(first.store, b, rb, body);
      FoldAppend(step.store, a[1..], b, ra[1..], rb, body);
      assert (a + b)[0] == a[0] && (ra + rb)[0] == ra[0];
      assert (a + b)[1..] == a[1..] + b && (ra + rb)[1..] == ra[1..] + rb;
      assert [step.outcome] + (first.outcomes + second.outcomes) == ([step.outcome] + first.outcomes) + second.outcomes;
    }
  }

  /** The loop body of main.py in the given mode. */
  function Loop(commitMode: bool): (body: Body)
    ensures Local(body)
  {
    (store, post, reply) => ProcessPost(store, post, commitMode, reply)
  }

  /**
    The whole loop: every post is processed once, in order. A failed write is
    rolled back and the loop goes on; the rollback is assumed to succeed.
   */
  function Run(store: Store, posts: seq<Post>, commitMode: bool, replies: seq<Reply>): (r: Trace)
    requires |replies| == |posts|
    ensures |r.outcomes| == |posts|
    ensures r.store.Keys == store.Keys
    ensures forall k :: k in store && NotAmong(k, posts) ==> r.store[k] == store[k]
  {
    FoldLocal(store, posts, replies, Loop(commitMode));
    Fold(store, posts, replies, Loop(commitMode))
  }

  /** The first iteration of the loop, then the rest. */
  lemma RunStep(store: Store, posts: seq<Post>, commitMode: bool, replies: seq<Reply>)
    requires |replies| == |posts| > 0
    ensures var step := ProcessPost(store, posts[0], commitMode, replies[0]);
            var rest := Run(step.store, posts[1..], commitMode, replies[1..]);
            Run(store, posts, commitMode, replies) == Trace(rest.store, [step.outcome] + rest.outcomes)
  {
  }

  /** In dry-run mode the store is left exactly as it was and nothing is written. */
  lemma {:induction false} DryRunWritesNothing(store: Store, posts: seq<Post>, replies: seq<Reply>)
    requires |replies| == |posts|
    ensures Run(store, posts, false, replies).store == store
    ensures forall i :: 0 <= i < |posts| ==> !Committing(Run(store, posts, false, replies).outcomes[i])
    decreases |posts|
  {
    if |posts| > 0 {
      RunStep(store, posts, false, replies);
      DryRunWritesNothing(store, posts[1..], replies[1..]);
    }
  }

  /** Running two batches one after the other is running their concatenation. */
  lemma RunAppend(store: Store, a: seq<Post>, b: seq<Post>, commitMode: bool, ra: seq<Reply>, rb: seq<Reply>)
    requires |ra| == |a| && |rb| == |b|
    ensures var first := Run(store, a, commitMode, ra);
            var second := Run(first.store, b, commitMode, rb);
            Run(store, a + b, commitMode, ra + rb) == Trace(second.store, first.outcomes + second.outcomes)
  {
    FoldAppend(store, a, b, ra, rb, Loop(commitMode));
  }

  /** The loop's first iteration, then the rest. */
  lemma RunCons(store: Store, post: Post, after: seq<Post>, commitMode: bool, reply: Reply, ra: seq<Reply>)
    requires |ra| == |after|
    ensures var step := ProcessPost(store, post, commitMode, reply);
            var last := Run(step.store, after, commitMode, ra);
            Run(store, [post] + after, commitMode, [reply] + ra) == Trace(last.store, [step.outcome] + last.outcomes)
  {
    assert ([post] + after)[0] == post && ([reply] + ra)[0] == reply;
    assert ([post] + after)[1..] == after && ([reply] + ra)[1..] == ra;
    RunStep(store, [post] + after, commitMode, [reply] + ra);
  }

  lemma InsertAt<T>(a: seq<T>, x: T, b: seq<T>)
    ensures (a + b)[..|a|] + [x] + (a + b)[|a|..] == a + ([x] + b)
  {
    assert (a + b)[..|a|] == a;
    assert (a + b)[|a|..] == b;
  }

  /** An iteration that commits nothing leaves the store as it was. */
  lemma IdleStepKeepsStore(store: Store, post: Post, commitMode: bool, reply: Reply)
    requires !Committing(ProcessPost(store, post, commitMode, reply).outcome)
    ensures ProcessPost(store, post, commitMode, reply).store == store
  {
  }

  /**
    Failure isolation: a post whose iteration writes nothing — in
    particular one whose UPDATE raised and was rolled back — leaves the run
    exactly as if that post had not been selected; only its own outcome is
    added.
   */
  lemma IdlePostIsIsolated(store: Store, before: seq<Post>, post: Post, after: seq<Post>,
                           commitMode: bool, rb: seq<Reply>, reply: Reply, ra: seq<Reply>)
    requires |rb| == |before| && |ra| == |after|
    requires !Committing(ProcessPost(Run(store, before, commitMode, rb).store, post, commitMode, reply).outcome)
    ensures var full := Run(store, before + [post] + after, commitMode, rb + [reply] + ra);
            var without := Run(store, before + after, commitMode, rb + ra);
            && full.store == without.store
            && full.outcomes == without.outcomes[..|before|]
                                + [ProcessPost(Run(store, before, commitMode, rb).store, post, commitMode, reply).outcome]
                                + without.outcomes[|before|..]
  {
    var first := Run(store, before, commitMode, rb);
    var step := ProcessPost(first.store, post, commitMode, reply);
    IdleStepKeepsStore(first.store, post, commitMode, reply);
    RunCons(first.store, post, after, commitMode, reply, ra);
    assert before + [post] + after == before + ([post] + after);
    assert rb + [reply] + ra == rb + ([reply] + ra);
    RunAppend(store, before, [post] + after, commitMode, rb, [reply] + ra);
    RunAppend(store, before, after, commitMode, rb, ra);
    var last := Run(first.store, after, commitMode, ra);
    InsertAt(first.outcomes, step.outcome, last.outcomes);
  }

  /** Post ids are unique, as the table's primary key guarantees. */
  predicate DistinctIds(posts: seq<Post>)
  {
    forall i, j :: 0 <= i < j < |posts| ==> posts[i].id != posts[j].id
  }

  /** With unique ids, the first post's id is not among the rest, whose ids are unique too. */
  lemma DistinctTail(posts: seq<Post>)
    requires |posts| > 0 && DistinctIds(posts)
    ensures NotAmong(posts[0].id, posts[1..]) && DistinctIds(posts[1..])
  {
    var tail := posts[1..];
    forall j | 0 <= j < |tail| ensures tail[j].id != posts[0].id {
      assert tail[j] == posts[j + 1];
    }
    forall a, b | 0 <= a < b < |tail| ensures tail[a].id != tail[b].id {
      assert tail[a] == posts[a + 1] && tail[b] == posts[b + 1];
    }
  }

  lemma {:induction false} RunFinalStoreAt(store: Store, posts: seq<Post>, commitMode: bool, replies: seq<Reply>, i: nat)
    requires |replies| == |posts|
    requires DistinctIds(posts)
    requires i < |posts| && posts[i].id in store
    ensures var r := Run(store, posts, commitMode, replies);
            r.store[posts[i].id] == if Committing(r.outcomes[i]) then Format(posts[i].message) else store[posts[i].id]
    decreases |posts|
  {
    var step := ProcessPost(store, posts[0], commitMode, replies[0]);
    var tail := posts[1..];
    var rest := Run(step.store, tail, commitMode, replies[1..]);
    RunStep(store, posts, commitMode, replies);
    DistinctTail(posts);
    if i > 0 {
      assert tail[i - 1] == posts[i];
      RunFinalStoreAt(step.store, tail, commitMode, replies[1..], i - 1);
    }
  }

  /**
    After the run, each selected post holds its formatted message if and
    only if its write was committed, and its original message otherwise.
   */
  lemma RunFinalStore(store: Store, posts: seq<Post>, commitMode: bool, replies: seq<Reply>)
    requires |replies| == |posts|
    requires DistinctIds(posts)
    ensures var r := Run(store, posts, commitMode, replies);
            forall i :: 0 <= i < |posts| && posts[i].id in store ==>
              r.store[posts[i].id] == if Committing(r.outcomes[i]) then Format(posts[i].message) else store[posts[i].id]
  {
    forall i | 0 <= i < |posts| && posts[i].id in store
      ensures var r := Run(store, posts, commitMode, replies);
              r.store[posts[i].id] == if Committing(r.outcomes[i]) then Format(posts[i].message) else store[posts[i].id]
    {
      RunFinalStoreAt(store, posts, commitMode, replies, i);
    }
  }

  /**
    A committed write whose re-read differs from the formatted message only
    in surrounding whitespace is reported as verified.
   */
  lemma CommittedWriteVerifies(store: Store, post: Post, pad1: string, pad2: string)
    requires post.id in store && Changes(post.message)
    requires AllIn(pad1, PythonWhitespace) && AllIn(pad2, PythonWhitespace)
    ensures var r := ProcessPost(store, post, true, Committed(Some(pad1 + Format(post.message) + pad2)));
            r.outcome == Verified && r.store == store[post.id := Format(post.message)]
  {
    TrimIgnoresPadding(pad1, Format(post.message), pad2, PythonWhitespace);
  }
}
