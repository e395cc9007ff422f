/**
  `remove_markdown_from_emails` (main.py): the substitution of the pattern
  `\[([^\]]+)\]\(mailto:([^\)]+)\)` by its second group, written as an
  explicit scanner.

  Because both groups are greedy runs of a negated character class, a
  match starting at a given `[` is forced: the label is the whole run of
  non-`]` characters after it and the address the whole run of non-`)`
  characters after `](mailto:`. `MatchLink` tries that single candidate;
  `Rewrite` scans left to right, replacing each match by its address and
  resuming after it, as `re.sub` does.
 */
module EmailLinks {
  import opened Options
  import opened Text

  /** The text between the label and the address. */
  const MailtoOpen: string := "](mailto:"

  /** What a match anchored at the start of the text yields: its address and its length. */
  datatype LinkMatch = LinkMatch(address: string, length: nat)

  /** Group 1 of the pattern: one or more characters, none of them `]`. */
  predicate ValidDisplay(display: string)
  {
    |display| > 0 && ']' !in display
  }

  /** Group 2 of the pattern: one or more characters, none of them `)`. */
  predicate ValidAddress(address: string)
  {
    |address| > 0 && ')' !in address
  }

  /** The Markdown text `[display](mailto:address)`; `display` is the label, group 1. */
  function LinkText(display: string, address: string): string
  {
    "[" + display + MailtoOpen + address + ")"
  }

  /** Reference meaning of the pattern: `s` starts with a well-formed mail link. */
  ghost predicate LinkPrefix(s: string, display: string, address: string)
  {
    ValidDisplay(display) && ValidAddress(address) && LinkText(display, address) <= s
  }

  /** Some position of `s` starts a well-formed mail link. */
  ghost predicate HasLink(s: string)
  {
    exists i, display, address :: 0 <= i <= |s| && LinkPrefix(s[i..], display, address)
  }

  /** Tries the pattern at the start of `s`. */
  function MatchLink(s: string): (r: Option<LinkMatch>)
    ensures r.Some? ==> 12 + |r.value.address| <= r.value.length <= |s|
  {
    if |s| == 0 || s[0] != '[' then None
    else
      var k := IndexOf(s, ']', 1);
      if k == 1 || |s| < k + 9 || s[k..k + 9] != MailtoOpen then None
      else
        var m := IndexOf(s, ')', k + 9);
        if m == k + 9 || m == |s| then None
        else Some(LinkMatch(s[k + 9..m], m + 1))
  }

  /** What `MatchLink` reports is a well-formed link at the start of `s`. */
  lemma MatchLinkSound(s: string)
    ensures MatchLink(s).Some? ==>
      exists display :: LinkPrefix(s, display, MatchLink(s).value.address)
                      && MatchLink(s).value.length == |LinkText(display, MatchLink(s).value.address)|
  {
    if MatchLink(s).Some? {
      var k := IndexOf(s, ']', 1);
      var m := IndexOf(s, ')', k + 9);
      var display, address := s[1..k], s[k + 9..m];
      assert ']' !in display by {
        forall j | 0 <= j < |display| ensures display[j] != ']' {
          assert display[j] == s[1 + j];
        }
      }
      assert ')' !in address by {
        forall j | 0 <= j < |address| ensures address[j] != ')' {
          assert address[j] == s[k + 9 + j];
        }
      }
      assert LinkText(display, address) == s[..m + 1];
    }
  }

  /** Every well-formed link at the start of `s` is found, with exactly its address and length. */
  lemma MatchLinkComplete(s: string, display: string, address: string)
    requires LinkPrefix(s, display, address)
    ensures MatchLink(s) == Some(LinkMatch(address, |LinkText(display, address)|))
  {
    var t := LinkText(display, address);
    var k := 1 + |display|;
    var a := k + 9;
    var m := a + |address|;
    assert t[0] == s[0] == '[';
    forall j | 1 <= j < k ensures s[j] != ']' {
      assert s[j] == t[j] == display[j - 1];
    }
    assert s[k] == t[k] == ']';
    IndexOfFirst(s, ']', 1, k);
    assert s[k..k + 9] == t[k..k + 9] == MailtoOpen;
    forall j | a <= j < m ensures s[j] != ')' {
      assert s[j] == t[j] == address[j - a];
    }
    assert s[m] == t[m] == ')';
    IndexOfFirst(s, ')', a, m);
    assert s[a..m] == t[a..m] == address;
  }

  /** The label of a link at the start of `s` sits right after the opening `[`. */
  lemma LinkPrefixDisplay(s: string, display: string, address: string)
    requires LinkPrefix(s, display, address)
    ensures 1 + |display| <= |s| && s[1..1 + |display|] == display
  {
    var t := LinkText(display, address);
    assert t[1..1 + |display|] == display;
    assert s[1..1 + |display|] == t[1..1 + |display|];
  }

  /** The pattern can match in only one way at a given position. */
  lemma LinkPrefixUnique(s: string, display1: string, address1: string, display2: string, address2: string)
    requires LinkPrefix(s, display1, address1) && LinkPrefix(s, display2, address2)
    ensures display1 == display2 && address1 == address2
  {
    MatchLinkComplete(s, display1, address1);
    MatchLinkComplete(s, display2, address2);
    LinkPrefixDisplay(s, display1, address1);
    LinkPrefixDisplay(s, display2, address2);
  }

  /** `re.sub(pattern, r'\2', s)`: every leftmost, non-overlapping link is replaced by its address. */
  function Rewrite(s: string): (r: string)
    ensures |r| <= |s|
    decreases |s|
  {
    if |s| == 0 then []
    else
      match MatchLink(s)
      case Some(m) => m.address + Rewrite(s[m.length..])
      case None => [s[0]] + Rewrite(s[1..])
  }

  lemma NoLinkInEmpty(s: string)
    requires |s| == 0
    ensures !HasLink(s)
  {
  }

  /** Without a link at its start, `s` has a link exactly when its tail has one. */
  lemma HasLinkTail(s: string)
    requires |s| > 0 && MatchLink(s).None?
    ensures HasLink(s) <==> HasLink(s[1..])
  {
    if HasLink(s) {
      var i, display, address :| 0 <= i <= |s| && LinkPrefix(s[i..], display, address);
      if i == 0 {
        assert s[0..] == s;
        MatchLinkComplete(s, display, address);
      }
      assert s[1..][i - 1..] == s[i..];
    }
    if HasLink(s[1..]) {
      var i, display, address :| 0 <= i <= |s[1..]| && LinkPrefix(s[1..][i..], display, address);
      assert s[1..][i..] == s[i + 1..];
    }
  }

  /**
    The rewrite leaves its input unchanged exactly when the input contains
    no link, and every rewrite that changes something removes at least
    twelve characters (`[`, one display character, `](mailto:` and `)`).
   */
  lemma {:induction false} RewriteChangesIffLink(s: string)
    ensures Rewrite(s) == s <==> !HasLink(s)
    ensures HasLink(s) ==> |Rewrite(s)| + 12 <= |s|
    decreases |s|
  {
    if |s| == 0 {
      NoLinkInEmpty(s);
    } else {
      match MatchLink(s)
      case Some(m) =>
        MatchLinkSound(s);
        var display :| LinkPrefix(s, display, m.address) && m.length == |LinkText(display, m.address)|;
        assert s[0..] == s;
        assert HasLink(s);
      case None =>
        HasLinkTail(s);
        RewriteChangesIffLink(s[1..]);
        assert s == [s[0]] + s[1..];
    }
  }

  /** Text without `[` passes through unchanged in front of whatever follows. */
  lemma {:induction false} RewriteSkipsBracketFree(u: string, v: string)
    requires '[' !in u
    ensures Rewrite(u + v) == u + Rewrite(v)
    decreases |u|
  {
    if |u| > 0 {
      assert (u + v)[0] == u[0];
      assert (u + v)[1..] == u[1..] + v;
      RewriteSkipsBracketFree(u[1..], v);
    } else {
      assert u + v == v;
    }
  }

  /**
    A link preceded by text without `[` is replaced by its address, and the
    scan resumes right after it.
   */
  lemma RewriteReplacesLink(u: string, display: string, address: string, v: string)
    requires '[' !in u
    requires ValidDisplay(display) && ValidAddress(address)
    ensures Rewrite(u + LinkText(display, address) + v) == u + address + Rewrite(v)
  {
    var t := LinkText(display, address);
    assert u + t + v == u + (t + v);
    RewriteSkipsBracketFree(u, t + v);
    MatchLinkComplete(t + v, display, address);
    assert (t + v)[|t|..] == v;
  }

  /** Text without `[` contains no link and is returned unchanged. */
  lemma RewriteBracketFree(t: string)
    requires '[' !in t
    ensures Rewrite(t) == t
  {
    RewriteSkipsBracketFree(t, []);
    assert t + [] == t;
  }

  /** A link on its own is replaced by its address. */
  lemma RewriteSingleLink(display: string, address: string)
    requires ValidDisplay(display) && ValidAddress(address)
    ensures Rewrite(LinkText(display, address)) == address
  {
    var t := LinkText(display, address);
    assert t <= t;
    MatchLinkComplete(t, display, address);
    assert t[|t|..] == [];
    assert address + [] == address;
  }

  /** A single link between two `[`-free texts is the only thing replaced. */
  lemma RewriteReplacesLinkOnly(p: string, display: string, address: string, q: string)
    requires '[' !in p && '[' !in q
    requires ValidDisplay(display) && ValidAddress(address)
    ensures Rewrite(p + LinkText(display, address) + q) == p + address + q
  {
    RewriteReplacesLink(p, display, address, q);
    RewriteBracketFree(q);
  }

  /** `[display]([inner](mailto:mailto:address))`: a link nested in the parentheses of a link-like text. */
  function NestedLinks(display: string, inner: string, address: string): string
  {
    "[" + display + "](" + LinkText(inner, "mailto:" + address) + ")"
  }

  /** Text of the form `[display](x…` whose `x` is not `m` is no link at its start. */
  lemma NoLinkWithoutMailto(display: string, rest: string)
    requires ValidDisplay(display) && |rest| > 0 && rest[0] != 'm'
    ensures MatchLink("[" + display + "](" + rest).None?
  {
    var s := "[" + display + "](" + rest;
    var k := 1 + |display|;
    forall j | 1 <= j < k ensures s[j] != ']' {
      assert s[j] == display[j - 1];
    }
    assert s[k] == ']';
    IndexOfFirst(s, ']', 1, k);
    if |s| >= k + 9 {
      assert s[k..k + 9][2] == rest[0];
    }
  }

  /** Without a link at its start, the rewrite keeps the first character and scans on. */
  lemma RewriteKeepsFirst(s: string)
    requires |s| > 0 && MatchLink(s).None?
    ensures Rewrite(s) == [s[0]] + Rewrite(s[1..])
  {
  }

  /** A `[` that starts no link, then `[`-free text: both are kept, and the rest is rewritten. */
  lemma RewriteKeepsNonLink(p: string, rest: string)
    requires MatchLink("[" + (p + rest)).None? && '[' !in p
    ensures Rewrite("[" + (p + rest)) == "[" + (p + Rewrite(rest))
  {
    RewriteSkipsBracketFree(p, rest);
    RewriteAfterBracket(p + rest);
  }

  /** `RewriteKeepsFirst` for a text that starts with `[`. */
  lemma RewriteAfterBracket(t: string)
    requires MatchLink("[" + t).None?
    ensures Rewrite("[" + t) == "[" + Rewrite(t)
  {
    RewriteKeepsFirst("[" + t);
    assert ("[" + t)[1..] == t;
  }

  /** `mailto:` followed by a valid address is itself a valid address. */
  lemma MailtoAddress(address: string)
    requires ValidAddress(address)
    ensures ValidAddress("mailto:" + address)
  {
    var a := "mailto:" + address;
    forall j | 0 <= j < |a| ensures a[j] != ')' {
      if j >= 7 { assert a[j] == address[j - 7]; }
    }
  }

  /**
    The outer text is no link (`](` is not followed by `mailto:`), so only
    the nested one is replaced, and what remains is a new link.
   */
  lemma RewriteUnwrapsNested(display: string, inner: string, address: string)
    requires ValidDisplay(display) && '[' !in display
    requires ValidDisplay(inner) && ValidAddress(address)
    ensures Rewrite(NestedLinks(display, inner, address)) == LinkText(display, address)
  {
    var a := "mailto:" + address;
    var rest := LinkText(inner, a) + ")";
    var p := display + "](";
    NestedParts(display, inner, address, a, rest, p);
    MailtoAddress(address);
    RewriteReplacesLinkOnly([], inner, a, ")");
    assert [] + LinkText(inner, a) + ")" == rest;
    RewriteKeepsNonLink(p, rest);
    assert [] + a + ")" == a + ")";
  }

  /** How `NestedLinks` and the resulting link decompose around the kept prefix `[display](`. */
  lemma NestedParts(display: string, inner: string, address: string, a: string, rest: string, p: string)
    requires ValidDisplay(display) && '[' !in display
    requires a == "mailto:" + address && rest == LinkText(inner, a) + ")" && p == display + "]("
    ensures NestedLinks(display, inner, address) == "[" + (p + rest)
    ensures MatchLink("[" + (p + rest)).None? && '[' !in p
    ensures "[" + (p + (a + ")")) == LinkText(display, address)
  {
    assert rest[0] == '[';
    NoLinkWithoutMailto(display, rest);
    assert NestedLinks(display, inner, address) == "[" + display + "](" + rest == "[" + (p + rest);
  }
}
