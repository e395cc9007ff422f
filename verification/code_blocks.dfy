/**
  `format_code_blocks` (main.py): the substitution of the pattern
  ```` ```((?:.|\n)*)``` ```` through `process_match`, written as two explicit
  steps: locate the span, then rewrite the links inside it.

  `(?:.|\n)` matches any character and `*` is greedy, so the regex
  matches from the first usable opening fence to the LAST fence of the
  text: several code blocks collapse into one span, and there is at most
  one substitution.
 */
module CodeBlocks {
  import opened Options
  import opened Text
  import opened EmailLinks

  const Fence: string := "```"

  /** A fence (three backticks) starts at index `i` of `s`. */
  predicate FenceAt(s: string, i: int)
  {
    0 <= i && i + 3 <= |s| && s[i] == '`' && s[i + 1] == '`' && s[i + 2] == '`'
  }

  /** Reference meaning of the pattern: it matches `s[i..j + 3]`, opening at `i` and closing at `j`. */
  ghost predicate FenceMatch(s: string, i: int, j: int)
  {
    FenceAt(s, i) && FenceAt(s, j) && i + 3 <= j
  }

  /** The last fence starting before `end`. */
  function LastFence(s: string, end: nat): (r: Option<nat>)
    requires end <= |s|
    ensures r.Some? ==> r.value < end && FenceAt(s, r.value)
                        && forall j :: r.value < j < end ==> !FenceAt(s, j)
    ensures r.None? ==> forall j :: 0 <= j < end ==> !FenceAt(s, j)
    decreases end
  {
    if end == 0 then None
    else if FenceAt(s, end - 1) then Some(end - 1)
    else LastFence(s, end - 1)
  }

  /** The first fence starting at or after `from` and before `bound`. */
  function FirstFence(s: string, from: nat, bound: int): (r: Option<nat>)
    ensures r.Some? ==> from <= r.value < bound && FenceAt(s, r.value)
                        && forall j :: from <= j < r.value ==> !FenceAt(s, j)
    ensures r.None? ==> forall j :: from <= j < bound ==> !FenceAt(s, j)
    decreases bound - from
  {
    if bound <= from then None
    else if FenceAt(s, from) then Some(from)
    else FirstFence(s, from + 1, bound)
  }

  /** Python's `'```' in message`. */
  function ContainsFence(s: string): (b: bool)
    ensures b <==> exists i :: FenceAt(s, i)
  {
    LastFence(s, |s|).Some?
  }

  /** The opening and closing fence of the matched span. */
  datatype Span = Span(open: nat, close: nat)

  /**
    Where the pattern matches under leftmost, greedy search: the span
    opens at the first fence that some fence at least three characters
    later can close, and closes at the last fence of the text. It
    contains every other place the pattern could match.
   */
  function LocateSpan(s: string): (r: Option<Span>)
    ensures r.Some? ==> FenceMatch(s, r.value.open, r.value.close)
    ensures r.Some? ==> forall i, j :: FenceMatch(s, i, j) ==> r.value.open <= i && j <= r.value.close
    ensures r.None? ==> forall i, j :: !FenceMatch(s, i, j)
  {
    match LastFence(s, |s|)
    case None => None
    case Some(close) =>
      match FirstFence(s, 0, close - 2)
      case None => None
      case Some(open) =>
        assert FenceMatch(s, open, close);
        Some(Span(open, close))
  }

  /** The text between the two fences of a span: the regex's group 1. */
  function Inner(s: string, sp: Span): string
    requires sp.open + 3 <= sp.close <= |s|
  {
    s[sp.open + 3..sp.close]
  }

  /**
    `format_code_blocks`: the links inside the span are rewritten, the two
    fences are put back, and everything around them is kept. The result is
    never longer than the input, and at least twelve characters shorter
    when it differs.
   */
  function Format(s: string): (r: string)
    ensures |r| <= |s|
    ensures r != s ==> |r| + 12 <= |s|
    ensures (forall i, j :: !FenceMatch(s, i, j)) ==> r == s
  {
    match LocateSpan(s)
    case None => s
    case Some(sp) =>
      RewriteChangesIffLink(Inner(s, sp));
      SpanSplits(s, sp);
      Splice(s, sp)
  }

  /** `process_match` put back in place: the fences, group 1 rewritten between them, the rest kept. */
  function Splice(s: string, sp: Span): string
    requires sp.open + 3 <= sp.close && sp.close + 3 <= |s|
  {
    s[..sp.open] + Fence + Rewrite(Inner(s, sp)) + Fence + s[sp.close + 3..]
  }

  /** A text is the part before its span, the two fences with group 1 between them, and the rest. */
  lemma SpanSplits(s: string, sp: Span)
    requires FenceMatch(s, sp.open, sp.close)
    ensures s == s[..sp.open] + Fence + Inner(s, sp) + Fence + s[sp.close + 3..]
  {
    assert s[sp.open..sp.open + 3] == Fence;
    assert s[sp.close..sp.close + 3] == Fence;
    assert s == s[..sp.open] + s[sp.open..sp.open + 3] + s[sp.open + 3..sp.close]
                + s[sp.close..sp.close + 3] + s[sp.close + 3..];
  }

  /**
    Everything up to the end of the opening fence, and everything from the
    closing fence on, is copied unchanged, links included; what lies in
    between is the rewritten group 1.
   */
  lemma FormatKeepsOutside(s: string)
    requires LocateSpan(s).Some?
    ensures var sp := LocateSpan(s).value;
            var r := Format(s);
            && s[..sp.open + 3] <= r
            && |s| - sp.close <= |r|
            && r[|r| - (|s| - sp.close)..] == s[sp.close..]
            && r[sp.open + 3..|r| - (|s| - sp.close)] == Rewrite(Inner(s, sp))
  {
    var sp := LocateSpan(s).value;
    var a, w, b := s[..sp.open], Rewrite(Inner(s, sp)), s[sp.close + 3..];
    FormatAround(s, sp);
    SpanEdges(s, sp);
    FencedParts(a, w, b, Format(s));
  }

  /** `Format` once the span is known. */
  lemma FormatAround(s: string, sp: Span)
    requires LocateSpan(s) == Some(sp)
    ensures Format(s) == s[..sp.open] + Fence + Rewrite(Inner(s, sp)) + Fence + s[sp.close + 3..]
  {
    assert Format(s) == Splice(s, sp);
  }

  /** The text up to the end of the opening fence, and from the closing fence on. */
  lemma SpanEdges(s: string, sp: Span)
    requires FenceMatch(s, sp.open, sp.close)
    ensures s[..sp.open + 3] == s[..sp.open] + Fence
    ensures s[sp.close..] == Fence + s[sp.close + 3..]
  {
    assert s[sp.open..sp.open + 3] == Fence;
    assert s[sp.close..sp.close + 3] == Fence;
    assert s[..sp.open + 3] == s[..sp.open] + s[sp.open..sp.open + 3];
    assert s[sp.close..] == s[sp.close..sp.close + 3] + s[sp.close + 3..];
  }

  /** The three parts of `a` + fence + `w` + fence + `b`, read back by position. */
  lemma FencedParts(a: string, w: string, b: string, r: string)
    requires r == a + Fence + w + Fence + b
    ensures a + Fence <= r
    ensures r[|r| - (3 + |b|)..] == Fence + b
    ensures r[|a| + 3..|r| - (3 + |b|)] == w
  {
    assert r == (a + Fence) + w + (Fence + b);
  }

  /** The output differs from the input exactly when the span exists and its group 1 holds a link. */
  lemma FormatChangesIff(s: string)
    ensures Format(s) != s <==> LocateSpan(s).Some? && HasLink(Inner(s, LocateSpan(s).value))
  {
    if LocateSpan(s).Some? {
      var sp := LocateSpan(s).value;
      var inner := Inner(s, sp);
      RewriteChangesIffLink(inner);
      assert |Format(s)| == |s| - |inner| + |Rewrite(inner)|;
      if !HasLink(inner) {
        assert s == s[..sp.open] + Fence + inner + Fence + s[sp.close + 3..];
      }
    }
  }

  /**
    One fence after text without backticks and one before text without
    backticks delimit the span, whatever lies in between, fences included.
   */
  lemma {:induction false} FormatSingleSpan(u: string, w: string, v: string)
    requires '`' !in u && '`' !in v
    ensures Format(u + Fence + w + Fence + v) == u + Fence + Rewrite(w) + Fence + v
  {
    var s := u + Fence + w + Fence + v;
    var o, c := |u|, |u| + 3 + |w|;
    assert FenceMatch(s, o, c);
    var sp := LocateSpan(s).value;
    forall k | 0 <= k < o ensures !FenceAt(s, k) {
      assert s[k] == u[k];
    }
    forall k | c < k ensures !FenceAt(s, k) {
      if k + 3 <= |s| {
        assert s[k + 2] == v[k + 2 - (c + 3)];
      }
    }
    assert Inner(s, sp) == w;
    assert s[..sp.open] == u;
    assert s[sp.close + 3..] == v;
  }
  /** `FormatSingleSpan` for a text and a result given as whole strings. */
  lemma FormatSingleSpanOf(s: string, u: string, w: string, v: string, rewritten: string, r: string)
    requires '`' !in u && '`' !in v
    requires s == u + Fence + w + Fence + v
    requires Rewrite(w) == rewritten
    requires r == u + Fence + rewritten + Fence + v
    ensures Format(s) == r
  {
    FormatSingleSpan(u, w, v);
  }

  /**
    A link inside a single code block becomes its bare address and every
    other character is kept.
   */
  lemma FormatRewritesLinkInBlock(u: string, p: string, display: string, address: string, q: string, v: string)
    requires '`' !in u && '`' !in v
    requires '[' !in p && '[' !in q
    requires ValidDisplay(display) && ValidAddress(address)
    ensures Format(u + Fence + p + LinkText(display, address) + q + Fence + v)
         == u + Fence + p + address + q + Fence + v
  {
    RewriteReplacesLinkOnly(p, display, address, q);
    BlockRegroup(u, p, LinkText(display, address), q, v);
    BlockRegroup(u, p, address, q, v);
    FormatSingleSpanOf(u + Fence + p + LinkText(display, address) + q + Fence + v,
                       u, p + LinkText(display, address) + q, v, p + address + q,
                       u + Fence + p + address + q + Fence + v);
  }

  /** Text around `x` inside a code block, regrouped as the block's group 1. */
  lemma BlockRegroup(u: string, p: string, x: string, q: string, v: string)
    ensures u + Fence + p + x + q + Fence + v == u + Fence + (p + x + q) + Fence + v
  {
  }

  /**
    Two code blocks collapse into one span: a link written BETWEEN them,
    outside both blocks, is rewritten as well.
   */
  lemma FormatMergesBlocks(x: string, display: string, address: string, y: string)
    requires '[' !in x && '[' !in y
    requires ValidDisplay(display) && ValidAddress(address)
    ensures Format(Fence + x + Fence + LinkText(display, address) + Fence + y + Fence)
         == Fence + x + Fence + address + Fence + y + Fence
  {
    assert '[' !in x + Fence && '[' !in Fence + y;
    RewriteReplacesLinkOnly(x + Fence, display, address, Fence + y);
    FormatSingleSpanOf(Fence + x + Fence + LinkText(display, address) + Fence + y + Fence,
                       [], x + Fence + LinkText(display, address) + (Fence + y), [],
                       x + Fence + address + (Fence + y),
                       Fence + x + Fence + address + Fence + y + Fence);
  }

  /** A code block holding exactly one link becomes a code block holding its address. */
  lemma FormatSingleLinkBlock(s: string, display: string, address: string)
    requires ValidDisplay(display) && ValidAddress(address)
    requires s == Fence + LinkText(display, address) + Fence
    ensures Format(s) == Fence + address + Fence
  {
    RewriteSingleLink(display, address);
    FormatBareBlock(s, LinkText(display, address), address);
  }

  lemma FormatNestedBlock(s: string, display: string, inner: string, address: string)
    requires ValidDisplay(display) && '[' !in display
    requires ValidDisplay(inner) && ValidAddress(address)
    requires s == Fence + NestedLinks(display, inner, address) + Fence
    ensures Format(s) == Fence + LinkText(display, address) + Fence
  {
    RewriteUnwrapsNested(display, inner, address);
    FormatBareBlock(s, NestedLinks(display, inner, address), LinkText(display, address));
  }

  lemma NoEnds(w: string)
    ensures [] + Fence + w + Fence + [] == Fence + w + Fence
  {
  }

  /** A text that is one code block and nothing else: its group 1 is rewritten. */
  lemma FormatBareBlock(s: string, w: string, rewritten: string)
    requires s == Fence + w + Fence && Rewrite(w) == rewritten
    ensures Format(s) == Fence + rewritten + Fence
  {
    NoEnds(w);
    NoEnds(rewritten);
    FormatSingleSpanOf(s, [], w, [], rewritten, Fence + rewritten + Fence);
  }

  /**
    The transformation is not idempotent: a link nested in the label part
    of another one is unwrapped by the first pass, which leaves a new link
    for the second pass.
   */
  lemma FormatNotIdempotent(s: string, display: string, inner: string, address: string)
    requires ValidDisplay(display) && '[' !in display
    requires ValidDisplay(inner) && ValidAddress(address)
    requires s == Fence + NestedLinks(display, inner, address) + Fence
    ensures Format(s) == Fence + LinkText(display, address) + Fence
    ensures Format(Format(s)) == Fence + address + Fence
    ensures Format(Format(s)) != Format(s)
  {
    FormatNestedBlock(s, display, inner, address);
    var once := Format(s);
    FormatSingleLinkBlock(once, display, address);
    assert |Format(once)| < |once|;
  }
}
