/**
  Character-level helpers shared by the transformer, the pipeline and the
  row filter: searching for a character, and trimming a character class
  from both ends of a string (Python's `str.strip()` and PostgreSQL's
  `TRIM`).
 */
module Text {

  /** The first index at or after `from` holding `c`, or `|s|` if there is none. */
  function IndexOf(s: string, c: char, from: nat): (k: nat)
    requires from <= |s|
    ensures from <= k <= |s|
    ensures k < |s| ==> s[k] == c
    ensures forall j :: from <= j < k ==> s[j] != c
    decreases |s| - from
  {
    if from == |s| then |s|
    else if s[from] == c then from
    else IndexOf(s, c, from + 1)
  }

  /** `IndexOf` finds exactly the first occurrence. */
  lemma IndexOfFirst(s: string, c: char, from: nat, j: nat)
    requires from <= j < |s|
    requires s[j] == c
    requires forall i :: from <= i < j ==> s[i] != c
    ensures IndexOf(s, c, from) == j
  {
  }

  /** The characters a trim removes: Python's whitespace, or SQL's space. */
  datatype Blank = PythonWhitespace | SqlSpace

  predicate Drops(blank: Blank, c: char)
  {
    match blank
    case PythonWhitespace => IsPyWhitespace(c)
    case SqlSpace => c == ' '
  }

  /** Every character of `s` belongs to the class `blank`. */
  predicate AllIn(s: string, blank: Blank)
  {
    forall i :: 0 <= i < |s| ==> Drops(blank, s[i])
  }

  /** `r` is what is left of `s` after a blank prefix. */
  ghost predicate AfterBlank(s: string, r: string, blank: Blank)
  {
    |r| <= |s| && r == s[|s| - |r|..] && AllIn(s[..|s| - |r|], blank)
  }

  /** `r` is what is left of `s` before a blank suffix. */
  ghost predicate BeforeBlank(s: string, r: string, blank: Blank)
  {
    |r| <= |s| && r == s[..|r|] && AllIn(s[|r|..], blank)
  }

  /** Removes the longest prefix made of blank characters. */
  function TrimStart(s: string, blank: Blank): (r: string)
    ensures AfterBlank(s, r, blank)
    ensures |r| > 0 ==> !Drops(blank, r[0])
    decreases |s|
  {
    if |s| > 0 && Drops(blank, s[0]) then
      var r := TrimStart(s[1..], blank);
      BlankPrefixGrows(s, |s| - 1 - |r|, blank);
      r
    else s
  }

  /** A blank first character followed by a blank prefix of the tail is a blank prefix. */
  lemma BlankPrefixGrows(s: string, n: nat, blank: Blank)
    requires 0 < |s| && n < |s| && Drops(blank, s[0]) && AllIn(s[1..][..n], blank)
    ensures AllIn(s[..n + 1], blank) && s[1..][n..] == s[n + 1..]
  {
    var p, q := s[..n + 1], s[1..][..n];
    forall i | 0 <= i < n + 1 ensures Drops(blank, p[i]) {
      if i > 0 { assert p[i] == q[i - 1]; }
    }
  }

  /** Removes the longest suffix made of blank characters. */
  function TrimEnd(s: string, blank: Blank): (r: string)
    ensures BeforeBlank(s, r, blank)
    ensures |r| > 0 ==> !Drops(blank, r[|r| - 1])
    decreases |s|
  {
    if |s| > 0 && Drops(blank, s[|s| - 1]) then
      var r := TrimEnd(s[..|s| - 1], blank);
      BlankSuffixGrows(s, |r|, blank);
      r
    else s
  }

  /** A blank suffix of all but the last character, then a blank last character, is a blank suffix. */
  lemma BlankSuffixGrows(s: string, n: nat, blank: Blank)
    requires 0 < |s| && n < |s| && Drops(blank, s[|s| - 1]) && AllIn(s[..|s| - 1][n..], blank)
    ensures AllIn(s[n..], blank) && s[..|s| - 1][..n] == s[..n]
  {
    var p, q := s[n..], s[..|s| - 1][n..];
    forall i | 0 <= i < |s| - n ensures Drops(blank, p[i]) {
      if i < |s| - 1 - n { assert p[i] == q[i]; }
    }
  }

  lemma AllInConcat(a: string, b: string, blank: Blank)
    requires AllIn(a, blank) && AllIn(b, blank)
    ensures AllIn(a + b, blank)
  {
    forall i | 0 <= i < |a + b| ensures Drops(blank, (a + b)[i]) {
      if i >= |a| {
        assert (a + b)[i] == b[i - |a|];
      }
    }
  }

  /**
    Removes blank characters from both ends: the result is empty exactly
    when the whole string is blank, and otherwise starts and ends with a
    character that is not blank.
   */
  function Trim(s: string, blank: Blank): (r: string)
    ensures r == [] <==> AllIn(s, blank)
    ensures |r| > 0 ==> !Drops(blank, r[0]) && !Drops(blank, r[|r| - 1])
  {
    TrimBothEnds(s, blank);
    TrimEnd(TrimStart(s, blank), blank)
  }

  lemma TrimBothEnds(s: string, blank: Blank)
    ensures TrimEnd(TrimStart(s, blank), blank) == [] <==> AllIn(s, blank)
  {
    var t := TrimStart(s, blank);
    var r := TrimEnd(t, blank);
    var k := |s| - |t|;
    if |t| > 0 {
      assert s[k] == t[0];
    }
    if |r| == 0 {
      assert t[|r|..] == t;
      assert s == s[..k] + t;
      AllInConcat(s[..k], t, blank);
    }
  }

  /** `r` is the slice of `s` starting at `i`, and everything around it is blank. */
  ghost predicate BlankAround(s: string, i: nat, r: string, blank: Blank)
  {
    i + |r| <= |s| && r == s[i..i + |r|] && AllIn(s[..i], blank) && AllIn(s[i + |r|..], blank)
  }

  /**
    `Trim` returns a slice of its input: what it cuts away in front and
    behind is blank, so only the ends are ever touched.
   */
  lemma TrimSpan(s: string, blank: Blank) returns (i: nat, r: string)
    ensures r == Trim(s, blank) && BlankAround(s, i, r, blank)
  {
    i, r := TrimEndsSpan(s, blank);
  }

  /** `TrimSpan` for the two one-sided trims applied in turn. */
  lemma TrimEndsSpan(s: string, blank: Blank) returns (i: nat, r: string)
    ensures r == TrimEnd(TrimStart(s, blank), blank) && BlankAround(s, i, r, blank)
  {
    var t := TrimStart(s, blank);
    r := TrimEnd(t, blank);
    i := |s| - |t|;
    SliceOfSuffix(s, i, t, r, blank);
  }

  /** A blank-bounded prefix `r` of a blank-bounded suffix `t` of `s` is a blank-bounded slice of `s`. */
  lemma SliceOfSuffix(s: string, i: nat, t: string, r: string, blank: Blank)
    requires i == |s| - |t| && AfterBlank(s, t, blank) && BeforeBlank(t, r, blank)
    ensures BlankAround(s, i, r, blank)
  {
    assert t[|r|..] == s[i + |r|..];
  }

  lemma TrimStartSkips(p: string, x: string, blank: Blank)
    requires AllIn(p, blank)
    ensures TrimStart(p + x, blank) == TrimStart(x, blank)
    decreases |p|
  {
    if |p| > 0 {
      assert (p + x)[1..] == p[1..] + x;
      TrimStartSkips(p[1..], x, blank);
    } else {
      assert p + x == x;
    }
  }

  lemma TrimEndSkips(x: string, q: string, blank: Blank)
    requires AllIn(q, blank)
    ensures TrimEnd(x + q, blank) == TrimEnd(x, blank)
    decreases |q|
  {
    if |q| > 0 {
      assert (x + q)[..|x + q| - 1] == x + q[..|q| - 1];
      TrimEndSkips(x, q[..|q| - 1], blank);
    } else {
      assert x + q == x;
    }
  }

  lemma TrimStartKeepsTail(t: string, q: string, blank: Blank)
    requires !AllIn(t, blank)
    ensures TrimStart(t + q, blank) == TrimStart(t, blank) + q
    decreases |t|
  {
    assert (t + q)[0] == t[0];
    if Drops(blank, t[0]) {
      assert (t + q)[1..] == t[1..] + q;
      TrimStartKeepsTail(t[1..], q, blank);
    }
  }

  /**
    Padding a string with blank characters on either side does not
    change what `Trim` returns.
   */
  lemma {:induction false} TrimIgnoresPadding(p: string, t: string, q: string, blank: Blank)
    requires AllIn(p, blank) && AllIn(q, blank)
    ensures Trim(p + t + q, blank) == Trim(t, blank)
  {
    assert p + t + q == p + (t + q);
    TrimStartSkips(p, t + q, blank);
    if AllIn(t, blank) {
      assert AllIn(t + q, blank);
      TrimStartSkips(t + q, [], blank);
      assert t + q + [] == t + q;
      TrimStartSkips(t, [], blank);
      assert t + [] == t;
    } else {
      TrimStartKeepsTail(t, q, blank);
      TrimEndSkips(TrimStart(t, blank), q, blank);
    }
  }

  /** The characters for which Python's `str.isspace()` holds. */
  predicate IsPyWhitespace(c: char)
  {
    || '\t' <= c <= '\r'
    || '\U{1C}' <= c <= ' '
    || c == '\U{85}' || c == '\U{A0}' || c == '\U{1680}'
    || '\U{2000}' <= c <= '\U{200A}'
    || c == '\U{2028}' || c == '\U{2029}' || c == '\U{202F}'
    || c == '\U{205F}' || c == '\U{3000}'
  }

  /** Python's `str.strip()` with no argument. */
  function PyStrip(s: string): (r: string)
    ensures r == [] <==> forall i :: 0 <= i < |s| ==> IsPyWhitespace(s[i])
    ensures |r| > 0 ==> !IsPyWhitespace(r[0]) && !IsPyWhitespace(r[|r| - 1])
  {
    Trim(s, PythonWhitespace)
  }

  /** PostgreSQL's one-argument `TRIM`, which removes spaces only. */
  function SqlTrim(s: string): (r: string)
    ensures r == [] <==> forall i :: 0 <= i < |s| ==> s[i] == ' '
    ensures |r| > 0 ==> r[0] != ' ' && r[|r| - 1] != ' '
  {
    Trim(s, SqlSpace)
  }
}
