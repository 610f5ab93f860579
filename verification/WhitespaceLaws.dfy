/** What collapsing and trimming do to a string, in literal characters. */
module WhitespaceLaws {
  import opened Sequences
  import opened Wrappers
  import opened Whitespace
  import opened VectorKernels
  import T = Text

  // ---------------------------------------------------------------------------------------------
  // collapse_whitespace: tab, newline, form feed, carriage return and space

  lemma FiveCharacters(c: char)
    ensures IsAsciiWs(c as int) <==> c in "\t\n\U{000C}\r "
  {
  }

  /** Only spaces are left of the five, and no two of them are adjacent. */
  lemma OnlySingleSpacesRemain(s: string)
    ensures
      var out := Collapse(s, false);
      && (forall k :: 0 <= k < |out| ==> out[k] !in "\t\n\U{000C}\r")
      && (forall k :: 0 <= k < |out| - 1 ==> !(out[k] == ' ' && out[k + 1] == ' '))
  {
    var out := Collapse(s, false);
    CollapseIsCollapsed(s, false);
    forall k | 0 <= k < |out|
      ensures out[k] !in "\t\n\U{000C}\r" && (k < |out| - 1 ==> !(out[k] == ' ' && out[k + 1] == ' '))
    {
      FiveCharacters(out[k]);
      if k < |out| - 1 { FiveCharacters(out[k + 1]); }
    }
  }

  /** The flag after some characters. */
  function Behind(a: string, prev: bool): bool {
    if a == [] then prev else IsAsciiWs(a[|a| - 1] as int)
  }

  lemma {:induction false} CollapseConcat(a: string, b: string, prev: bool)
    ensures Collapse(a + b, prev) == Collapse(a, prev) + Collapse(b, Behind(a, prev))
    decreases |a|
  {
    if a == [] {
      assert a + b == b;
    } else {
      var ws := IsAsciiWs(a[0] as int);
      CollapseConcat(a[1..], b, ws);
      assert (a + b)[1..] == a[1..] + b;
      assert Behind(a, prev) == Behind(a[1..], ws);
      hide Behind;
      Regroup(if !ws then [a[0]] else if prev then [] else [' '], Collapse(a[1..], ws), Collapse(b, Behind(a, prev)));
    }
  }

  lemma {:induction false} CollapseRun(r: string, prev: bool)
    requires forall k :: 0 <= k < |r| ==> IsAsciiWs(r[k] as int)
    ensures Collapse(r, prev) == if r == [] || prev then [] else " "
  {
    if r == [] {
    } else {
      CollapseRun(r[1..], true);
    }
  }

  /** Every run of the five becomes one space, and what stands around it does not depend on it. */
  lemma RunBecomesSpace(a: string, r: string, b: string)
    requires r != [] && forall k :: 0 <= k < |r| ==> r[k] in "\t\n\U{000C}\r "
    requires a != [] ==> a[|a| - 1] !in "\t\n\U{000C}\r "
    requires b != [] ==> b[0] !in "\t\n\U{000C}\r "
    ensures Collapse(a + r + b, false) == Collapse(a, false) + " " + Collapse(b, false)
  {
    forall k | 0 <= k < |r| ensures IsAsciiWs(r[k] as int) {
      FiveCharacters(r[k]);
    }
    if a != [] { FiveCharacters(a[|a| - 1]); }
    if b != [] { FiveCharacters(b[0]); }
    CollapseConcat(a + r, b, false);
    CollapseConcat(a, r, false);
    CollapseRun(r, false);
    assert (a + r)[|a + r| - 1] == r[|r| - 1];
    assert Collapse(b, true) == Collapse(b, false);
  }

  /** A text with none of the five is unchanged, whatever else is in it. */
  lemma OthersAreUnchanged(s: string)
    requires forall k :: 0 <= k < |s| ==> s[k] !in "\t\n\U{000C}\r "
    ensures Collapse(s, false) == s
  {
    forall k | 0 <= k < |s| ensures !IsAsciiWs(s[k] as int) {
      FiveCharacters(s[k]);
    }
    CollapseIdempotent(s);
  }

  /** Vertical tab, for one, is no whitespace here. */
  lemma VerticalTabStays(a: string, b: string)
    requires forall k :: 0 <= k < |a| ==> a[k] !in "\t\n\U{000C}\r "
    requires forall k :: 0 <= k < |b| ==> b[k] !in "\t\n\U{000C}\r "
    ensures Collapse(a + "\U{000B}" + b, false) == a + "\U{000B}" + b
  {
    OthersAreUnchanged(a + "\U{000B}" + b);
  }

  // ---------------------------------------------------------------------------------------------
  // str::trim: the 25 characters with the Unicode property White_Space

  const WHITE := "\t\n\U{000B}\U{000C}\r \U{0085}\U{00A0}\U{1680}"
    + "\U{2000}\U{2001}\U{2002}\U{2003}\U{2004}\U{2005}\U{2006}\U{2007}\U{2008}\U{2009}\U{200A}"
    + "\U{2028}\U{2029}\U{202F}\U{205F}\U{3000}"

  lemma WhiteCharacters(c: char)
    ensures T.IsWhite(c) <==> c in WHITE
  {
  }

  ghost predicate AllWhite(s: string) {
    forall k :: 0 <= k < |s| ==> T.IsWhite(s[k])
  }

  lemma {:induction false} LeadOfPadded(a: string, s: string)
    requires AllWhite(a) && (s != [] ==> !T.IsWhite(s[0]))
    ensures T.Lead(a + s) == |a|
  {
    hide T.IsWhite;
    if a == [] {
      assert a + s == s;
    } else {
      LeadOfPadded(a[1..], s);
      assert (a + s)[1..] == a[1..] + s && (a + s)[0] == a[0];
    }
  }

  lemma {:induction false} TrailOfPadded(s: string, b: string)
    requires AllWhite(b) && (s != [] ==> !T.IsWhite(s[|s| - 1]))
    ensures T.Trail(s + b) == |b|
  {
    hide T.IsWhite;
    if b == [] {
      assert s + b == s;
    } else {
      var front := b[..|b| - 1];
      TrailOfPadded(s, front);
      assert (s + b)[..|s + b| - 1] == s + front && (s + b)[|s + b| - 1] == b[|b| - 1];
    }
  }

  /** Trimming takes exactly the padding off. */
  lemma TrimPadded(a: string, s: string, b: string)
    requires AllWhite(a) && AllWhite(b) && T.Trimmed(s)
    ensures T.Trim(a + s + b) == s
  {
    hide T.IsWhite;
    if s == [] {
      assert a + s + b == (a + b) + [];
      LeadOfPadded(a + b, []);
    } else {
      assert a + s + b == a + (s + b);
      LeadOfPadded(a, s + b);
      TrailOfPadded(s, b);
      assert (a + (s + b))[|a|..] == s + b;
      assert (s + b)[..|s|] == s;
    }
  }

  /** The same in literal characters. */
  lemma TrimTakesWhite(a: string, s: string, b: string)
    requires forall k :: 0 <= k < |a| ==> a[k] in WHITE
    requires forall k :: 0 <= k < |b| ==> b[k] in WHITE
    requires s != [] ==> s[0] !in WHITE && s[|s| - 1] !in WHITE
    ensures T.Trim(a + s + b) == s
  {
    forall c: char ensures T.IsWhite(c) <==> c in WHITE {
      WhiteCharacters(c);
    }
    hide T.IsWhite;
    hide T.Trim;
    TrimPadded(a, s, b);
  }

  lemma TrimParts(s: string) returns (a: string, b: string)
    ensures AllWhite(a) && AllWhite(b) && s == a + T.Trim(s) + b
  {
    hide T.IsWhite;
    T.LeadIsWhite(s);
    var rest := T.TrimStart(s);
    T.TrailIsWhite(rest);
    a, b := s[..T.Lead(s)], rest[|rest| - T.Trail(rest)..];
    assert s == a + rest && rest == T.Trim(s) + b;
    hide T.Trim;
    Regroup(a, T.Trim(s), b);
  }
}
