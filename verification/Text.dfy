/** Unicode whitespace and `str::trim`, and the characters that whitespace rewriting leaves alone. */
module Text {
  import opened Whitespace
  import opened Sequences

  /** `char::is_whitespace`: the Unicode property White_Space. */
  predicate IsWhite(c: char) {
    var n := c as int;
    || 0x09 <= n <= 0x0D || n == 0x20 || n == 0x85 || n == 0xA0 || n == 0x1680
    || 0x2000 <= n <= 0x200A || n == 0x2028 || n == 0x2029 || n == 0x202F || n == 0x205F || n == 0x3000
  }

  /** How many whitespace characters lead. */
  function Lead(cs: seq<char>): (n: nat)
    ensures n <= |cs| && (n < |cs| ==> !IsWhite(cs[n]))
  {
    if cs != [] && IsWhite(cs[0]) then 1 + Lead(cs[1..]) else 0
  }

  /** How many whitespace characters trail. */
  function Trail(cs: seq<char>): (n: nat)
    ensures n <= |cs| && (n < |cs| ==> !IsWhite(cs[|cs| - 1 - n]))
  {
    if cs != [] && IsWhite(cs[|cs| - 1]) then 1 + Trail(cs[..|cs| - 1]) else 0
  }

  function TrimStart(cs: seq<char>): seq<char> {
    cs[Lead(cs)..]
  }

  function TrimEnd(cs: seq<char>): seq<char> {
    cs[..|cs| - Trail(cs)]
  }

  function Trim(cs: seq<char>): seq<char> {
    TrimEnd(TrimStart(cs))
  }

  ghost predicate Trimmed(cs: seq<char>) {
    cs != [] ==> !IsWhite(cs[0]) && !IsWhite(cs[|cs| - 1])
  }

  lemma TrimIsTrimmed(cs: seq<char>)
    ensures Trimmed(Trim(cs))
  {
  }

  lemma TrimmedIsFixed(cs: seq<char>)
    requires Trimmed(cs)
    ensures TrimStart(cs) == cs && TrimEnd(cs) == cs && Trim(cs) == cs
  {
  }

  /** The non-whitespace characters, in order. */
  function NonWhite(cs: seq<char>): seq<char> {
    if cs == [] then [] else (if IsWhite(cs[0]) then [] else [cs[0]]) + NonWhite(cs[1..])
  }

  lemma {:induction false} NonWhiteConcat(a: seq<char>, b: seq<char>)
    ensures NonWhite(a + b) == NonWhite(a) + NonWhite(b)
  {
    hide IsWhite;
    if a == [] {
      assert a + b == b;
    } else {
      NonWhiteConcat(a[1..], b);
      assert (a + b)[1..] == a[1..] + b;
      Regroup(if IsWhite(a[0]) then [] else [a[0]], NonWhite(a[1..]), NonWhite(b));
    }
  }

  lemma {:induction false} NonWhiteOfWhite(cs: seq<char>)
    requires forall k :: 0 <= k < |cs| ==> IsWhite(cs[k])
    ensures NonWhite(cs) == []
  {
    if cs == [] {
    } else {
      NonWhiteOfWhite(cs[1..]);
    }
  }

  lemma {:induction false} LeadIsWhite(cs: seq<char>)
    ensures forall k :: 0 <= k < Lead(cs) ==> IsWhite(cs[k])
  {
    if cs == [] || !IsWhite(cs[0]) {
    } else {
      LeadIsWhite(cs[1..]);
      forall k | 1 <= k < Lead(cs) ensures IsWhite(cs[k]) { assert cs[k] == cs[1..][k - 1]; }
    }
  }

  lemma {:induction false} TrailIsWhite(cs: seq<char>)
    ensures forall k :: |cs| - Trail(cs) <= k < |cs| ==> IsWhite(cs[k])
  {
    if cs == [] || !IsWhite(cs[|cs| - 1]) {
    } else {
      TrailIsWhite(cs[..|cs| - 1]);
    }
  }

  /** Trimming and collapsing lose whitespace only. */
  lemma TrimKeepsNonWhite(cs: seq<char>)
    ensures NonWhite(Trim(cs)) == NonWhite(cs)
  {
    hide IsWhite;
    hide NonWhite;
    hide Lead;
    hide Trail;
    var n, rest := Lead(cs), TrimStart(cs);
    var m := |rest| - Trail(rest);
    LeadIsWhite(cs);
    TrailIsWhite(rest);
    NonWhiteOfWhite(cs[..n]);
    NonWhiteOfWhite(rest[m..]);
    NonWhiteConcat(cs[..n], rest);
    NonWhiteConcat(rest[..m], rest[m..]);
    assert cs == cs[..n] + rest;
    assert rest == rest[..m] + rest[m..];
  }

  lemma {:induction false} CollapseKeepsNonWhite(cs: seq<char>, prev: bool)
    ensures NonWhite(Collapse(cs, prev)) == NonWhite(cs)
  {
    if cs == [] {
    } else {
      var ws := IsAsciiWs(cs[0] as int);
      var head := if !ws then [cs[0]] else if prev then [] else [' '];
      CollapseKeepsNonWhite(cs[1..], ws);
      NonWhiteConcat(head, Collapse(cs[1..], ws));
      assert NonWhite([]) == [];
      assert head != [] ==> NonWhite(head) == (if IsWhite(head[0]) then [] else [head[0]]);
    }
  }

  /** Collapsing keeps a trimmed string trimmed, and does not empty a string that is not all space. */
  lemma {:induction false} CollapseKeepsTrimmed(cs: seq<char>, prev: bool)
    requires cs != [] && !IsWhite(cs[|cs| - 1])
    ensures Collapse(cs, prev) != [] && Collapse(cs, prev)[|Collapse(cs, prev)| - 1] == cs[|cs| - 1]
    ensures !IsWhite(cs[0]) ==> Collapse(cs, prev)[0] == cs[0]
  {
    var ws := IsAsciiWs(cs[0] as int);
    if |cs| == 1 {
      assert Collapse(cs[1..], ws) == [];
    } else {
      CollapseKeepsTrimmed(cs[1..], ws);
    }
  }
}
