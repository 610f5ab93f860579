/** The portable `collapse_whitespace` kernel of src/actions/scrape.rs, the scalar loop that the vector
    kernels fall back to, and `Collapse`, the reference for all three: it looks at one character at a
    time, where the kernels walk the UTF-8 bytes of a string. */
module Whitespace {
  import opened Utf8
  import opened Sequences

  /** Rust's `is_ascii_whitespace`: vertical tab (0x0B) is not in it. */
  predicate IsAsciiWs(n: int) {
    n == 0x09 || n == 0x0A || n == 0x0C || n == 0x0D || n == 0x20
  }

  /** The reference: every run of ASCII whitespace becomes one space; `prev` says that the
      character before `cs` was whitespace. */
  function Collapse(cs: seq<char>, prev: bool): seq<char> {
    if cs == [] then []
    else if IsAsciiWs(cs[0] as int) then (if prev then [] else [' ']) + Collapse(cs[1..], true)
    else [cs[0]] + Collapse(cs[1..], false)
  }

  // ---------------------------------------------------------------------------------------------
  // What the reference means.

  ghost predicate NoAdjacentWs(cs: seq<char>) {
    forall k :: 0 <= k < |cs| - 1 && IsAsciiWs(cs[k] as int) ==> !IsAsciiWs(cs[k + 1] as int)
  }

  ghost predicate OnlySpaces(cs: seq<char>) {
    forall k :: 0 <= k < |cs| && IsAsciiWs(cs[k] as int) ==> cs[k] == ' '
  }

  /** `cs` is already collapsed, given what stands before it. */
  ghost predicate Collapsed(cs: seq<char>, prev: bool) {
    && NoAdjacentWs(cs)
    && OnlySpaces(cs)
    && (prev && cs != [] ==> !IsAsciiWs(cs[0] as int))
  }

  lemma {:induction false} CollapseIsCollapsed(cs: seq<char>, prev: bool)
    ensures Collapsed(Collapse(cs, prev), prev)
  {
    if cs == [] {
    } else {
      var ws := IsAsciiWs(cs[0] as int);
      CollapseIsCollapsed(cs[1..], ws);
      var tail := Collapse(cs[1..], ws);
      if !(ws && prev) {
        var head := if ws then ' ' else cs[0];
        assert Collapse(cs, prev) == [head] + tail;
      }
    }
  }

  lemma {:induction false} CollapsedIsFixed(cs: seq<char>, prev: bool)
    requires Collapsed(cs, prev)
    ensures Collapse(cs, prev) == cs
  {
    if cs == [] {
    } else {
      var ws := IsAsciiWs(cs[0] as int);
      if |cs| > 1 && ws { assert !IsAsciiWs(cs[1] as int); }
      assert NoAdjacentWs(cs[1..]) by {
        forall k | 0 <= k < |cs[1..]| - 1 && IsAsciiWs(cs[1..][k] as int)
          ensures !IsAsciiWs(cs[1..][k + 1] as int)
        {
          assert IsAsciiWs(cs[k + 1] as int);
        }
      }
      CollapsedIsFixed(cs[1..], ws);
      assert cs == [cs[0]] + cs[1..];
    }
  }

  /** Collapsing twice is collapsing once, and the strings it leaves alone are exactly those
      without adjacent whitespace whose only whitespace is the space. */
  lemma CollapseIdempotent(cs: seq<char>)
    ensures Collapse(Collapse(cs, false), false) == Collapse(cs, false)
    ensures Collapse(cs, false) == cs <==> NoAdjacentWs(cs) && OnlySpaces(cs)
  {
    CollapseIsCollapsed(cs, false);
    CollapsedIsFixed(Collapse(cs, false), false);
    if NoAdjacentWs(cs) && OnlySpaces(cs) { CollapsedIsFixed(cs, false); }
  }

  // ---------------------------------------------------------------------------------------------
  // The scalar loop, also the fallback of both vector kernels.

  /** Where `scalar_ws` stops when started at `i`: it may overshoot `end`. */
  function ScalarEnd(bytes: seq<byte>, i: nat, end: nat): (j: nat)
    requires end <= |bytes|
    ensures i <= j && (i < end ==> end <= j <= |bytes|) && (end <= i ==> j == i)
    decreases |bytes| - i
  {
    if i >= end then i else ScalarEnd(bytes, Min(i + SeqLen(bytes[i]), |bytes|), end)
  }

  /** A kernel stands at byte `i` with the characters `rest` to come, has written `out`, and what
      it still owes completes `goal`. */
  ghost predicate Owes(bytes: seq<byte>, i: nat, rest: seq<char>, out: seq<byte>, prev: bool, goal: seq<byte>) {
    && i <= |bytes|
    && bytes[i..] == Encode(rest)
    && out + Encode(Collapse(rest, prev)) == goal
  }

  /** What the reference writes for its next character, in bytes. */
  function Written(c: char, prev: bool): seq<byte> {
    if !IsAsciiWs(c as int) then EncodeChar(c) else if prev then [] else [0x20]
  }

  lemma {:induction false} CollapseStep(rest: seq<char>, prev: bool)
    requires rest != []
    ensures Encode(Collapse(rest, prev))
         == Written(rest[0], prev) + Encode(Collapse(rest[1..], IsAsciiWs(rest[0] as int)))
  {
    var c, ws := rest[0], IsAsciiWs(rest[0] as int);
    var head := if !ws then [c] else if prev then [] else [' '];
    EncodeConcat(head, Collapse(rest[1..], ws));
    EncodeSingle(c);
    EncodeSingle(' ');
    assert Encode([]) == [];
  }

  /** One turn of the scalar loop, branch by branch: the slice it takes stands on character
      boundaries, and nothing is owed more or less than before. */
  lemma {:induction false} Advance(bytes: seq<byte>, i: nat, rest: seq<char>, out: seq<byte>, prev: bool,
                                   goal: seq<byte>)
    requires Owes(bytes, i, rest, out, prev, goal) && i < |bytes|
    ensures rest != []
    ensures
      var b, e := bytes[i], Min(i + SeqLen(bytes[i]), |bytes|);
      if IsAsciiWs(b as int) then Owes(bytes, i + 1, rest[1..], if prev then out else out + [0x20], true, goal)
      else if b < 0x80 then Owes(bytes, i + 1, rest[1..], out + [b], false, goal)
      else CanSlice(bytes, i, e) && Owes(bytes, e, rest[1..], out + bytes[i..e], false, goal)
  {
    hide Encode;
    hide Collapse;
    AtCharacter(bytes, i, rest);
    var n, ws := SeqLen(bytes[i]), IsAsciiWs(rest[0] as int);
    AtCharacter(bytes, i + n, rest[1..]);
    CollapseStep(rest, prev);
    var w := Written(rest[0], prev);
    Regroup(out, w, Encode(Collapse(rest[1..], ws)));
    assert Owes(bytes, i + n, rest[1..], out + w, ws, goal);
    if ws {
      assert out + [] == out;
    } else if bytes[i] < 0x80 {
      assert bytes[i..i + 1] == [bytes[i]];
    }
  }

  /** At the start of a string everything is owed. */
  lemma OwesAll(s: seq<char>) returns (goal: seq<byte>, rest: seq<char>)
    ensures goal == Encode(Collapse(s, false)) && Owes(Encode(s), 0, rest, [], false, goal)
  {
    goal, rest := Encode(Collapse(s, false)), s;
    assert Encode(s)[0..] == Encode(s) && [] + goal == goal;
  }

  lemma {:induction false} Settled(bytes: seq<byte>, rest: seq<char>, out: seq<byte>, prev: bool, goal: seq<byte>)
    requires Owes(bytes, |bytes|, rest, out, prev, goal)
    ensures out == goal
  {
    assert rest == [];
    assert out + [] == out;
  }

  /** `scalar_ws`: `out` and `prev_was_space` are its `&mut` parameters. `rest` names the characters
      still to come; every `Slice` carries the proof that `&s[i..j]` stands on boundaries. */
  method ScalarWs(bytes: seq<byte>, start: nat, end: nat, out0: seq<byte>, prev0: bool,
                  ghost rest0: seq<char>, ghost goal: seq<byte>)
    returns (i: nat, out: seq<byte>, prevWasSpace: bool, ghost rest: seq<char>)
    requires start <= |bytes| && end <= |bytes|
    requires Owes(bytes, start, rest0, out0, prev0, goal)
    ensures i == ScalarEnd(bytes, start, end)
    ensures i <= |bytes| && Owes(bytes, i, rest, out, prevWasSpace, goal)
  {
    i, out, prevWasSpace, rest := start, out0, prev0, rest0;
    hide Owes;
    ghost var stop := ScalarEnd(bytes, start, end);
    while i < end
      invariant stop == ScalarEnd(bytes, i, end)
      invariant i <= |bytes| && Owes(bytes, i, rest, out, prevWasSpace, goal)
      decreases |bytes| - i
    {
      ghost var next := Min(i + SeqLen(bytes[i]), |bytes|);
      assert stop == ScalarEnd(bytes, next, end);
      Advance(bytes, i, rest, out, prevWasSpace, goal);
      var b := bytes[i];
      if IsAsciiWs(b as int) {
        if !prevWasSpace {
          out := out + [0x20];
          prevWasSpace := true;
        }
        i := i + 1;
      } else if b < 0x80 {
        out := out + [b];
        prevWasSpace := false;
        i := i + 1;
      } else {
        var seqEnd := Min(i + SeqLen(b), |bytes|);
        out := out + Slice(bytes, i, seqEnd);
        prevWasSpace := false;
        i := seqEnd;
      }
      assert i == next;
      rest := rest[1..];
    }
  }

  /** The portable kernel: one scalar pass over the whole string. */
  method CollapseGeneric(s: seq<char>) returns (out: seq<byte>)
    ensures out == Encode(Collapse(s, false))
  {
    var bytes := Encode(s);
    ghost var goal, rest := OwesAll(s);
    hide Owes;
    hide Encode;
    hide Collapse;
    out := [];
    var prevWasSpace := false;
    var i := 0;
    while i < |bytes|
      invariant i <= |bytes| && Owes(bytes, i, rest, out, prevWasSpace, goal)
    {
      Advance(bytes, i, rest, out, prevWasSpace, goal);
      var b := bytes[i];
      if IsAsciiWs(b as int) {
        if !prevWasSpace {
          out := out + [0x20];
          prevWasSpace := true;
        }
        i := i + 1;
      } else if b < 0x80 {
        out := out + [b];
        prevWasSpace := false;
        i := i + 1;
      } else {
        var end := Min(i + SeqLen(b), |bytes|);
        out := out + Slice(bytes, i, end);
        prevWasSpace := false;
        i := end;
      }
      rest := rest[1..];
    }
    Settled(bytes, rest, out, prevWasSpace, goal);
  }
}
