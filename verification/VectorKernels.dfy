/** The SSE2 and NEON `collapse_whitespace` kernels. A vector register is a sequence of 16 bytes and
    a `u16` mask is a natural number; lane arithmetic is written out with its wrap-around. */
module VectorKernels {
  import opened Wrappers
  import opened Utf8
  import opened Whitespace

  // ---------------------------------------------------------------------------------------------
  // Lanes

  /** `_mm_add_epi8` / `vsubq_u8`: addition modulo 256. */
  function WrappingAdd(a: byte, b: byte): byte {
    ((a as int + b as int) % 256) as byte
  }

  /** Exclusive or with 0x80. */
  function FlipSign(a: byte): byte {
    if a < 0x80 then a + 0x80 else a - 0x80
  }

  /** The value a signed compare sees. */
  function Signed(a: byte): int {
    if a < 0x80 then a as int else a as int - 256
  }

  /** The SSE2 whitespace test of one lane: an unsigned range test by a biased signed compare. */
  function Sse2Lane(b: byte): (ws: bool)
    ensures ws <==> IsAsciiWs(b as int)
  {
    var eqSpace := b == 0x20;
    var sub9 := WrappingAdd(b, 0xF7);
    var biased := FlipSign(sub9);
    var gt4 := Signed(biased) > Signed(0x84);
    var inRange := !gt4;
    var eqVt := b == 0x0B;
    !eqVt && (eqSpace || inRange)
  }

  /** The NEON whitespace test of one lane: the unsigned compare is direct. */
  function NeonLane(b: byte): (ws: bool)
    ensures ws <==> IsAsciiWs(b as int)
  {
    var eqSpace := b == 0x20;
    var sub9 := WrappingAdd(b, 0xF7);
    var le4 := sub9 <= 4;
    var eqVt := b == 0x0B;
    (eqSpace || le4) && !eqVt
  }

  function Lanes(chunk: seq<byte>, test: byte -> bool): (lanes: seq<bool>)
    ensures |lanes| == |chunk|
    ensures forall k :: 0 <= k < |chunk| ==> lanes[k] == test(chunk[k])
  {
    seq(|chunk|, k requires 0 <= k < |chunk| => test(chunk[k]))
  }

  /** `_mm_movemask_epi8`: bit `k` is lane `k`. */
  function MoveMask(lanes: seq<bool>): nat {
    if lanes == [] then 0 else (if lanes[0] then 1 else 0) + 2 * MoveMask(lanes[1..])
  }

  // ---------------------------------------------------------------------------------------------
  // Masks

  /** `trailing_zeros` of a word of `width` bits. */
  function TrailingZeros(x: nat, width: nat): (t: nat)
    ensures t <= width
  {
    if width == 0 || x % 2 == 1 then 0 else 1 + TrailingZeros(x / 2, width - 1)
  }

  function ShiftRight(x: nat, k: nat): (r: nat)
    ensures k == 0 ==> r == x
  {
    if k == 0 then x else ShiftRight(x / 2, k - 1)
  }

  /** How `>>` takes an amount of 16 or more on a `u16`. As the kernel is written, that panics where
      overflow is checked (debug) and takes the amount modulo 16 where it is not (release). `Full` is
      the shift the walk intends, which leaves nothing (`checked_shr(k).unwrap_or(0)`). */
  datatype Shift = Checked | Wrapping | Full

  function ShrU16(x: nat, k: nat, shift: Shift): Option<nat> {
    if k < 16 then Some(ShiftRight(x, k))
    else
      match shift
      case Checked => None
      case Wrapping => Some(ShiftRight(x, k % 16))
      case Full => Some(0)
  }

  /** The trailing zeros of a mask count the lanes before the first set one. */
  lemma {:induction false} TrailingZerosOfMask(lanes: seq<bool>, width: nat)
    requires |lanes| <= width
    ensures MoveMask(lanes) == 0 <==> forall k :: 0 <= k < |lanes| ==> !lanes[k]
    ensures MoveMask(lanes) != 0 ==>
      var t := TrailingZeros(MoveMask(lanes), width);
      t < |lanes| && lanes[t] && forall k :: 0 <= k < t ==> !lanes[k]
  {
    if lanes == [] || lanes[0] {
    } else {
      TrailingZerosOfMask(lanes[1..], width - 1);
      forall k | 1 <= k < |lanes| ensures lanes[k] == lanes[1..][k - 1] {}
    }
  }

  lemma {:induction false} ShiftRightOfMask(lanes: seq<bool>, k: nat)
    requires k <= |lanes|
    ensures ShiftRight(MoveMask(lanes), k) == MoveMask(lanes[k..])
  {
    if k > 0 {
      assert MoveMask(lanes) / 2 == MoveMask(lanes[1..]);
      ShiftRightOfMask(lanes[1..], k - 1);
      assert lanes[1..][k - 1..] == lanes[k..];
    } else {
      assert lanes[0..] == lanes;
    }
  }

  /** Only lane 15 is set. */
  ghost predicate OnlyLast(lanes: seq<bool>) {
    |lanes| == 16 && lanes[15] && forall k :: 0 <= k < 15 ==> !lanes[k]
  }

  ghost function ShiftLeft(x: nat, k: nat): nat {
    if k == 0 then x else 2 * ShiftLeft(x, k - 1)
  }

  lemma {:induction false} MaskOfOnlyLast(lanes: seq<bool>, n: nat)
    requires |lanes| == n + 1 && lanes[n] && forall k :: 0 <= k < n ==> !lanes[k]
    ensures MoveMask(lanes) == ShiftLeft(1, n)
  {
    if n > 0 {
      MaskOfOnlyLast(lanes[1..], n - 1);
    } else {
      assert lanes[1..] == [];
    }
  }

  lemma Power15()
    ensures ShiftLeft(1, 15) == 0x8000
  {
    assert ShiftLeft(1, 3) == 8;
    assert ShiftLeft(1, 6) == 64;
    assert ShiftLeft(1, 9) == 512;
    assert ShiftLeft(1, 12) == 4096;
  }

  lemma {:induction false} TrailingZerosOfPower(n: nat, width: nat)
    requires n < width
    ensures TrailingZeros(ShiftLeft(1, n), width) == n
  {
    if n == 0 {
    } else {
      TrailingZerosOfPower(n - 1, width - 1);
      assert ShiftLeft(1, n) / 2 == ShiftLeft(1, n - 1);
    }
  }

  lemma TrailingZerosOf8000()
    ensures TrailingZeros(0x8000, 16) == 15
  {
    Power15();
    TrailingZerosOfPower(15, 16);
  }

  /** The loop shifts by one more than the trailing zeros. That is 16, the one amount `>>` on a
      `u16` does not have, for the mask 0x8000 and no other: a lone whitespace in the last lane. */
  lemma ShiftBySixteen(lanes: seq<bool>)
    requires |lanes| <= 16 && MoveMask(lanes) != 0
    ensures TrailingZeros(MoveMask(lanes), 16) + 1 == 16 <==> MoveMask(lanes) == 0x8000
    ensures MoveMask(lanes) == 0x8000 <==> OnlyLast(lanes)
  {
    TrailingZerosOfMask(lanes, 16);
    if OnlyLast(lanes) {
      MaskOfOnlyLast(lanes, 15);
      Power15();
    }
    if MoveMask(lanes) == 0x8000 { TrailingZerosOf8000(); }
  }

  // ---------------------------------------------------------------------------------------------
  // Runs of plain characters

  ghost predicate PlainRun(bytes: seq<byte>, i: nat, j: nat) {
    i <= j <= |bytes| && forall k :: i <= k < j ==> bytes[k] < 0x80 && !IsAsciiWs(bytes[k] as int)
  }

  /** Copying a run of plain characters in bulk is what the scalar loop does byte by byte. */
  lemma {:induction false} AdvanceRun(bytes: seq<byte>, i: nat, j: nat, rest: seq<char>, out: seq<byte>,
                                      prev: bool, goal: seq<byte>)
    returns (rest': seq<char>)
    requires Owes(bytes, i, rest, out, prev, goal) && PlainRun(bytes, i, j) && i < j
    ensures CanSlice(bytes, i, j)
    ensures Owes(bytes, j, rest', out + bytes[i..j], false, goal)
    decreases j - i
  {
    AtCharacter(bytes, i, rest);
    Advance(bytes, i, rest, out, prev, goal);
    rest' := rest[1..];
    assert bytes[i..i + 1] == [bytes[i]];
    if i + 1 < j {
      rest' := AdvanceRun(bytes, i + 1, j, rest', out + [bytes[i]], false, goal);
      assert out + [bytes[i]] + bytes[i + 1..j] == out + bytes[i..j];
    }
    AtCharacter(bytes, j, rest');
  }

  // ---------------------------------------------------------------------------------------------
  // SSE2

  predicate AllAscii(chunk: seq<byte>) {
    forall k :: 0 <= k < |chunk| ==> chunk[k] < 0x80
  }

  /** A chunk of fifteen plain characters and then a whitespace. */
  predicate Stalling(chunk: seq<byte>) {
    |chunk| == 16 && IsAsciiWs(chunk[15] as int) && forall k :: 0 <= k < 15 ==> !IsAsciiWs(chunk[k] as int)
  }

  /** Some chunk that the 16-byte loop, standing at `i`, will visit is all ASCII and `Stalling`. */
  predicate Stalls(bytes: seq<byte>, i: nat)
    decreases |bytes| - i
  {
    i + 16 <= |bytes| &&
    var chunk := bytes[i..i + 16];
    if !AllAscii(chunk) then Stalls(bytes, ScalarEnd(bytes, i, i + 16))
    else Stalling(chunk) || Stalls(bytes, i + 16)
  }

  lemma StallingMask(chunk: seq<byte>)
    requires |chunk| == 16
    ensures Stalling(chunk) <==> MoveMask(Lanes(chunk, Sse2Lane)) == 0x8000
    ensures MoveMask(Lanes(chunk, Sse2Lane)) == 0 <==> forall k :: 0 <= k < 16 ==> !IsAsciiWs(chunk[k] as int)
  {
    var lanes := Lanes(chunk, Sse2Lane);
    TrailingZerosOfMask(lanes, 16);
    if MoveMask(lanes) != 0 { ShiftBySixteen(lanes); }
    forall k | 0 <= k < 16 ensures lanes[k] <==> IsAsciiWs(chunk[k] as int) {}
  }

  ghost function ChunkLanes(bytes: seq<byte>, runStart: nat): (lanes: seq<bool>)
    requires runStart + 16 <= |bytes|
    ensures |lanes| == 16
  {
    Lanes(bytes[runStart..runStart + 16], Sse2Lane)
  }

  lemma LaneIsByte(bytes: seq<byte>, runStart: nat, n: nat, k: nat)
    requires runStart + 16 <= |bytes| && runStart + n <= k < runStart + 16
    ensures ChunkLanes(bytes, runStart)[n..][k - runStart - n] <==> IsAsciiWs(bytes[k] as int)
    ensures AllAscii(bytes[runStart..runStart + 16]) ==> bytes[k] < 0x80
  {
    assert bytes[k] == bytes[runStart..runStart + 16][k - runStart];
  }

  /** Lanes that are all clear up to byte `j` are plain bytes up to there. */
  lemma ClearLanesArePlain(bytes: seq<byte>, runStart: nat, i: nat, j: nat, window: seq<bool>)
    requires runStart <= i <= j <= runStart + 16 <= |bytes| && AllAscii(bytes[runStart..runStart + 16])
    requires window == ChunkLanes(bytes, runStart)[i - runStart..]
    requires forall k :: 0 <= k < j - i ==> !window[k]
    ensures PlainRun(bytes, i, j)
  {
    forall k | i <= k < j ensures bytes[k] < 0x80 && !IsAsciiWs(bytes[k] as int) {
      LaneIsByte(bytes, runStart, i - runStart, k);
      assert !window[k - i];
    }
  }

  /** The mask side of one turn of the walk, standing at byte `i` with the lanes from there on in
      `bits`: the next whitespace is `t` bytes ahead, and the shift drops it and all before it. */
  lemma {:induction false} MaskTurn(bytes: seq<byte>, runStart: nat, i: nat)
    returns (t: nat)
    requires runStart <= i < runStart + 16 <= |bytes| && AllAscii(bytes[runStart..runStart + 16])
    requires MoveMask(ChunkLanes(bytes, runStart)[i - runStart..]) != 0
    ensures t == TrailingZeros(MoveMask(ChunkLanes(bytes, runStart)[i - runStart..]), 16)
    ensures i + t < runStart + 16
    ensures PlainRun(bytes, i, i + t) && IsAsciiWs(bytes[i + t] as int)
    ensures ShiftRight(MoveMask(ChunkLanes(bytes, runStart)[i - runStart..]), t + 1)
         == MoveMask(ChunkLanes(bytes, runStart)[i + t + 1 - runStart..])
    ensures t + 1 == 16 <==> MoveMask(ChunkLanes(bytes, runStart)[i - runStart..]) == 0x8000
    ensures i + t + 1 == runStart + 16 ==> MoveMask(ChunkLanes(bytes, runStart)[i + t + 1 - runStart..]) == 0
  {
    hide MoveMask;
    hide TrailingZeros;
    hide ShiftRight;
    hide ChunkLanes;
    hide AllAscii;
    var n := i - runStart;
    var window := ChunkLanes(bytes, runStart)[n..];
    TrailingZerosOfMask(window, 16);
    ShiftBySixteen(window);
    t := TrailingZeros(MoveMask(window), 16);
    ShiftRightOfMask(window, t + 1);
    assert window[t + 1..] == ChunkLanes(bytes, runStart)[n + t + 1..];
    ClearLanesArePlain(bytes, runStart, i, i + t, window);
    LaneIsByte(bytes, runStart, n, i + t);
    if n + t + 1 == 16 { TrailingZerosOfMask(window[t + 1..], 16); }
  }

  /** The text side of the same turn: copy `t` plain bytes, then owe one space less. */
  lemma {:induction false} TextTurn(bytes: seq<byte>, i: nat, t: nat, rest: seq<char>, out: seq<byte>,
                                    prev: bool, goal: seq<byte>)
    returns (rest': seq<char>)
    requires Owes(bytes, i, rest, out, prev, goal)
    requires PlainRun(bytes, i, i + t) && i + t < |bytes| && IsAsciiWs(bytes[i + t] as int)
    ensures CanSlice(bytes, i, i + t)
    ensures
      var copied := if t > 0 then out + bytes[i..i + t] else out;
      Owes(bytes, i + t + 1, rest', if t == 0 && prev then copied else copied + [0x20], true, goal)
  {
    AtCharacter(bytes, i, rest);
    rest' := rest;
    if t > 0 {
      rest' := AdvanceRun(bytes, i, i + t, rest, out, prev, goal);
      Advance(bytes, i + t, rest', out + bytes[i..i + t], false, goal);
    } else {
      Advance(bytes, i, rest, out, prev, goal);
    }
    rest' := rest'[1..];
  }

  /** The body of the walk: copy up to the next whitespace, write one space for the run, shift. */
  method WalkBody(bytes: seq<byte>, bits: nat, shift: Shift, i0: nat, out0: seq<byte>, prev0: bool)
    returns (panicked: bool, i: nat, out: seq<byte>, bits': nat)
    ensures
      var t := TrailingZeros(bits, 16);
      panicked <==> (t > 0 && !CanSlice(bytes, i0, i0 + t)) || ShrU16(bits, t + 1, shift).None?
    ensures !panicked ==>
      var t := TrailingZeros(bits, 16);
      var copied := if t > 0 then out0 + bytes[i0..i0 + t] else out0;
      && i == i0 + t + 1
      && out == (if t == 0 && prev0 then copied else copied + [0x20])
      && Some(bits') == ShrU16(bits, t + 1, shift)
  {
    i, out, bits' := i0, out0, bits;
    var prevWasSpace := prev0;
    var trailingWs := TrailingZeros(bits, 16);
    if trailingWs > 0 {
      var copyEnd := i + trailingWs;
      if !CanSlice(bytes, i, copyEnd) {
        return true, i, out, bits';
      }
      out := out + Slice(bytes, i, copyEnd);
      i := copyEnd;
      prevWasSpace := false;
    }
    if !prevWasSpace {
      out := out + [0x20];
      prevWasSpace := true;
    }
    i := i + 1;
    var shifted := ShrU16(bits, trailingWs + 1, shift);
    if shifted.None? {
      return true, i, out, bits';
    }
    panicked, bits' := false, shifted.value;
  }

  /** The bit-mask walk over one all-ASCII chunk. Unless the mask is 0x8000 it leaves the kernel
      before the plain tail of the chunk; on 0x8000 it panics: when checked at the shift itself,
      when wrapping because the unshifted mask drives the slices past the end of the string. */
  method WalkMask(bytes: seq<byte>, runStart: nat, wsMask: nat, shift: Shift, out0: seq<byte>, prev0: bool,
                  ghost rest0: seq<char>, ghost goal: seq<byte>)
    returns (panicked: bool, i: nat, out: seq<byte>, ghost rest: seq<char>)
    requires runStart + 16 <= |bytes| && AllAscii(bytes[runStart..runStart + 16])
    requires wsMask == MoveMask(ChunkLanes(bytes, runStart)) && wsMask != 0
    requires Owes(bytes, runStart, rest0, out0, prev0, goal)
    ensures panicked <==> wsMask == 0x8000 && !shift.Full?
    ensures !panicked ==> runStart < i <= runStart + 16 && PlainRun(bytes, i, runStart + 16)
    ensures !panicked ==> Owes(bytes, i, rest, out, true, goal)
  {
    i, out, rest := runStart, out0, rest0;
    hide Owes;
    hide MoveMask;
    hide TrailingZeros;
    hide ShiftRight;
    hide ChunkLanes;
    hide AllAscii;
    hide PlainRun;
    hide IsCharBoundary;
    hide IsAsciiWs;
    ghost var lanes := ChunkLanes(bytes, runStart);
    var bits, prevWasSpace := wsMask, prev0;
    assert lanes[0..] == lanes;
    ghost var stuck := false;
    TrailingZerosOf8000();
    while true
      invariant stuck ==> wsMask == 0x8000 && bits == 0x8000 && !shift.Full?
      invariant !stuck ==> runStart <= i < runStart + 16 && (wsMask == 0x8000 ==> i == runStart)
      invariant !stuck ==> bits != 0 && bits == MoveMask(lanes[i - runStart..])
      invariant !stuck ==> Owes(bytes, i, rest, out, prevWasSpace, goal)
      decreases |bytes| + 2 - i
    {
      if !stuck {
        ghost var t := MaskTurn(bytes, runStart, i);
        rest := TextTurn(bytes, i, t, rest, out, prevWasSpace, goal);
        stuck := t + 1 == 16 && !shift.Full?;
      }
      panicked, i, out, bits := WalkBody(bytes, bits, shift, i, out, prevWasSpace);
      if panicked {
        return;
      }
      prevWasSpace := true;
      if bits == 0 {
        break;
      }
    }
    TrailingZerosOfMask(lanes[i - runStart..], 16);
    ClearLanesArePlain(bytes, runStart, i, runStart + 16, lanes[i - runStart..]);
  }

  lemma SignMask(chunk: seq<byte>)
    requires |chunk| <= 16
    ensures MoveMask(Lanes(chunk, b => b >= 0x80)) == 0 <==> AllAscii(chunk)
  {
    var lanes := Lanes(chunk, b => b >= 0x80);
    TrailingZerosOfMask(lanes, 16);
    forall k | 0 <= k < |chunk| ensures lanes[k] <==> chunk[k] >= 0x80 {}
  }

  /** A chunk of plain characters may be copied whole. */
  lemma CopyRun(bytes: seq<byte>, i: nat, j: nat, rest: seq<char>, out: seq<byte>, prev: bool, goal: seq<byte>)
    returns (rest': seq<char>)
    requires Owes(bytes, i, rest, out, prev, goal) && i < j <= |bytes| && AllAscii(bytes[i..j])
    requires forall k :: 0 <= k < j - i ==> !IsAsciiWs(bytes[i..j][k] as int)
    ensures CanSlice(bytes, i, j) && Owes(bytes, j, rest', out + bytes[i..j], false, goal)
  {
    forall k | i <= k < j ensures bytes[k] < 0x80 && !IsAsciiWs(bytes[k] as int) {
      assert bytes[k] == bytes[i..j][k - i];
    }
    rest' := AdvanceRun(bytes, i, j, rest, out, prev, goal);
  }

  /** The x86_64 kernel. With the intended shift it returns the reference on every string. As it is
      written, checked or wrapping, it does so unless a chunk it visits is `Stalling`; on such a chunk
      it panics. */
  method CollapseSse2(s: seq<char>, shift: Shift) returns (r: Outcome<seq<byte>>)
    ensures r == if Stalls(Encode(s), 0) && !shift.Full? then Panicked else Returned(Encode(Collapse(s, false)))
  {
    var bytes := Encode(s);
    var len := |bytes|;
    ghost var goal, rest := OwesAll(s);
    hide Owes;
    hide Encode;
    hide Collapse;
    hide MoveMask;
    hide ScalarEnd;
    hide AllAscii;
    var out: seq<byte>, prevWasSpace, i := [], false, 0;
    if len < 16 {
      i, out, prevWasSpace, rest := ScalarWs(bytes, 0, len, out, prevWasSpace, rest, goal);
      Settled(bytes, rest, out, prevWasSpace, goal);
      return Returned(out);
    }
    while i + 16 <= len
      invariant i <= len && Owes(bytes, i, rest, out, prevWasSpace, goal)
      invariant shift.Full? || Stalls(bytes, i) == Stalls(bytes, 0)
      decreases len - i
    {
      var chunk := bytes[i..i + 16];
      var nonAscii := MoveMask(Lanes(chunk, b => b >= 0x80));
      SignMask(chunk);
      if nonAscii != 0 {
        i, out, prevWasSpace, rest := ScalarWs(bytes, i, i + 16, out, prevWasSpace, rest, goal);
        continue;
      }
      var wsMask := MoveMask(Lanes(chunk, Sse2Lane));
      StallingMask(chunk);
      if wsMask == 0 {
        rest := CopyRun(bytes, i, i + 16, rest, out, prevWasSpace, goal);
        out := out + Slice(bytes, i, i + 16);
        prevWasSpace := false;
        i := i + 16;
        continue;
      }
      var runStart := i;
      var panicked;
      panicked, i, out, rest := WalkMask(bytes, runStart, wsMask, shift, out, prevWasSpace, rest, goal);
      if panicked {
        return Panicked;
      }
      prevWasSpace := true;
      var remaining := runStart + 16 - i;
      if remaining > 0 {
        rest := AdvanceRun(bytes, i, runStart + 16, rest, out, prevWasSpace, goal);
        out := out + Slice(bytes, i, runStart + 16);
        prevWasSpace := false;
        i := runStart + 16;
      }
    }
    i, out, prevWasSpace, rest := ScalarWs(bytes, i, len, out, prevWasSpace, rest, goal);
    Settled(bytes, rest, out, prevWasSpace, goal);
    r := Returned(out);
  }

  /** The aarch64 kernel: whole chunks without whitespace are copied, all else goes through the
      scalar loop, and it never shifts a mask. It always returns the reference. */
  method CollapseNeon(s: seq<char>) returns (out: seq<byte>)
    ensures out == Encode(Collapse(s, false))
  {
    var bytes := Encode(s);
    var len := |bytes|;
    ghost var goal, rest := OwesAll(s);
    hide Owes;
    hide Encode;
    hide Collapse;
    out := [];
    var prevWasSpace, i := false, 0;
    if len < 16 {
      i, out, prevWasSpace, rest := ScalarWs(bytes, 0, len, out, prevWasSpace, rest, goal);
      Settled(bytes, rest, out, prevWasSpace, goal);
      return;
    }
    while i + 16 <= len
      invariant i <= len && Owes(bytes, i, rest, out, prevWasSpace, goal)
      decreases len - i
    {
      var chunk := bytes[i..i + 16];
      if exists k :: 0 <= k < 16 && chunk[k] >= 0x80 {
        i, out, prevWasSpace, rest := ScalarWs(bytes, i, i + 16, out, prevWasSpace, rest, goal);
        continue;
      }
      var lanes := Lanes(chunk, NeonLane);
      if forall k :: 0 <= k < 16 ==> !lanes[k] {
        rest := CopyRun(bytes, i, i + 16, rest, out, prevWasSpace, goal);
        out := out + Slice(bytes, i, i + 16);
        prevWasSpace := false;
        i := i + 16;
        continue;
      }
      i, out, prevWasSpace, rest := ScalarWs(bytes, i, i + 16, out, prevWasSpace, rest, goal);
    }
    i, out, prevWasSpace, rest := ScalarWs(bytes, i, len, out, prevWasSpace, rest, goal);
    Settled(bytes, rest, out, prevWasSpace, goal);
  }

  // ---------------------------------------------------------------------------------------------
  // When the SSE2 kernel stalls

  predicate StallAt(bytes: seq<byte>, p: nat) {
    p + 16 <= |bytes| && Stalling(bytes[p..p + 16])
  }

  /** On ASCII text the loop visits the aligned blocks, so a caller can tell from the text alone:
      the kernel panics exactly when some aligned 16-character block is fifteen characters without
      whitespace and then a whitespace. */
  lemma {:induction false} AsciiStalls(bytes: seq<byte>, i: nat)
    requires AllAscii(bytes) && i % 16 == 0
    ensures Stalls(bytes, i) <==> exists p: nat :: i <= p && p % 16 == 0 && StallAt(bytes, p)
    decreases |bytes| - i
  {
    if i + 16 > |bytes| {
    } else {
      hide Stalling;
      AsciiStalls(bytes, i + 16);
      assert AllAscii(bytes[i..i + 16]);
      assert Stalls(bytes, i) <==> StallAt(bytes, i) || Stalls(bytes, i + 16);
      if p: nat :| i <= p && p % 16 == 0 && StallAt(bytes, p) {
        assert p == i || i + 16 <= p;
      }
    }
  }

  /** ASCII characters are their own bytes. */
  lemma {:induction false} AsciiBytes(s: seq<char>) returns (bytes: seq<byte>)
    requires forall k :: 0 <= k < |s| ==> (s[k] as int) < 0x80
    ensures bytes == Encode(s) && |bytes| == |s|
    ensures forall k :: 0 <= k < |s| ==> bytes[k] as int == s[k] as int
  {
    bytes := [];
    if s == [] {
    } else {
      var tail := AsciiBytes(s[1..]);
      bytes := [s[0] as int as byte] + tail;
      forall k | 0 <= k < |s| ensures bytes[k] as int == s[k] as int {
        if k > 0 { assert bytes[k] == tail[k - 1]; }
      }
    }
  }

  /** Whatever follows, a text that begins with fifteen ASCII characters without whitespace and then
      a whitespace stalls the kernel in its first chunk. */
  lemma LongWordStalls(word: seq<char>, ws: char, rest: seq<char>)
    requires |word| == 15 && IsAsciiWs(ws as int)
    requires forall k :: 0 <= k < 15 ==> (word[k] as int) < 0x80 && !IsAsciiWs(word[k] as int)
    ensures Stalls(Encode(word + [ws] + rest), 0)
  {
    var start := AsciiBytes(word + [ws]);
    EncodeConcat(word + [ws], rest);
    var bytes := Encode(word + [ws] + rest);
    assert bytes[0..16] == start;
  }

  /** A string that the reference returns unchanged and on which the x86_64 kernel panics. */
  lemma StallingExample()
    ensures Stalls(Encode("internationally "), 0)
    ensures Collapse("internationally ", false) == "internationally "
  {
    hide Stalls;
    hide Encode;
    hide Collapse;
    var word := "internationally";
    assert word + [' '] + [] == "internationally ";
    assert forall k :: 0 <= k < 15 ==> 'a' <= word[k] <= 'z';
    LongWordStalls(word, ' ', []);
    CollapseIdempotent("internationally ");
  }

  // ---------------------------------------------------------------------------------------------
  // The kernel of the target

  /** `collapse_whitespace` is compiled from one of three definitions. */
  datatype Kernel = X86(shift: Shift) | Arm | Portable

  /** The texts on which the kernel of the target panics. */
  predicate Stuck(kernel: Kernel, t: string) {
    kernel.X86? && !kernel.shift.Full? && Stalls(Encode(t), 0)
  }

  /** `collapse_whitespace`, on strings. */
  method CollapseWhitespace(kernel: Kernel, t: string) returns (r: Outcome<string>)
    ensures r == if Stuck(kernel, t) then Panicked else Returned(Collapse(t, false))
  {
    hide Collapse;
    hide Stalls;
    hide Encode;
    hide Decode;
    DecodeEncode(Collapse(t, false));
    var bytes;
    match kernel {
      case X86(shift) =>
        var collapsed := CollapseSse2(t, shift);
        if collapsed.Panicked? {
          return Panicked;
        }
        bytes := collapsed.value;
      case Arm => bytes := CollapseNeon(t);
      case Portable => bytes := CollapseGeneric(t);
    }
    r := Returned(Decode(bytes).value);
  }
}
