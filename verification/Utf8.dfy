/** UTF-8 (RFC 3629, sections 3 and 4) as Rust strings use it: a string is a sequence of Unicode
    scalar values, its bytes are `Encode` of that sequence, and a slice must start and end on a
    character boundary. */
module Utf8 {
  import opened Wrappers
  import opened Sequences

  newtype byte = b: int | 0 <= b < 256

  function Payload(b: byte): int {
    b as int % 64
  }

  predicate IsContinuation(b: byte) {
    0x80 <= b < 0xC0
  }

  /** A continuation byte: six payload bits below the marker 10xxxxxx. */
  function Tail(n: nat): (b: byte)
    ensures IsContinuation(b) && Payload(b) == n % 64
  {
    (0x80 + n % 64) as byte
  }

  function EncodeChar(c: char): (bs: seq<byte>)
    ensures 1 <= |bs| <= 4
  {
    var n := c as int;
    if n < 0x80 then [n as byte]
    else if n < 0x800 then [(0xC0 + n / 64) as byte, Tail(n)]
    else if n < 0x10000 then [(0xE0 + n / 4096) as byte, Tail(n / 64), Tail(n)]
    else [(0xF0 + n / 262144) as byte, Tail(n / 4096), Tail(n / 64), Tail(n)]
  }

  function Encode(cs: seq<char>): seq<byte> {
    if cs == [] then [] else EncodeChar(cs[0]) + Encode(cs[1..])
  }

  /** `utf8_seq_len`: the length a leading byte announces. */
  function SeqLen(b: byte): (n: nat) {
    if b < 0x80 then 1
    else if 0xC0 <= b < 0xE0 then 2
    else if 0xE0 <= b < 0xF0 then 3
    else if 0xF0 <= b < 0xF8 then 4
    else 1
  }

  /** Rust's `str::is_char_boundary`. */
  predicate IsCharBoundary(bytes: seq<byte>, i: nat) {
    i == 0 || i == |bytes| || (i < |bytes| && !IsContinuation(bytes[i]))
  }

  /** When `&s[i..j]` does not panic. */
  predicate CanSlice(bytes: seq<byte>, i: nat, j: nat) {
    i <= j <= |bytes| && IsCharBoundary(bytes, i) && IsCharBoundary(bytes, j)
  }

  function Slice(bytes: seq<byte>, i: nat, j: nat): seq<byte>
    requires CanSlice(bytes, i, j)
  {
    bytes[i..j]
  }

  lemma LeadByte(c: char)
    ensures SeqLen(EncodeChar(c)[0]) == |EncodeChar(c)|
    ensures !IsContinuation(EncodeChar(c)[0])
    ensures forall k :: 1 <= k < |EncodeChar(c)| ==> IsContinuation(EncodeChar(c)[k])
    ensures EncodeChar(c)[0] < 0x80 <==> (c as int) < 0x80
    ensures (c as int) < 0x80 ==> EncodeChar(c)[0] as int == c as int
  {
  }

  lemma {:induction false} EncodeConcat(a: seq<char>, b: seq<char>)
    ensures Encode(a + b) == Encode(a) + Encode(b)
  {
    hide EncodeChar;
    if a == [] {
      assert a + b == b;
      assert Encode(a) == [];
    } else {
      EncodeConcat(a[1..], b);
      assert (a + b)[1..] == a[1..] + b;
      Regroup(EncodeChar(a[0]), Encode(a[1..]), Encode(b));
    }
  }

  lemma {:induction false} EncodeSingle(c: char)
    ensures Encode([c]) == EncodeChar(c)
  {
    assert [c][1..] == [];
  }

  /** What a reader standing at byte `i` sees when the characters `rest` are still to come. */
  lemma {:induction false} AtCharacter(bytes: seq<byte>, i: nat, rest: seq<char>)
    requires i <= |bytes| && bytes[i..] == Encode(rest)
    ensures IsCharBoundary(bytes, i)
    ensures i < |bytes| <==> rest != []
    ensures rest != [] ==>
      var c, n := rest[0], SeqLen(bytes[i]);
      && n == |EncodeChar(c)| && i + n <= |bytes|
      && bytes[i..i + n] == EncodeChar(c)
      && bytes[i + n..] == Encode(rest[1..])
      && (bytes[i] < 0x80 <==> (c as int) < 0x80)
      && (bytes[i] < 0x80 ==> bytes[i] as int == c as int && n == 1)
  {
    if rest == [] {
    } else {
      var c := rest[0];
      LeadByte(c);
      assert bytes[i] == bytes[i..][0] == EncodeChar(c)[0];
      var n := |EncodeChar(c)|;
      assert bytes[i..i + n] == bytes[i..][..n];
      assert bytes[i + n..] == bytes[i..][n..];
    }
  }

  /** The boundaries of an encoded string are exactly the ends of its character prefixes. */
  lemma {:induction false} BoundariesArePrefixes(cs: seq<char>, i: nat)
    requires i <= |Encode(cs)|
    ensures IsCharBoundary(Encode(cs), i) <==> exists k :: 0 <= k <= |cs| && |Encode(cs[..k])| == i
  {
    var bytes := Encode(cs);
    if i == 0 {
      assert |Encode(cs[..0])| == 0;
    } else {
      var w := |EncodeChar(cs[0])|;
      LeadByte(cs[0]);
      forall k | 1 <= k <= |cs| ensures |Encode(cs[..k])| == w + |Encode(cs[1..][..k - 1])| {
        assert cs[..k][1..] == cs[1..][..k - 1];
      }
      if i < w {
        assert bytes[i] == EncodeChar(cs[0])[i];
      } else {
        BoundariesArePrefixes(cs[1..], i - w);
        assert IsCharBoundary(bytes, i) <==> IsCharBoundary(Encode(cs[1..]), i - w) by {
          if i < |bytes| { assert bytes[i] == Encode(cs[1..])[i - w]; }
          if i == w && cs[1..] != [] { LeadByte(cs[1]); }
        }
        if k :| 0 <= k <= |cs[1..]| && |Encode(cs[1..][..k])| == i - w {
          assert |Encode(cs[..k + 1])| == i;
        }
        if k :| 0 <= k <= |cs| && |Encode(cs[..k])| == i {
          assert k > 0;
          assert |Encode(cs[1..][..k - 1])| == i - w;
        }
      }
    }
  }

  // ---------------------------------------------------------------------------------------------
  // Decoding, so that encoded results can be read back as characters.

  /** The scalar value that a well-formed sequence starting at the head of `bs` stands for. */
  function HeadValue(bs: seq<byte>): int
    requires bs != []
  {
    var b, n := bs[0] as int, SeqLen(bs[0]);
    if n > |bs| then -1
    else if n == 1 then b
    else if n == 2 then (b - 0xC0) * 64 + Payload(bs[1])
    else if n == 3 then (b - 0xE0) * 4096 + Payload(bs[1]) * 64 + Payload(bs[2])
    else (b - 0xF0) * 262144 + Payload(bs[1]) * 4096 + Payload(bs[2]) * 64 + Payload(bs[3])
  }

  predicate IsScalarValue(n: int) {
    0 <= n < 0xD800 || 0xE000 <= n < 0x11_0000
  }

  function Min(a: nat, b: nat): nat {
    if a < b then a else b
  }

  function Decode(bs: seq<byte>): Option<seq<char>> {
    if bs == [] then Some([])
    else
      var v := HeadValue(bs);
      if !IsScalarValue(v) then None
      else
        match Decode(bs[Min(SeqLen(bs[0]), |bs|)..])
        case None => None
        case Some(cs) => Some([v as char] + cs)
  }

  /** A number is the sum of its six-bit digits. */
  lemma SixBitDigits(n: nat)
    ensures n == n / 64 * 64 + n % 64
    ensures n == n / 4096 * 4096 + n / 64 % 64 * 64 + n % 64
    ensures n == n / 262144 * 262144 + n / 4096 % 64 * 4096 + n / 64 % 64 * 64 + n % 64
  {
    var m := n / 64;
    assert n / 4096 == m / 64;
    assert n / 262144 == m / 64 / 64;
  }

  lemma {:induction false} HeadValueOfChar(c: char, rest: seq<byte>)
    ensures HeadValue(EncodeChar(c) + rest) == c as int
  {
    var n, e := c as int, EncodeChar(c);
    var bs := e + rest;
    LeadByte(c);
    SixBitDigits(n);
    assert SeqLen(bs[0]) == |e| <= |bs|;
    hide Payload;
    if |e| == 1 {
    } else if |e| == 2 {
      assert bs[..2] == e;
      assert HeadValue(bs) == n / 64 * 64 + n % 64;
    } else if |e| == 3 {
      assert bs[..3] == e;
      assert HeadValue(bs) == n / 4096 * 4096 + n / 64 % 64 * 64 + n % 64;
    } else {
      assert bs[..4] == e;
      assert HeadValue(bs) == n / 262144 * 262144 + n / 4096 % 64 * 4096 + n / 64 % 64 * 64 + n % 64;
    }
  }

  /** Decoding undoes encoding; in particular two strings with the same bytes are the same. */
  lemma {:induction false} DecodeEncode(cs: seq<char>)
    ensures Decode(Encode(cs)) == Some(cs)
  {
    if cs == [] {
    } else {
      var bs := Encode(cs);
      LeadByte(cs[0]);
      HeadValueOfChar(cs[0], Encode(cs[1..]));
      assert bs[|EncodeChar(cs[0])|..] == Encode(cs[1..]);
      DecodeEncode(cs[1..]);
      assert cs == [cs[0]] + cs[1..];
    }
  }
}
