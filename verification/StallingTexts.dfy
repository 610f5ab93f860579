/** On which texts, whatever their characters, the written SSE2 kernel panics. */
module StallingTexts {
  import opened Utf8
  import opened Sequences
  import opened Whitespace
  import opened VectorKernels

  /** The least number of characters that take `need` bytes; all of them if they do not. */
  function HeadLen(s: seq<char>, need: int): (n: nat)
    ensures n <= |s|
  {
    if need <= 0 || s == [] then 0 else 1 + HeadLen(s[1..], need - |EncodeChar(s[0])|)
  }

  lemma HeadLenPositive(s: seq<char>)
    ensures |Encode(s)| >= 16 ==> HeadLen(s, 16) > 0
  {
  }

  /** The text cut after every character that completes sixteen bytes, without what is left over. */
  function Chunks(s: seq<char>): seq<seq<char>>
    decreases |s|
  {
    if |Encode(s)| < 16 then []
    else
      HeadLenPositive(s);
      [s[..HeadLen(s, 16)]] + Chunks(s[HeadLen(s, 16)..])
  }

  lemma EncodeHead(s: seq<char>, n: nat)
    requires n < |s|
    ensures Encode(s[..n + 1]) == EncodeChar(s[0]) + Encode(s[1..][..n])
  {
    assert s[..n + 1][1..] == s[1..][..n];
  }

  /** What the cut means: a chunk takes sixteen bytes and would not without its last character. */
  lemma {:induction false} HeadLenMeaning(s: seq<char>, need: int)
    ensures
      var n := HeadLen(s, need);
      && (|Encode(s)| >= need ==> |Encode(s[..n])| >= need)
      && forall k :: 0 <= k < n ==> |Encode(s[..k])| < need
    decreases s
  {
    if need <= 0 || s == [] {
      assert s[..0] == [] && Encode([]) == [];
    } else {
      var n := HeadLen(s, need);
      HeadLenMeaning(s[1..], need - |EncodeChar(s[0])|);
      EncodeHead(s, n - 1);
      assert Encode(s) == EncodeChar(s[0]) + Encode(s[1..]);
      forall k | 0 <= k < n ensures |Encode(s[..k])| < need {
        if k == 0 {
          assert s[..0] == [] && Encode([]) == [];
        } else {
          EncodeHead(s, k - 1);
        }
      }
    }
  }

  /** Fifteen ASCII characters without whitespace and then a whitespace. */
  predicate IsStalling(c: seq<char>) {
    && |c| == 16
    && IsAsciiWs(c[15] as int)
    && forall k :: 0 <= k < 15 ==> (c[k] as int) < 0x80 && !IsAsciiWs(c[k] as int)
  }

  lemma HeadLenCons(rest: seq<char>, need: int)
    requires need > 0 && rest != []
    ensures
      var m := HeadLen(rest[1..], need - |EncodeChar(rest[0])|);
      && HeadLen(rest, need) == m + 1
      && |Encode(rest[..HeadLen(rest, need)])| == |EncodeChar(rest[0])| + |Encode(rest[1..][..m])|
  {
    hide Encode;
    EncodeHead(rest, HeadLen(rest[1..], need - |EncodeChar(rest[0])|));
  }

  /** A reader stands at byte `i` with the characters `rest` to come. */
  ghost predicate Stands(bytes: seq<byte>, i: nat, rest: seq<char>) {
    i <= |bytes| && bytes[i..] == Encode(rest)
  }

  lemma OneAhead(bytes: seq<byte>, i: nat, end: nat, rest: seq<char>)
    requires Stands(bytes, i, rest) && i < end <= |bytes|
    ensures rest != []
    ensures
      var n := |EncodeChar(rest[0])|;
      && Stands(bytes, i + n, rest[1..])
      && i + n <= |bytes|
      && ScalarEnd(bytes, i, end) == ScalarEnd(bytes, i + n, end)
  {
    hide Encode;
    hide EncodeChar;
    hide SeqLen;
    AtCharacter(bytes, i, rest);
  }

  lemma AlreadyThere(bytes: seq<byte>, i: nat, end: nat, rest: seq<char>)
    requires end <= |bytes| && end <= i
    ensures ScalarEnd(bytes, i, end) == i == i + |Encode(rest[..HeadLen(rest, end - i)])|
  {
    assert rest[..0] == [] && Encode([]) == [];
  }

  /** The scalar fallback stops behind the character that completes the chunk. */
  lemma {:induction false} ScalarEndIs(bytes: seq<byte>, i: nat, end: nat, rest: seq<char>)
    requires Stands(bytes, i, rest) && end <= |bytes|
    ensures ScalarEnd(bytes, i, end) == i + |Encode(rest[..HeadLen(rest, end - i)])|
    decreases |rest|
  {
    hide *;
    if i >= end {
      AlreadyThere(bytes, i, end, rest);
    } else {
      OneAhead(bytes, i, end, rest);
      HeadLenCons(rest, end - i);
      ScalarEndIs(bytes, i + |EncodeChar(rest[0])|, end, rest[1..]);
    }
  }

  /** If the first `need` bytes are ASCII, they are the first `need` characters. */
  lemma {:induction false} AsciiHead(s: seq<char>, need: nat)
    requires need <= |Encode(s)| && AllAscii(Encode(s)[..need])
    ensures HeadLen(s, need) == need && |Encode(s[..need])| == need
    ensures forall k :: 0 <= k < need ==> Encode(s)[k] as int == s[k] as int < 0x80
    decreases need
  {
    if need == 0 {
      assert s[..0] == [] && Encode([]) == [];
    } else {
      var bytes, tail := Encode(s), Encode(s[1..]);
      LeadByte(s[0]);
      assert bytes == EncodeChar(s[0]) + tail;
      assert bytes[..need][0] == bytes[0];
      assert |EncodeChar(s[0])| == 1;
      var front := tail[..need - 1];
      forall k | 0 <= k < |front| ensures front[k] < 0x80 {
        assert front[k] == bytes[..need][k + 1];
      }
      AsciiHead(s[1..], need - 1);
      EncodeHead(s, need - 1);
      forall k | 0 <= k < need ensures bytes[k] as int == s[k] as int < 0x80 {
        if k > 0 { assert bytes[k] == tail[k - 1]; }
      }
    }
  }

  lemma AsciiByBytes(bytes: seq<byte>, cs: seq<char>)
    requires |bytes| == |cs| && IsStalling(cs)
    requires forall k :: 0 <= k < |cs| ==> bytes[k] as int == cs[k] as int
    ensures AllAscii(bytes) && |bytes| == 16
  {
  }

  lemma StallingHeadIsAscii(s: seq<char>, n: nat)
    requires n <= |s| && |Encode(s)| >= 16
    ensures IsStalling(s[..n]) ==> AllAscii(Encode(s)[..16])
  {
    if IsStalling(s[..n]) {
      var bytes := AsciiBytes(s[..n]);
      EncodeConcat(s[..n], s[n..]);
      assert s == s[..n] + s[n..];
      hide *;
      assert AllAscii(bytes) by {
        AsciiByBytes(bytes, s[..n]);
      }
      assert Encode(s)[..16] == bytes;
    }
  }

  /** The first chunk stalls the kernel exactly if its text is stalling. */
  lemma FirstChunk(s: seq<char>)
    requires |Encode(s)| >= 16
    ensures
      var chunk, head := Encode(s)[..16], s[..HeadLen(s, 16)];
      && (AllAscii(chunk) && Stalling(chunk) <==> IsStalling(head))
      && (AllAscii(chunk) ==> |Encode(head)| == 16)
  {
    var chunk, head := Encode(s)[..16], s[..HeadLen(s, 16)];
    hide Encode;
    if AllAscii(chunk) {
      AsciiHead(s, 16);
      assert forall k :: 0 <= k < 16 ==> chunk[k] as int == head[k] as int;
    }
    StallingHeadIsAscii(s, HeadLen(s, 16));
  }

  ghost predicate AnyStalls(chunks: seq<seq<char>>) {
    exists c :: c in chunks && IsStalling(c)
  }

  lemma NothingStalls()
    ensures !AnyStalls([])
  {
  }

  lemma AnyStallsCons(c: seq<char>, rest: seq<seq<char>>)
    ensures AnyStalls([c] + rest) <==> IsStalling(c) || AnyStalls(rest)
  {
    hide IsStalling;
    assert forall x :: x in [c] + rest <==> x == c || x in rest;
  }

  lemma StallsStep(bytes: seq<byte>, i: nat)
    requires i + 16 <= |bytes|
    ensures
      var chunk := bytes[i..i + 16];
      Stalls(bytes, i) <==>
        || (AllAscii(chunk) && Stalling(chunk))
        || Stalls(bytes, if AllAscii(chunk) then i + 16 else ScalarEnd(bytes, i, i + 16))
  {
    hide AllAscii;
    hide Stalling;
    hide ScalarEnd;
  }

  lemma StandsWithin(bytes: seq<byte>, i: nat, rest: seq<char>)
    requires Stands(bytes, i, rest)
    ensures i <= |bytes|
  {
  }

  lemma TooShortToStall(bytes: seq<byte>, i: nat, rest: seq<char>)
    requires Stands(bytes, i, rest) && |bytes| < i + 16
    ensures !Stalls(bytes, i) && Chunks(rest) == []
  {
  }

  lemma ChunksStep(rest: seq<char>)
    requires |Encode(rest)| >= 16
    ensures 0 < HeadLen(rest, 16)
    ensures Chunks(rest) == [rest[..HeadLen(rest, 16)]] + Chunks(rest[HeadLen(rest, 16)..])
  {
    hide Encode;
    hide HeadLen;
    HeadLenPositive(rest);
  }

  lemma ManyAhead(bytes: seq<byte>, i: nat, rest: seq<char>, n: nat)
    requires Stands(bytes, i, rest) && n <= |rest|
    ensures Stands(bytes, i + |Encode(rest[..n])|, rest[n..])
  {
    EncodeConcat(rest[..n], rest[n..]);
    assert rest == rest[..n] + rest[n..];
    hide Encode;
    var done := |Encode(rest[..n])|;
    assert bytes[i + done..] == bytes[i..][done..];
  }

  lemma ChunkAhead(bytes: seq<byte>, i: nat, rest: seq<char>)
    requires Stands(bytes, i, rest) && i + 16 <= |bytes|
    ensures |Encode(rest)| >= 16 && bytes[i..i + 16] == Encode(rest)[..16]
  {
    hide Encode;
    assert bytes[i..i + 16] == bytes[i..][..16];
  }

  lemma {:induction false} StallsFrom(bytes: seq<byte>, i: nat, rest: seq<char>)
    requires Stands(bytes, i, rest)
    ensures Stalls(bytes, i) <==> AnyStalls(Chunks(rest))
    decreases |rest|
  {
    hide *;
    if i + 16 > |bytes| {
      TooShortToStall(bytes, i, rest);
      NothingStalls();
    } else {
      var n := HeadLen(rest, 16);
      StandsWithin(bytes, i, rest);
      ChunkAhead(bytes, i, rest);
      ManyAhead(bytes, i, rest, n);
      ChunksStep(rest);
      StallsStep(bytes, i);
      FirstChunk(rest);
      ScalarEndIs(bytes, i, i + 16, rest);
      StallsFrom(bytes, i + |Encode(rest[..n])|, rest[n..]);
      AnyStallsCons(rest[..n], Chunks(rest[n..]));
    }
  }

  /** The kernel panics exactly if one of the text's chunks is fifteen ASCII characters without
      whitespace and then a whitespace. */
  lemma StallsIff(s: seq<char>)
    ensures Stalls(Encode(s), 0) <==> AnyStalls(Chunks(s))
  {
    assert Encode(s)[0..] == Encode(s);
    StallsFrom(Encode(s), 0, s);
  }
}
