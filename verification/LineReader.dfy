/** `read_line_capped` of src/server.rs over a buffered reader that may deliver its bytes in any
    pieces, with interrupts and I/O errors in between. */
module LineReader {
  import opened Utf8
  import opened Sequences

  const NEWLINE: byte := 0x0A

  /** What the system does each time the reader asks for more; after the last event, end of file. */
  datatype ReadEvent = Chunk(data: seq<byte>) | Interrupted | Fault

  datatype Ending = AtEof | AtFault

  /** The bytes that can still arrive, whatever pieces they come in. */
  ghost function Arriving(feed: seq<ReadEvent>): seq<byte> {
    if feed == [] then []
    else
      match feed[0]
      case Chunk(data) => data + Arriving(feed[1..])
      case Interrupted => Arriving(feed[1..])
      case Fault => []
  }

  /** How they end. */
  ghost function EndingOf(feed: seq<ReadEvent>): Ending {
    if feed == [] then AtEof else if feed[0].Fault? then AtFault else EndingOf(feed[1..])
  }

  datatype Fill = Ready(data: seq<byte>) | WasInterrupted | Failed

  /** `BufReader`: `avail` has been read but not consumed. */
  class Reader {
    var avail: seq<byte>
    var feed: seq<ReadEvent>

    /** A read of length zero is end of file, so the chunks before that are not empty. */
    ghost predicate Valid()
      reads this
    {
      forall k :: 0 <= k < |feed| && feed[k].Chunk? ==> feed[k].data != []
    }

    ghost function Stream(): seq<byte>
      reads this
    {
      avail + Arriving(feed)
    }

    ghost function End(): Ending
      reads this
    {
      EndingOf(feed)
    }

    ghost function Fuel(): nat
      reads this
    {
      |feed|
    }

    constructor (feed: seq<ReadEvent>)
      requires forall k :: 0 <= k < |feed| && feed[k].Chunk? ==> feed[k].data != []
      ensures Valid() && Stream() == Arriving(feed) && End() == EndingOf(feed)
    {
      avail := [];
      this.feed := feed;
    }

    method FillBuf() returns (r: Fill)
      requires Valid()
      modifies this
      ensures Valid() && Fuel() <= old(Fuel())
      ensures r.Ready? ==> r.data == avail && avail <= Stream() == old(Stream()) && End() == old(End())
      ensures r.Ready? && r.data == [] ==> Stream() == [] && End() == AtEof
      ensures r.WasInterrupted? ==> Stream() == old(Stream()) && End() == old(End()) && Fuel() < old(Fuel())
      ensures r.Failed? ==> old(Stream()) == [] && old(End()) == AtFault
    {
      if avail != [] {
        return Ready(avail);
      }
      if feed == [] {
        return Ready([]);
      }
      var event := feed[0];
      feed := feed[1..];
      match event
      case Chunk(data) =>
        avail := data;
        r := Ready(data);
      case Interrupted => r := WasInterrupted;
      case Fault => r := Failed;
    }

    method Consume(n: nat)
      requires Valid() && n <= |avail|
      modifies this`avail
      ensures Valid() && avail == old(avail)[n..]
      ensures Stream() == old(Stream())[n..] && End() == old(End()) && Fuel() == old(Fuel())
    {
      avail := avail[n..];
    }
  }

  // ---------------------------------------------------------------------------------------------
  // What a line is

  /** `iter().position(|&b| b == b'\n')`, with the length for `None`. */
  function Find(bytes: seq<byte>): (n: nat)
    ensures n <= |bytes| && (n < |bytes| ==> bytes[n] == NEWLINE)
    ensures forall k :: 0 <= k < n ==> bytes[k] != NEWLINE
  {
    if bytes == [] || bytes[0] == NEWLINE then 0 else 1 + Find(bytes[1..])
  }

  predicate HasNewline(bytes: seq<byte>) {
    Find(bytes) < |bytes|
  }

  /** The length of the first line, its newline included; of all the bytes if there is none. */
  function LineLen(bytes: seq<byte>): (n: nat)
    ensures n <= |bytes| && (bytes != [] ==> n > 0)
  {
    if HasNewline(bytes) then Find(bytes) + 1 else |bytes|
  }

  datatype LineRead = Line | Eof | TooLong | IoError

  /** What reading one line must come to, by looking at the whole stream. */
  function FirstRead(stream: seq<byte>, end: Ending, max: nat): LineRead {
    if LineLen(stream) > max then TooLong
    else if HasNewline(stream) then Line
    else if end == AtFault then IoError
    else if stream == [] then Eof
    else Line
  }

  lemma HasNewlineIff(bytes: seq<byte>)
    ensures HasNewline(bytes) <==> Find(bytes) < |bytes|
  {
  }

  lemma FindIs(bytes: seq<byte>, n: nat)
    requires n <= |bytes| && (n < |bytes| ==> bytes[n] == NEWLINE)
    requires forall k :: 0 <= k < n ==> bytes[k] != NEWLINE
    ensures Find(bytes) == n
  {
    assert !(Find(bytes) < n);
  }

  lemma FindInTail(done: seq<byte>, rest: seq<byte>)
    requires !HasNewline(done)
    ensures Find(done + rest) == |done| + Find(rest)
    ensures HasNewline(done + rest) <==> HasNewline(rest)
    ensures LineLen(done + rest) == |done| + LineLen(rest)
  {
    var all, n := done + rest, |done| + Find(rest);
    assert forall k :: 0 <= k < n ==> all[k] == if k < |done| then done[k] else rest[k - |done|];
    FindIs(all, n);
  }

  /** What the loop knows: `buf` is the beginning of a line of `stream`, `left` is the rest. */
  ghost predicate Reading(stream: seq<byte>, buf: seq<byte>, left: seq<byte>) {
    stream == buf + left && !HasNewline(buf)
  }

  lemma FindInPrefix(prefix: seq<byte>, bytes: seq<byte>)
    requires prefix <= bytes && Find(prefix) < |prefix|
    ensures HasNewline(bytes) && LineLen(bytes) == Find(prefix) + 1
  {
    var n := Find(prefix);
    assert forall k :: 0 <= k <= n ==> bytes[k] == prefix[k];
    FindIs(bytes, n);
  }

  lemma FirstReadIs(stream: seq<byte>, end: Ending, max: nat)
    requires HasNewline(stream)
    ensures FirstRead(stream, end, max) == if LineLen(stream) > max then TooLong else Line
  {
  }

  lemma NewlineFound(stream: seq<byte>, buf: seq<byte>, left: seq<byte>, available: seq<byte>, idx: nat,
                     end: Ending, max: nat)
    requires Reading(stream, buf, left) && available <= left && idx == Find(available) < |available|
    ensures LineLen(stream) == |buf| + idx + 1
    ensures FirstRead(stream, end, max) == if |buf| + idx + 1 > max then TooLong else Line
    ensures buf + available[..idx + 1] == stream[..|buf| + idx + 1]
    ensures left[idx + 1..] == stream[|buf| + idx + 1..]
  {
    assert stream == buf + left && !HasNewline(buf);
    hide *;
    FindInPrefix(available, left);
    FindInTail(buf, left);
    FirstReadIs(stream, end, max);
    CutConcat(buf, left, idx + 1);
    CutPrefix(available, left, idx + 1);
  }

  lemma StillNoNewline(done: seq<byte>, more: seq<byte>, rest: seq<byte>)
    requires !HasNewline(done) && !HasNewline(more)
    ensures !HasNewline(done + more)
    ensures |done| + |more| <= LineLen(done + more + rest)
  {
    FindInTail(done, more);
    FindInTail(done + more, rest);
  }

  lemma TooLongAlready(stream: seq<byte>, end: Ending, max: nat)
    requires LineLen(stream) > max
    ensures FirstRead(stream, end, max) == TooLong
  {
  }

  lemma ReadingIs(stream: seq<byte>, buf: seq<byte>, left: seq<byte>)
    ensures Reading(stream, buf, left) <==> stream == buf + left && !HasNewline(buf)
  {
  }

  lemma NoNewlineYet(stream: seq<byte>, buf: seq<byte>, left: seq<byte>, available: seq<byte>, end: Ending, max: nat)
    requires Reading(stream, buf, left) && available <= left && !HasNewline(available)
    ensures Reading(stream, buf + available, left[|available|..])
    ensures |buf| + |available| <= LineLen(stream)
    ensures |buf| + |available| > max ==> FirstRead(stream, end, max) == TooLong
    ensures left[|available|..] == stream[|buf| + |available|..]
  {
    hide *;
    var more, rest := buf + available, left[|available|..];
    ReadingIs(stream, buf, left);
    ReadingIs(stream, more, rest);
    CutConcat(buf, left, |available|);
    CutPrefix(available, left, |available|);
    Regroup(buf, available, rest);
    StillNoNewline(buf, available, rest);
    if |more| > max { TooLongAlready(stream, end, max); }
  }

  lemma NothingMore(stream: seq<byte>, buf: seq<byte>, end: Ending, max: nat)
    requires Reading(stream, buf, []) && |buf| <= max
    ensures stream == buf && LineLen(stream) == |stream|
    ensures FirstRead(stream, end, max) == if end == AtFault then IoError else if buf == [] then Eof else Line
    ensures stream[..|stream|] == buf && stream[|stream|..] == []
  {
  }

  lemma StartReading(stream: seq<byte>)
    ensures Reading(stream, [], stream)
  {
  }

  /** The reader agrees with the split of the whole stream, however the bytes are cut. Its buffer
      never exceeds `max`, and it never consumes past the first newline. */
  method ReadLineCapped(reader: Reader, max: nat) returns (r: LineRead, buf: seq<byte>, ghost consumed: nat)
    requires reader.Valid()
    modifies reader
    ensures reader.Valid() && |buf| <= max
    ensures r == FirstRead(old(reader.Stream()), old(reader.End()), max)
    ensures consumed <= LineLen(old(reader.Stream()))
    ensures r != IoError ==> reader.Stream() == old(reader.Stream())[consumed..] && reader.End() == old(reader.End())
    ensures r == Line || r == Eof ==>
      consumed == LineLen(old(reader.Stream())) && buf == old(reader.Stream())[..consumed]
  {
    hide *;
    buf, consumed := [], 0;
    ghost var stream, end := reader.Stream(), reader.End();
    StartReading(stream);
    while true
      invariant reader.Valid() && reader.End() == end && |buf| <= max
      invariant Reading(stream, buf, reader.Stream()) && consumed == |buf| <= LineLen(stream)
      decreases reader.Fuel(), |reader.Stream()|
    {
      ghost var left := reader.Stream();
      var filled := reader.FillBuf();
      if filled.WasInterrupted? {
        continue;
      }
      if filled.Failed? {
        NothingMore(stream, buf, end, max);
        r := IoError;
        return;
      }
      var available := filled.data;
      if available == [] {
        NothingMore(stream, buf, end, max);
        if buf == [] {
          r := Eof;
          return;
        }
        break;
      }
      var idx := Find(available);
      HasNewlineIff(available);
      if idx < |available| {
        NewlineFound(stream, buf, left, available, idx, end, max);
        consumed := |buf| + idx + 1;
        if |buf| + idx + 1 > max {
          reader.Consume(idx + 1);
          r := TooLong;
          return;
        }
        buf := buf + available[..idx + 1];
        reader.Consume(idx + 1);
        break;
      } else {
        var take := |available|;
        NoNewlineYet(stream, buf, left, available, end, max);
        consumed := |buf| + take;
        if |buf| + take > max {
          reader.Consume(take);
          r := TooLong;
          return;
        }
        buf := buf + available;
        reader.Consume(take);
      }
    }
    r := Line;
  }
}
