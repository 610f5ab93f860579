/** Where lines end and which fit, in bytes. */
module LineLaws {
  import opened Utf8
  import opened LineReader

  /** The byte 0x0A ends a line and belongs to it. */
  lemma LineEndsAtNewline(line: seq<byte>, rest: seq<byte>, end: Ending, max: nat)
    requires forall k :: 0 <= k < |line| ==> line[k] != 0x0A
    ensures
      var stream := line + [0x0A] + rest;
      && LineLen(stream) == |line| + 1
      && FirstRead(stream, end, max) == if |line| + 1 <= max then Line else TooLong
  {
    var stream := line + [0x0A] + rest;
    assert stream[|line|] == 0x0A;
    assert forall k :: 0 <= k < |line| ==> stream[k] == line[k];
    FindIs(stream, |line|);
    hide Find;
  }

  /** Without one, what is left is a line at the end of the file and lost to an error; nothing left is the
      end. */
  lemma LastLine(line: seq<byte>, end: Ending, max: nat)
    requires forall k :: 0 <= k < |line| ==> line[k] != 0x0A
    ensures LineLen(line) == |line|
    ensures FirstRead(line, end, max) ==
      if |line| > max then TooLong else if end == AtFault then IoError else if line == [] then Eof else Line
  {
    FindIs(line, |line|);
    hide Find;
  }
}
