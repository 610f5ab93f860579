/** The replies of the stdio session against the JSON-RPC 2.0 specification. */
module Conformance {
  import opened Wrappers
  import opened Utf8
  import opened Sequences
  import opened LineReader
  import opened Session

  // ---------------------------------------------------------------------------------------------
  // What the specification asks for

  predicate IsError(r: Option<Response>, code: int) {
    r.Some? && r.value.result.None? && r.value.error.Some? && r.value.error.value.code == code
  }

  /** The response that sections 4, 4.1, 5 and 5.1 of the JSON-RPC 2.0 specification require for one
      message: a parse error for what is no JSON, an invalid request for other JSON than a Request
      object, nothing for a Request object without an `id` member, which is a notification, and for
      any other, one with a null id included, exactly one of a result and an error under its own id,
      the error -32601 exactly if there is no such method. */
  predicate Conforms(m: Message, r: Option<Response>) {
    if m.Malformed? then IsError(r, -32700) && r.value.id.None?
    else if !m.IsRequestObject() then IsError(r, -32600) && r.value.id.None?
    else if m.id.NoId? then r.None?
    else
      && r.Some?
      && r.value.WellFormed()
      && r.value.id == (if m.id.NullId? then None else Some(m.id.json))
      && (!IsMethod(m.name) <==> IsError(r, -32601))
  }

  /** A call of a tool that does not exist or is not enabled. */
  predicate CallsNoTool(h: Host, m: Message) {
    && m.Fit?
    && m.name == "tools/call"
    && h.toolName(RequestOf(m).value).Some?
    && !h.available(h.toolName(RequestOf(m).value).value)
  }

  /** What the server handles as specified: what is no JSON, notifications, and Request objects with an
      id that is not null, unless they call a tool that is not there, which is answered as if the method
      were missing. */
  predicate Sound(h: Host, m: Message) {
    || m.Malformed?
    || m.IsNotification()
    || (m.IsRequestObject() && !m.id.NullId? && !CallsNoTool(h, m))
  }

  /** The response is -32601 for a method or a tool that is not there, and for nothing else. */
  lemma MissingMethod(h: Host, k: nat, req: Request)
    ensures
      IsError(Some(Respond(h, k, req)), -32601) <==>
        || !IsMethod(req.name)
        || (req.name == "tools/call" && h.toolName(req).Some? && !h.available(h.toolName(req).value))
  {
  }

  /** The server conforms on such lines and on no others. */
  lemma ReplyConformsIff(h: Host, k: nat, line: seq<byte>)
    ensures Conforms(MessageOf(h, line), Reply(h, k, line)) <==> Sound(h, MessageOf(h, line))
  {
    var m := MessageOf(h, line);
    ReplyMeaning(h, k, line);
    if m.Fit? {
      MissingMethod(h, k, RequestOf(m).value);
    }
  }

  /** A request with an explicit null id is dropped as if it were a notification. */
  lemma NullIdIsDropped(h: Host, k: nat, line: seq<byte>)
    requires MessageOf(h, line) == Fit(true, "2.0", NullId, "ping", NoParams)
    ensures Reply(h, k, line) == None && !Conforms(MessageOf(h, line), None)
  {
  }

  /** JSON that is no request, such as an empty object, is answered as if it were no JSON. */
  lemma NonRequestIsParseError(h: Host, k: nat, line: seq<byte>)
    requires MessageOf(h, line).Unfit?
    ensures IsError(Reply(h, k, line), -32700) && !Conforms(MessageOf(h, line), Reply(h, k, line))
  {
  }

  // ---------------------------------------------------------------------------------------------
  // Line by line

  /** What is written for line `i` of a session: the lines served get their reply, the first one that is
      not gets an error if it is too long, and nothing behind it is read. */
  function AnswerTo(h: Host, pieces: seq<seq<byte>>, end: Ending, max: nat, i: nat): Option<Response>
    requires i < |pieces|
  {
    var n := ServedCount(pieces, end, max);
    if i < n then Reply(h, i, pieces[i])
    else if i == n && |pieces[n]| > max then Some(Oversize())
    else None
  }

  function Flat(answers: seq<Option<Response>>): seq<Response> {
    if answers == [] then [] else Written(answers[0]) + Flat(answers[1..])
  }

  lemma {:induction false} FlatConcat(a: seq<Option<Response>>, b: seq<Option<Response>>)
    ensures Flat(a + b) == Flat(a) + Flat(b)
  {
    if a == [] {
      assert a + b == b;
    } else {
      FlatConcat(a[1..], b);
      assert (a + b)[1..] == a[1..] + b;
      Regroup(Written(a[0]), Flat(a[1..]), Flat(b));
    }
  }

  lemma {:induction false} FlatOfNone(answers: seq<Option<Response>>)
    requires forall i :: 0 <= i < |answers| ==> answers[i].None?
    ensures Flat(answers) == []
  {
    if answers == [] {
    } else {
      FlatOfNone(answers[1..]);
    }
  }

  lemma {:induction false} RepliesAreFlat(h: Host, pieces: seq<seq<byte>>, k: nat, answers: seq<Option<Response>>)
    requires |answers| == |pieces| && forall i :: 0 <= i < |pieces| ==> answers[i] == Reply(h, k + i, pieces[i])
    ensures Flat(answers) == Replies(h, pieces, k)
    decreases |pieces|
  {
    if pieces == [] {
    } else {
      hide Reply;
      forall i | 0 <= i < |pieces| - 1 ensures answers[1..][i] == Reply(h, k + 1 + i, pieces[1..][i]) {
        assert answers[i + 1] == Reply(h, k + (i + 1), pieces[i + 1]);
      }
      RepliesAreFlat(h, pieces[1..], k + 1, answers[1..]);
      assert answers[0] == Reply(h, k + 0, pieces[0]);
    }
  }

  function Answers(h: Host, pieces: seq<seq<byte>>, end: Ending, max: nat): seq<Option<Response>> {
    seq(|pieces|, i requires 0 <= i < |pieces| => AnswerTo(h, pieces, end, max, i))
  }

  lemma FlatConsNone(answers: seq<Option<Response>>)
    requires answers != [] && answers[0] == Some(Oversize())
    requires forall i :: 0 < i < |answers| ==> answers[i].None?
    ensures Flat(answers) == [Oversize()]
  {
    FlatOfNone(answers[1..]);
  }

  lemma AnswersArePerLine(h: Host, pieces: seq<seq<byte>>, end: Ending, max: nat)
    ensures Flat(Answers(h, pieces, end, max)) == PerLine(h, pieces, end, max, 0)
  {
    hide Reply;
    hide Flat;
    hide Replies;
    hide ServedCount;
    var n, answers := ServedCount(pieces, end, max), Answers(h, pieces, end, max);
    RepliesAreFlat(h, pieces[..n], 0, answers[..n]);
    assert answers == answers[..n] + answers[n..];
    FlatConcat(answers[..n], answers[n..]);
    if n < |pieces| && |pieces[n]| > max {
      FlatConsNone(answers[n..]);
    } else {
      FlatOfNone(answers[n..]);
    }
  }

  /** The answers to the lines, one after the other, are what the session writes. */
  lemma AnswersAreWritten(h: Host, stream: seq<byte>, end: Ending, max: nat)
    ensures Flat(Answers(h, Split(stream), end, max)) == Transcript(h, stream, end, max, 0)
  {
    hide *;
    TranscriptIsPerLine(h, stream, end, max, 0);
    AnswersArePerLine(h, Split(stream), end, max);
  }

  /** A request with a null id for a method that exists: an error about any other thing will do for it. */
  predicate IsNullCall(m: Message) {
    m.IsRequestObject() && m.id.NullId? && IsMethod(m.name)
  }

  /** When line `i` gets what the specification requires for it. */
  predicate IsHandled(h: Host, pieces: seq<seq<byte>>, end: Ending, max: nat, i: nat)
    requires i < |pieces|
  {
    var n, m := ServedCount(pieces, end, max), MessageOf(h, pieces[i]);
    if i < n then Sound(h, m) else if i == n && |pieces[n]| > max then IsNullCall(m) else m.IsNotification()
  }

  /** A line that is served conforms if it is sound; the over-long one only if it is a call with a null
      id, whose error the oversize error happens to be; one that is not answered only if it is a
      notification. */
  lemma LineConformsIff(h: Host, pieces: seq<seq<byte>>, end: Ending, max: nat, i: nat)
    requires i < |pieces|
    ensures Conforms(MessageOf(h, pieces[i]), AnswerTo(h, pieces, end, max, i)) <==> IsHandled(h, pieces, end, max, i)
  {
    ReplyConformsIff(h, i, pieces[i]);
    hide Reply;
    hide MessageOf;
    hide Sound;
  }

  /** An ordinary request that is too long gets an error with a null id instead of its own. */
  lemma OverlongRequestIsDisowned(h: Host, line: seq<byte>, end: Ending, max: nat)
    requires |line| > max && MessageOf(h, line).IsRequestObject() && MessageOf(h, line).id.Scalar?
    ensures AnswerTo(h, [line], end, max, 0) == Some(Oversize())
    ensures !Conforms(MessageOf(h, line), AnswerTo(h, [line], end, max, 0))
  {
    hide MessageOf;
    assert ServedCount([line], end, max) == 0;
  }

  // ---------------------------------------------------------------------------------------------
  // Whole sessions, as the client sees them

  /** Some responses are, in order, those that the specification requires for some lines: a client,
      who sees no more than the responses, can assign them so. */
  ghost predicate AllConform(h: Host, pieces: seq<seq<byte>>, rs: seq<Response>)
    decreases |pieces|
  {
    if pieces == [] then rs == []
    else
      var m := MessageOf(h, pieces[0]);
      || (Conforms(m, None) && AllConform(h, pieces[1..], rs))
      || (rs != [] && Conforms(m, Some(rs[0])) && AllConform(h, pieces[1..], rs[1..]))
  }

  /** There is never a choice: notifications take no response and all else takes the next one. */
  lemma NextConforms(h: Host, line: seq<byte>, pieces: seq<seq<byte>>, rs: seq<Response>)
    ensures
      var m := MessageOf(h, line);
      AllConform(h, [line] + pieces, rs) <==>
        if m.IsNotification() then AllConform(h, pieces, rs)
        else rs != [] && Conforms(m, Some(rs[0])) && AllConform(h, pieces, rs[1..])
  {
    hide MessageOf;
    assert ([line] + pieces)[1..] == pieces;
  }

  /** The lines that are owed a response. */
  function Owed(h: Host, pieces: seq<seq<byte>>): nat {
    if pieces == [] then 0
    else (if MessageOf(h, pieces[0]).IsNotification() then 0 else 1) + Owed(h, pieces[1..])
  }

  lemma {:induction false} OwedConcat(h: Host, a: seq<seq<byte>>, b: seq<seq<byte>>)
    ensures Owed(h, a + b) == Owed(h, a) + Owed(h, b)
  {
    hide MessageOf;
    if a == [] {
      assert a + b == b;
    } else {
      OwedConcat(h, a[1..], b);
      assert (a + b)[1..] == a[1..] + b;
    }
  }

  ghost predicate AllNotify(h: Host, pieces: seq<seq<byte>>) {
    forall i :: 0 <= i < |pieces| ==> MessageOf(h, pieces[i]).IsNotification()
  }

  ghost predicate AllSound(h: Host, pieces: seq<seq<byte>>) {
    forall i :: 0 <= i < |pieces| ==> Sound(h, MessageOf(h, pieces[i]))
  }

  ghost predicate AllRequests(h: Host, pieces: seq<seq<byte>>) {
    forall i :: 0 <= i < |pieces| ==> MessageOf(h, pieces[i]).MaybeRequest()
  }

  /** No request has a null id: the server will answer all that is owed. */
  ghost predicate NoneIsNull(h: Host, pieces: seq<seq<byte>>) {
    forall i :: 0 <= i < |pieces| ==> !(MessageOf(h, pieces[i]).Fit? && MessageOf(h, pieces[i]).id.NullId?)
  }

  lemma FirstLineApart(h: Host, line: seq<byte>, pieces: seq<seq<byte>>)
    ensures
      var m, all := MessageOf(h, line), [line] + pieces;
      && (AllRequests(h, all) <==> m.MaybeRequest() && AllRequests(h, pieces))
      && (AllSound(h, all) <==> Sound(h, m) && AllSound(h, pieces))
      && (AllNotify(h, all) <==> m.IsNotification() && AllNotify(h, pieces))
      && (NoneIsNull(h, all) <==> !(m.Fit? && m.id.NullId?) && NoneIsNull(h, pieces))
      && Owed(h, all) == (if m.IsNotification() then 0 else 1) + Owed(h, pieces)
  {
    hide MessageOf;
    hide Sound;
    var all := [line] + pieces;
    assert all[0] == line && all[1..] == pieces;
    forall i | 0 <= i < |pieces| ensures all[i + 1] == pieces[i] {}
    forall i | 0 < i < |all| ensures all[i] == pieces[i - 1] {}
  }

  lemma {:induction false} NothingOwed(h: Host, pieces: seq<seq<byte>>)
    ensures Owed(h, pieces) == 0 <==> AllNotify(h, pieces)
  {
    if pieces == [] {
    } else {
      hide *;
      NothingOwed(h, pieces[1..]);
      FirstLineApart(h, pieces[0], pieces[1..]);
      assert [pieces[0]] + pieces[1..] == pieces;
    }
  }

  ghost predicate NoneInvalid(rs: seq<Response>) {
    forall i :: 0 <= i < |rs| ==> !IsError(Some(rs[i]), -32600)
  }

  lemma NoneInvalidConcat(a: seq<Response>, b: seq<Response>)
    requires NoneInvalid(a) && NoneInvalid(b)
    ensures NoneInvalid(a + b)
  {
    hide IsError;
    forall i | 0 <= i < |a + b| ensures !IsError(Some((a + b)[i]), -32600) {
      if i >= |a| { assert (a + b)[i] == b[i - |a|]; }
    }
  }

  lemma NotificationIsRequest(h: Host, line: seq<byte>)
    requires MessageOf(h, line).IsNotification()
    ensures MessageOf(h, line).MaybeRequest()
  {
  }

  /** Some line requires this response. */
  ghost predicate IsWanted(h: Host, pieces: seq<seq<byte>>, r: Response) {
    exists line :: line in pieces && Conforms(MessageOf(h, line), Some(r))
  }

  lemma WantedCons(h: Host, line: seq<byte>, rest: seq<seq<byte>>, r: Response)
    ensures Conforms(MessageOf(h, line), Some(r)) || IsWanted(h, rest, r) ==> IsWanted(h, [line] + rest, r)
  {
    hide MessageOf;
    hide Conforms;
    assert line in [line] + rest;
  }

  lemma TakenResponse(h: Host, line: seq<byte>, rs: seq<Response>)
    requires rs != [] && Conforms(MessageOf(h, line), Some(rs[0]))
    ensures NoneInvalid(rs) ==> MessageOf(h, line).MaybeRequest() && NoneInvalid(rs[1..])
  {
    hide MessageOf;
    assert NoneInvalid(rs) ==> !IsError(Some(rs[0]), -32600);
  }

  /** Conforming responses are as many as are owed; without an error -32600 among them every line was a
      request or no JSON; and the last response is one that some line requires. */
  lemma {:induction false} ConformingResponses(h: Host, pieces: seq<seq<byte>>, rs: seq<Response>)
    requires AllConform(h, pieces, rs)
    ensures |rs| == Owed(h, pieces)
    ensures NoneInvalid(rs) ==> AllRequests(h, pieces)
    ensures rs != [] ==> IsWanted(h, pieces, rs[|rs| - 1])
    decreases |pieces|
  {
    if pieces == [] {
    } else {
      var line, rest := pieces[0], pieces[1..];
      assert [line] + rest == pieces;
      hide *;
      NextConforms(h, line, rest, rs);
      FirstLineApart(h, line, rest);
      if rs != [] { WantedCons(h, line, rest, rs[|rs| - 1]); }
      if MessageOf(h, line).IsNotification() {
        ConformingResponses(h, rest, rs);
        NotificationIsRequest(h, line);
      } else {
        ConformingResponses(h, rest, rs[1..]);
        TakenResponse(h, line, rs);
        assert rs[1..] != [] ==> rs[1..][|rs| - 2] == rs[|rs| - 1];
      }
    }
  }

  lemma NeverInvalid(h: Host, k: nat, line: seq<byte>)
    ensures !IsError(Reply(h, k, line), -32600)
  {
  }

  /** What the reply to one line adds, against what is owed for it. */
  lemma OneReply(h: Host, k: nat, line: seq<byte>)
    ensures
      var m, rs := MessageOf(h, line), Written(Reply(h, k, line));
      var owed := if m.IsNotification() then 0 else 1;
      && NoneInvalid(rs)
      && (m.MaybeRequest() ==> |rs| <= owed)
      && (m.MaybeRequest() && |rs| == owed ==> !(m.Fit? && m.id.NullId?))
  {
    NeverInvalid(h, k, line);
  }

  lemma RepliesCons(h: Host, line: seq<byte>, pieces: seq<seq<byte>>, k: nat)
    ensures Replies(h, [line] + pieces, k) == Written(Reply(h, k, line)) + Replies(h, pieces, k + 1)
  {
    hide Reply;
    assert ([line] + pieces)[1..] == pieces;
  }

  /** The server never says -32600, and requests with a null id leave it short of responses. */
  lemma {:induction false} ServerResponses(h: Host, pieces: seq<seq<byte>>, k: nat)
    ensures NoneInvalid(Replies(h, pieces, k))
    ensures AllRequests(h, pieces) ==> |Replies(h, pieces, k)| <= Owed(h, pieces)
    ensures AllRequests(h, pieces) && |Replies(h, pieces, k)| == Owed(h, pieces) ==> NoneIsNull(h, pieces)
    decreases |pieces|
  {
    if pieces == [] {
    } else {
      hide *;
      var line, rest := pieces[0], pieces[1..];
      assert [line] + rest == pieces;
      RepliesCons(h, line, rest, k);
      ServerResponses(h, rest, k + 1);
      OneReply(h, k, line);
      FirstLineApart(h, line, rest);
      NoneInvalidConcat(Written(Reply(h, k, line)), Replies(h, rest, k + 1));
    }
  }

  lemma {:induction false} SilenceConforms(h: Host, pieces: seq<seq<byte>>)
    requires AllNotify(h, pieces)
    ensures AllConform(h, pieces, [])
  {
    if pieces == [] {
    } else {
      var line, rest := pieces[0], pieces[1..];
      assert [line] + rest == pieces;
      hide *;
      FirstLineApart(h, line, rest);
      NextConforms(h, line, rest, []);
      SilenceConforms(h, rest);
    }
  }

  /** Notifications are all requests, and none has a null id or is answered. */
  lemma NotificationsAreSilent(h: Host, pieces: seq<seq<byte>>, k: nat)
    requires AllNotify(h, pieces)
    ensures AllSound(h, pieces) && Replies(h, pieces, k) == []
  {
    assert AllRequests(h, pieces) && AllSound(h, pieces);
    hide *;
    NothingOwed(h, pieces);
    ServerResponses(h, pieces, k);
  }

  lemma PartsApart(h: Host, a: seq<seq<byte>>, b: seq<seq<byte>>)
    ensures AllNotify(h, a + b) <==> AllNotify(h, a) && AllNotify(h, b)
    ensures AllRequests(h, a + b) <==> AllRequests(h, a) && AllRequests(h, b)
  {
    hide MessageOf;
    forall i | 0 <= i < |b| ensures (a + b)[|a| + i] == b[i] {}
    forall i | 0 <= i < |a| ensures (a + b)[i] == a[i] {}
  }

  /** The oversize error serves calls with a null id and nothing else. */
  lemma OversizeFits(m: Message)
    ensures Conforms(m, Some(Oversize())) <==> IsNullCall(m)
  {
  }

  lemma WantedByEither(h: Host, a: seq<seq<byte>>, b: seq<seq<byte>>, r: Response)
    ensures IsWanted(h, a + b, r) ==> IsWanted(h, a, r) || IsWanted(h, b, r)
  {
    hide MessageOf;
    hide Conforms;
  }

  lemma NobodyWantsOversize(h: Host, pieces: seq<seq<byte>>)
    requires NoneIsNull(h, pieces)
    ensures !IsWanted(h, pieces, Oversize())
  {
    hide MessageOf;
    hide Conforms;
    forall line | line in pieces ensures !Conforms(MessageOf(h, line), Some(Oversize())) {
      OversizeFits(MessageOf(h, line));
    }
  }

  lemma NotificationsAreNotNull(h: Host, pieces: seq<seq<byte>>)
    requires AllNotify(h, pieces)
    ensures NoneIsNull(h, pieces)
  {
  }

  lemma NoneInvalidTail(rs: seq<Response>)
    requires NoneInvalid(rs) && rs != []
    ensures NoneInvalid(rs[1..])
  {
    hide IsError;
  }

  /** Behind a request with a null id, which the server passes over, conforming responses are only
      possible if an oversize error follows and nothing else was owed. */
  lemma BehindNull(h: Host, served: seq<seq<byte>>, rest: seq<seq<byte>>, k: nat, tail: seq<Response>)
    requires tail == [] || tail == [Oversize()]
    ensures
      var rs := Replies(h, served, k) + tail;
      (rs != [] && AllConform(h, served + rest, rs[1..])) <==>
        tail == [Oversize()] && AllNotify(h, served) && AllNotify(h, rest)
  {
    var replies, all := Replies(h, served, k), served + rest;
    var rs := replies + tail;
    assert NoneInvalid(tail);
    hide *;
    if tail == [Oversize()] && AllNotify(h, served) && AllNotify(h, rest) {
      NotificationsAreSilent(h, served, k);
      assert rs[1..] == [];
      PartsApart(h, served, rest);
      SilenceConforms(h, all);
    }
    if rs != [] && AllConform(h, all, rs[1..]) {
      ServerResponses(h, served, k);
      NoneInvalidConcat(replies, tail);
      NoneInvalidTail(rs);
      ConformingResponses(h, all, rs[1..]);
      PartsApart(h, served, rest);
      OwedConcat(h, served, rest);
      NothingOwed(h, rest);
      NothingOwed(h, served);
      if replies != [] && tail == [Oversize()] {
        assert rs[1..][|rs| - 2] == Oversize();
        NotificationsAreNotNull(h, rest);
        NobodyWantsOversize(h, served);
        NobodyWantsOversize(h, rest);
        WantedByEither(h, served, rest, Oversize());
      }
    }
  }

  /** The session ends in an oversize error that a client can take for the answer to line `p`: a call
      with a null id, the last line that is owed anything. */
  ghost predicate ClosesAt(h: Host, pieces: seq<seq<byte>>, n: nat, p: nat) {
    && p < |pieces|
    && IsNullCall(MessageOf(h, pieces[p]))
    && (forall i :: 0 <= i < p ==>
          if i < n then Sound(h, MessageOf(h, pieces[i])) else MessageOf(h, pieces[i]).IsNotification())
    && (forall i :: p < i < |pieces| ==> MessageOf(h, pieces[i]).IsNotification())
  }

  ghost predicate CanClose(h: Host, pieces: seq<seq<byte>>, n: nat) {
    exists p: nat :: ClosesAt(h, pieces, n, p)
  }

  lemma CanCloseCons(h: Host, line: seq<byte>, rest: seq<seq<byte>>, n: nat)
    ensures
      var m := MessageOf(h, line);
      CanClose(h, [line] + rest, n) <==>
        || (IsNullCall(m) && AllNotify(h, rest))
        || ((if n > 0 then Sound(h, m) else m.IsNotification()) && CanClose(h, rest, if n > 0 then n - 1 else 0))
  {
    hide MessageOf;
    hide Sound;
    hide IsNullCall;
    var all, m, n' := [line] + rest, MessageOf(h, line), if n > 0 then n - 1 else 0;
    forall i | 0 <= i < |rest| ensures all[i + 1] == rest[i] {}
    forall i | 0 < i < |all| ensures all[i] == rest[i - 1] {}
    if CanClose(h, all, n) {
      var p: nat :| ClosesAt(h, all, n, p);
      if p == 0 {
        forall i | 0 <= i < |rest| ensures MessageOf(h, rest[i]).IsNotification() {
          assert MessageOf(h, all[i + 1]).IsNotification();
        }
      } else {
        assert all[0] == line;
        assert if 0 < n then Sound(h, MessageOf(h, all[0])) else MessageOf(h, all[0]).IsNotification();
        assert ClosesAt(h, rest, n', p - 1);
      }
    }
    if IsNullCall(m) && AllNotify(h, rest) {
      assert ClosesAt(h, all, n, 0);
    }
    if (if n > 0 then Sound(h, m) else m.IsNotification()) && CanClose(h, rest, n') {
      var p: nat :| ClosesAt(h, rest, n', p);
      assert ClosesAt(h, all, n, p + 1);
    }
  }

  /** What a client can take for conforming, with `n` lines served and no more than an oversize error
      behind them. */
  ghost predicate Passes(h: Host, pieces: seq<seq<byte>>, n: nat, tail: seq<Response>)
    requires n <= |pieces|
  {
    if tail == [] then AllSound(h, pieces[..n]) && AllNotify(h, pieces[n..]) else CanClose(h, pieces, n)
  }

  lemma NothingIsSound(h: Host)
    ensures AllSound(h, [])
  {
  }

  /** What `PassesCons` asks of the first line and of the others. */
  ghost predicate FirstPasses(h: Host, line: seq<byte>, rest: seq<seq<byte>>, n: nat, tail: seq<Response>)
    requires n <= |rest| + 1
  {
    var m, n' := MessageOf(h, line), if n > 0 then n - 1 else 0;
    || (tail != [] && IsNullCall(m) && AllNotify(h, rest))
    || ((if n > 0 then Sound(h, m) else m.IsNotification()) && Passes(h, rest, n', tail))
  }

  lemma PassesCons(h: Host, line: seq<byte>, rest: seq<seq<byte>>, n: nat, tail: seq<Response>)
    requires n <= |rest| + 1
    ensures Passes(h, [line] + rest, n, tail) <==> FirstPasses(h, line, rest, n, tail)
  {
    var all, n' := [line] + rest, if n > 0 then n - 1 else 0;
    hide MessageOf;
    hide Sound;
    hide IsNullCall;
    hide AllNotify;
    hide AllSound;
    hide CanClose;
    CanCloseCons(h, line, rest, n);
    if n > 0 {
      assert all[..n] == [line] + rest[..n'] && all[n..] == rest[n'..];
      FirstLineApart(h, line, rest[..n']);
    } else {
      assert all[..n] == rest[..n'] == [] && all[n..] == all && rest[n'..] == rest;
      FirstLineApart(h, line, rest);
      NothingIsSound(h);
    }
  }

  /** How the reply to a line that is served bears on it. */
  lemma ServedLine(h: Host, k: nat, line: seq<byte>)
    ensures
      var m, reply := MessageOf(h, line), Reply(h, k, line);
      && (m.IsNotification() ==> reply.None? && Sound(h, m))
      && (reply.Some? ==> (Conforms(m, reply) <==> Sound(h, m)) && !m.IsNotification() && !IsNullCall(m))
      && (reply.None? && !m.IsNotification() ==> !Sound(h, m))
      && (reply.None? && !m.IsNotification() && !m.IsRequestObject() ==>
            !IsNullCall(m) && forall r :: Conforms(m, Some(r)) ==> IsError(Some(r), -32600))
  {
    ReplyConformsIff(h, k, line);
  }

  lemma PassesSilently(h: Host, pieces: seq<seq<byte>>)
    ensures Passes(h, pieces, 0, []) <==> AllNotify(h, pieces)
  {
    assert pieces[0..] == pieces;
  }

  /** A line that is not served takes the oversize error or nothing. */
  lemma NotServed(h: Host, line: seq<byte>, rest: seq<seq<byte>>, tail: seq<Response>)
    requires tail == [] || tail == [Oversize()]
    requires AllConform(h, rest, tail) <==> Passes(h, rest, 0, tail)
    requires AllConform(h, rest, []) <==> AllNotify(h, rest)
    ensures AllConform(h, [line] + rest, tail) <==> FirstPasses(h, line, rest, 0, tail)
  {
    NextConforms(h, line, rest, tail);
    OversizeFits(MessageOf(h, line));
    PassesSilently(h, rest);
    if tail != [] { assert tail[1..] == []; }
    hide AllConform;
    hide Passes;
    hide MessageOf;
    hide Conforms;
    hide AllNotify;
  }

  lemma NullServed(h: Host, line: seq<byte>, rest: seq<seq<byte>>, n: nat, k: nat, tail: seq<Response>)
    requires n <= |rest| && (tail == [] || tail == [Oversize()])
    requires MessageOf(h, line).IsRequestObject()
    ensures
      var rs := Replies(h, rest[..n], k + 1) + tail;
      (rs != [] && Conforms(MessageOf(h, line), Some(rs[0])) && AllConform(h, rest, rs[1..])) <==>
        tail != [] && IsNullCall(MessageOf(h, line)) && AllNotify(h, rest)
  {
    var rs := Replies(h, rest[..n], k + 1) + tail;
    hide *;
    assert rest[..n] + rest[n..] == rest;
    BehindNull(h, rest[..n], rest[n..], k + 1, tail);
    PartsApart(h, rest[..n], rest[n..]);
    OversizeFits(MessageOf(h, line));
    if AllNotify(h, rest) {
      NotificationsAreSilent(h, rest[..n], k + 1);
      assert rs == tail;
    }
  }

  /** A line that is served takes its own reply, or none, or, if it is a request with a null id, the one
      that follows. */
  lemma Served(h: Host, line: seq<byte>, rest: seq<seq<byte>>, n: nat, k: nat, tail: seq<Response>)
    requires n <= |rest| && (tail == [] || tail == [Oversize()])
    requires AllConform(h, rest, Replies(h, rest[..n], k + 1) + tail) <==> Passes(h, rest, n, tail)
    ensures
      var rs := Written(Reply(h, k, line)) + Replies(h, rest[..n], k + 1) + tail;
      AllConform(h, [line] + rest, rs) <==> FirstPasses(h, line, rest, n + 1, tail)
  {
    var m, reply := MessageOf(h, line), Reply(h, k, line);
    var replies := Replies(h, rest[..n], k + 1);
    var rs := Written(reply) + replies + tail;
    ServedLine(h, k, line);
    NextConforms(h, line, rest, rs);
    hide Reply;
    hide MessageOf;
    hide Conforms;
    hide Sound;
    hide AllConform;
    hide Passes;
    hide AllNotify;
    hide Replies;
    if reply.Some? {
      assert rs == [reply.value] + (replies + tail);
    } else {
      assert rs == replies + tail;
      if !m.IsNotification() {
        if m.IsRequestObject() {
          NullServed(h, line, rest, n, k, tail);
        } else {
          ServerResponses(h, rest[..n], k + 1);
          NoneInvalidConcat(replies, tail);
        }
      }
    }
  }

  lemma PassesNothing(h: Host, k: nat, tail: seq<Response>)
    requires tail == [] || tail == [Oversize()]
    ensures AllConform(h, [], Replies(h, [], k) + tail) <==> Passes(h, [], 0, tail)
  {
    assert Replies(h, [], k) + tail == tail;
  }

  lemma NoReplies(h: Host, pieces: seq<seq<byte>>, k: nat, tail: seq<Response>)
    ensures Replies(h, pieces[..0], k) + tail == tail
  {
  }

  lemma {:induction false} PassesIff(h: Host, pieces: seq<seq<byte>>, n: nat, k: nat, tail: seq<Response>)
    requires n <= |pieces| && (tail == [] || tail == [Oversize()])
    ensures AllConform(h, pieces, Replies(h, pieces[..n], k) + tail) <==> Passes(h, pieces, n, tail)
    decreases |pieces|
  {
    if pieces == [] {
      PassesNothing(h, k, tail);
    } else {
      var line, rest := pieces[0], pieces[1..];
      assert pieces == [line] + rest;
      hide *;
      PassesCons(h, line, rest, n, tail);
      if n == 0 {
        NoReplies(h, pieces, k, tail);
        NoReplies(h, rest, k, tail);
        NoReplies(h, rest, k, []);
        PassesIff(h, rest, 0, k, tail);
        PassesIff(h, rest, 0, k, []);
        PassesSilently(h, rest);
        NotServed(h, line, rest, tail);
      } else {
        assert pieces[..n] == [line] + rest[..n - 1];
        RepliesCons(h, line, rest[..n - 1], k);
        PassesIff(h, rest, n - 1, k + 1, tail);
        Served(h, line, rest, n - 1, k, tail);
      }
    }
  }

  /** A client can take the whole session for conforming exactly in two cases. Without an over-long line,
      if all lines served are sound and any line cut off by an error is a notification. With one, if the
      oversize error that ends the session can be taken for the answer to a call with a null id, the
      last line that is owed anything. */
  lemma SessionConformsIff(h: Host, stream: seq<byte>, end: Ending, max: nat)
    ensures
      var pieces := Split(stream);
      var n := ServedCount(pieces, end, max);
      AllConform(h, pieces, Transcript(h, stream, end, max, 0)) <==>
        if n < |pieces| && |pieces[n]| > max then CanClose(h, pieces, n)
        else AllSound(h, pieces[..n]) && AllNotify(h, pieces[n..])
  {
    var pieces := Split(stream);
    var n := ServedCount(pieces, end, max);
    var tail := if n < |pieces| && |pieces[n]| > max then [Oversize()] else [];
    TranscriptIsPerLine(h, stream, end, max, 0);
    assert PerLine(h, pieces, end, max, 0) == Replies(h, pieces[..n], 0) + tail;
    PassesIff(h, pieces, n, 0, tail);
    hide Split;
    hide Transcript;
    hide PerLine;
    hide Replies;
    hide AllConform;
    hide AllSound;
    hide CanClose;
  }

  lemma HandledPasses(h: Host, pieces: seq<seq<byte>>, end: Ending, max: nat)
    requires forall i :: 0 <= i < |pieces| ==> IsHandled(h, pieces, end, max, i)
    ensures
      var n := ServedCount(pieces, end, max);
      if n < |pieces| && |pieces[n]| > max then CanClose(h, pieces, n)
      else AllSound(h, pieces[..n]) && AllNotify(h, pieces[n..])
  {
    var n := ServedCount(pieces, end, max);
    hide MessageOf;
    hide Sound;
    hide IsNullCall;
    hide ServedCount;
    if n < |pieces| && |pieces[n]| > max {
      assert IsHandled(h, pieces, end, max, n);
      assert ClosesAt(h, pieces, n, n) by {
        forall i | 0 <= i < n ensures Sound(h, MessageOf(h, pieces[i])) {
          assert IsHandled(h, pieces, end, max, i);
        }
        forall i | n < i < |pieces| ensures MessageOf(h, pieces[i]).IsNotification() {
          assert IsHandled(h, pieces, end, max, i);
        }
      }
    } else {
      forall i | 0 <= i < |pieces[..n]| ensures Sound(h, MessageOf(h, pieces[..n][i])) {
        assert IsHandled(h, pieces, end, max, i);
      }
      forall i | 0 <= i < |pieces[n..]| ensures MessageOf(h, pieces[n..][i]).IsNotification() {
        assert IsHandled(h, pieces, end, max, n + i);
      }
    }
  }

  /** A session in which each line gets what is required for it passes with the client. */
  lemma HandledSessionConforms(h: Host, stream: seq<byte>, end: Ending, max: nat)
    requires forall i :: 0 <= i < |Split(stream)| ==> IsHandled(h, Split(stream), end, max, i)
    ensures AllConform(h, Split(stream), Transcript(h, stream, end, max, 0))
  {
    hide *;
    SessionConformsIff(h, stream, end, max);
    HandledPasses(h, Split(stream), end, max);
  }

  /** The converse fails: behind a ping with a null id, which is dropped, an over-long notification,
      which should get no response, yields one that passes for the answer to the ping. */
  lemma OversizeStandsIn(h: Host, ping: seq<byte>, note: seq<byte>, end: Ending, max: nat)
    requires |ping| <= max < |note| && EndsLine(ping) && MessageOf(h, note).IsNotification()
    requires MessageOf(h, ping) == Fit(true, "2.0", NullId, "ping", NoParams)
    ensures ServedCount([ping, note], end, max) == 1 && CanClose(h, [ping, note], 1)
    ensures !IsHandled(h, [ping, note], end, max, 0) && !IsHandled(h, [ping, note], end, max, 1)
  {
    hide MessageOf;
    var pieces := [ping, note];
    assert pieces[1..] == [note];
    assert ServedCount([note], end, max) == 0;
    assert ServedCount(pieces, end, max) == 1;
    hide ServedCount;
    assert ClosesAt(h, pieces, 1, 0);
  }

  // ---------------------------------------------------------------------------------------------
  // The same requests over HTTP

  /** The JSON-RPC response in the answer to an authorized and admitted request: `process_request_http`
      answers whatever parses; what does not gets the status 400 and no JSON. */
  function HttpReply(h: Host, k: nat, m: Message): Option<Response> {
    match RequestOf(m)
    case Failure(_) => None
    case Success(req) => Some(Respond(h, k, req))
  }

  /** Over HTTP the server conforms exactly on the Request objects that have an id, null or not, and call
      no missing tool: it answers notifications too, and says nothing in JSON-RPC of what is no request. */
  lemma HttpConformsIff(h: Host, k: nat, m: Message)
    ensures Conforms(m, HttpReply(h, k, m)) <==> m.IsRequestObject() && !m.id.NoId? && !CallsNoTool(h, m)
  {
    if m.Fit? {
      MissingMethod(h, k, RequestOf(m).value);
    }
  }
}
