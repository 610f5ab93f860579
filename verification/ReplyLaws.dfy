/** Which result each method is answered with, by its literal name. */
module ReplyLaws {
  import opened Wrappers
  import opened Utf8
  import opened Sequences
  import opened LineReader
  import opened Session
  import opened Conformance

  /** The request of a message, with what is null left out. */
  function Given(id: Id): Option<Json> {
    match id
    case Scalar(json) => Some(json)
    case OtherId(json) => Some(json)
    case _ => None
  }

  function GivenParams(params: Params): Option<Json> {
    match params
    case Structured(json) => Some(json)
    case OtherParams(json) => Some(json)
    case _ => None
  }

  lemma RequestIs(m: Message)
    requires m.Fit?
    ensures RequestOf(m) == Success(Request(Given(m.id), m.name, GivenParams(m.params)))
  {
  }

  predicate IsResult(r: Response, id: Option<Json>, result: Json) {
    r == Response(id, Some(result), None)
  }

  predicate IsFailure(r: Response, id: Option<Json>, code: int) {
    r.id == id && r.result.None? && r.error.Some? && r.error.value.code == code
  }

  predicate IsNotificationName(name: string) {
    |name| >= 14 && name[..14] == "notifications/"
  }

  predicate IsNoMethod(name: string) {
    && name !in {"initialize", "tools/list", "logging/setLevel", "ping", "tools/call"}
    && !IsNotificationName(name)
  }

  /** Every method's result, over stdio and HTTP alike. */
  lemma ResultByName(h: Host, k: nat, req: Request)
    ensures
      var r := Respond(h, k, req);
      && (req.name == "initialize" ==> IsResult(r, req.id, h.initialize(req)))
      && (req.name == "tools/list" ==> IsResult(r, req.id, h.toolsList))
      && (req.name == "logging/setLevel" ==> IsResult(r, req.id, "{}"))
      && (req.name == "ping" ==> IsResult(r, req.id, "null"))
      && (IsNotificationName(req.name) ==> IsResult(r, req.id, "null"))
      && (IsNoMethod(req.name) ==> IsFailure(r, req.id, -32601))
  {
    if IsNotificationName(req.name) { assert req.name[0] == req.name[..14][0] == 'n'; }
    assert |"notifications/"| == 14;
  }

  /** A call is answered by what its tool returns, by the timeout payload if it takes too long, and by an
      error if it names no tool or one that is not there. */
  lemma CallByTool(h: Host, k: nat, req: Request)
    requires req.name == "tools/call"
    ensures
      var r, tool := Respond(h, k, req), h.toolName(req);
      if tool.None? then IsFailure(r, req.id, -32602)
      else if !h.available(tool.value) then IsFailure(r, req.id, -32601)
      else IsResult(r, req.id, if h.run(k, req).Some? then h.run(k, req).value else h.timeoutResult)
  {
  }

  /** From the line to the response that the session writes for it. */
  lemma AnswerByName(h: Host, pieces: seq<seq<byte>>, end: Ending, max: nat, i: nat)
    requires i < |pieces| && i < ServedCount(pieces, end, max)
    requires MessageOf(h, pieces[i]).Fit? && Given(MessageOf(h, pieces[i]).id).Some?
    ensures
      var m := MessageOf(h, pieces[i]);
      var req := Request(Given(m.id), m.name, GivenParams(m.params));
      && AnswerTo(h, pieces, end, max, i) == Some(Respond(h, i, req))
      && (m.name == "initialize" ==> IsResult(AnswerTo(h, pieces, end, max, i).value, req.id, h.initialize(req)))
      && (m.name == "tools/list" ==> IsResult(AnswerTo(h, pieces, end, max, i).value, req.id, h.toolsList))
      && (m.name == "ping" ==> IsResult(AnswerTo(h, pieces, end, max, i).value, req.id, "null"))
  {
    var m := MessageOf(h, pieces[i]);
    RequestIs(m);
    ResultByName(h, i, Request(Given(m.id), m.name, GivenParams(m.params)));
    hide MessageOf;
    hide Respond;
    hide ServedCount;
  }

  /** What is no request gets -32700, and the first over-long line -32602, both under the id null. */
  lemma OtherAnswers(h: Host, pieces: seq<seq<byte>>, end: Ending, max: nat, i: nat)
    requires i < |pieces|
    ensures i < ServedCount(pieces, end, max) && !MessageOf(h, pieces[i]).Fit? ==>
      AnswerTo(h, pieces, end, max, i).Some? && IsFailure(AnswerTo(h, pieces, end, max, i).value, None, -32700)
    ensures i == ServedCount(pieces, end, max) && |pieces[i]| > max ==>
      AnswerTo(h, pieces, end, max, i).Some? && IsFailure(AnswerTo(h, pieces, end, max, i).value, None, -32602)
    ensures i > ServedCount(pieces, end, max) ==> AnswerTo(h, pieces, end, max, i) == None
  {
    hide MessageOf;
    hide ServedCount;
  }

  /** Only the answers to "tools/list" depend on the tools list: with another one, all else stays. */
  lemma ToolsListStaysApart(h: Host, list: Json, pieces: seq<seq<byte>>, end: Ending, max: nat, i: nat)
    requires i < |pieces|
    ensures
      var h' := h.(toolsList := list);
      var m, old' := MessageOf(h, pieces[i]), AnswerTo(h, pieces, end, max, i);
      AnswerTo(h', pieces, end, max, i) ==
        if i < ServedCount(pieces, end, max) && m.Fit? && m.name == "tools/list" && old'.Some? then
          Some(Response(old'.value.id, Some(list), None))
        else old'
  {
    var h' := h.(toolsList := list);
    assert MessageOf(h', pieces[i]) == MessageOf(h, pieces[i]);
    hide ServedCount;
    hide MessageOf;
  }
}
