/** The stdio session of src/server.rs: lines in, JSON-RPC 2.0 responses out. Parsing of JSON and the
    tools themselves are parameters. */
module Session {
  import opened Wrappers
  import opened Utf8
  import opened LineReader
  import opened Sequences
  import T = Text

  /** JSON values stay in their serialised form. */
  type Json = string

  /** The `id` member of a JSON object. */
  datatype Id = NoId | NullId | Scalar(json: Json) | OtherId(json: Json)

  /** Its `params` member; only an array or an object is structured. */
  datatype Params = NoParams | NullParams | Structured(json: Json) | OtherParams(json: Json)

  /** What a line holds: no JSON; JSON that the derived `Deserialize` refuses; JSON that it takes,
      which it also does to an array of the four members (`isObject` is then false). */
  datatype Message =
    | Malformed(text: string)
    | Unfit(text: string)
    | Fit(isObject: bool, version: string, id: Id, name: string, params: Params)
  {
    /** A Request object: section 4 of the JSON-RPC 2.0 specification. */
    predicate IsRequestObject() {
      Fit? && isObject && version == "2.0" && !id.OtherId? && !params.NullParams? && !params.OtherParams?
    }

    /** A Request object, or no JSON. */
    predicate MaybeRequest() {
      Malformed? || IsRequestObject()
    }

    /** A notification: section 4.1. */
    predicate IsNotification() {
      IsRequestObject() && id.NoId?
    }
  }

  /** `JsonRpcRequest`, which merges an absent member and one that is null. */
  datatype Request = Request(id: Option<Json>, name: string, params: Option<Json>)

  datatype RpcError = RpcError(code: int, message: string, data: Option<Json>)

  datatype Response = Response(id: Option<Json>, result: Option<Json>, error: Option<RpcError>) {
    /** Section 5 of the JSON-RPC 2.0 specification: either a result or an error, never both. */
    predicate WellFormed() { result.Some? != error.Some? }
  }

  datatype ServerError =
    | ParseError(text: string) | MethodNotFound(text: string) | InvalidParams(text: string)
    | JsonError(text: string) | ProviderError(text: string) | ConfigError(text: string)
    | UrlNotAllowed(text: string) | HttpError(text: string) | ResponseTooLarge(text: string)
    | Timeout(text: string) | RateLimited(text: string)
  {
    function Code(): int {
      match this
      case ParseError(_) => -32700
      case MethodNotFound(_) => -32601
      case InvalidParams(_) => -32602
      case JsonError(_) => -32700
      case ProviderError(_) => -32000
      case ConfigError(_) => -32001
      case UrlNotAllowed(_) => -32002
      case HttpError(_) => -32003
      case ResponseTooLarge(_) => -32004
      case Timeout(_) => -32005
      case RateLimited(_) => -32006
    }

    function Data(): Option<Json> {
      if RateLimited? then Some("{\"retryAfter\":1}") else None
    }
  }

  function SuccessResponse(id: Option<Json>, result: Json): Response {
    Response(id, Some(result), None)
  }

  function ErrorResponse(id: Option<Json>, e: ServerError): Response {
    Response(id, None, Some(RpcError(e.Code(), e.text, e.Data())))
  }

  /** How a request comes back through `tokio::time::timeout`. */
  datatype Served = Answered(result: Result<Json, ServerError>) | TimedOut

  /** The surroundings of a session: lossy UTF-8 decoding, the JSON parser, the tool a call names, the
      tools there are, what they return for line `k` (their failures wrapped as results) unless that
      takes too long, and the fixed payloads. */
  datatype Host = Host(
    decode: seq<byte> -> string,
    parse: string -> Message,
    toolName: Request -> Option<string>,
    available: string -> bool,
    run: (nat, Request) -> Option<Json>,
    initialize: Request -> Json,
    toolsList: Json,
    timeoutResult: Json)

  function MessageOf(h: Host, line: seq<byte>): Message {
    var trimmed := T.Trim(h.decode(line));
    if trimmed == "" then Malformed("Empty request") else h.parse(trimmed)
  }

  /** What the derived `Deserialize` makes of a message. */
  function RequestOf(m: Message): Result<Request, string> {
    match m
    case Malformed(text) => Failure(text)
    case Unfit(text) => Failure(text)
    case Fit(_, _, id, name, params) =>
      Success(Request(if id.NoId? || id.NullId? then None else Some(id.json), name,
                      if params.NoParams? || params.NullParams? then None else Some(params.json)))
  }

  /** `parse_request`. */
  function ParseRequest(h: Host, line: seq<byte>): Result<Request, string> {
    RequestOf(MessageOf(h, line))
  }

  /** The methods there are. */
  predicate IsMethod(name: string) {
    || name in {"initialize", "tools/list", "tools/call", "logging/setLevel", "ping"}
    || StartsWith(name, "notifications/")
  }

  /** `handle_tools_call`. */
  function CallTool(h: Host, k: nat, req: Request): Served {
    if h.toolName(req).None? then Answered(Failure(InvalidParams("missing tool name")))
    else if !h.available(h.toolName(req).value) then Answered(Failure(MethodNotFound(h.toolName(req).value)))
    else if h.run(k, req).None? then TimedOut
    else Answered(Success(h.run(k, req).value))
  }

  /** `process_request` under the timeout; only `tools/call` awaits anything. */
  function ProcessRequest(h: Host, k: nat, req: Request): Served {
    if req.name == "initialize" then Answered(Success(h.initialize(req)))
    else if req.name == "tools/list" then Answered(Success(h.toolsList))
    else if req.name == "tools/call" then CallTool(h, k, req)
    else if req.name == "logging/setLevel" then Answered(Success("{}"))
    else if req.name == "ping" then Answered(Success("null"))
    else if StartsWith(req.name, "notifications/") then Answered(Success("null"))
    else Answered(Failure(MethodNotFound(req.name)))
  }

  function TimeoutResponse(h: Host, req: Request): Response {
    if req.name == "tools/call" then SuccessResponse(req.id, h.timeoutResult)
    else ErrorResponse(req.id, Timeout("request timed out"))
  }

  function Respond(h: Host, k: nat, req: Request): Response {
    match ProcessRequest(h, k, req)
    case Answered(Success(v)) => SuccessResponse(req.id, v)
    case Answered(Failure(e)) => ErrorResponse(req.id, e)
    case TimedOut => TimeoutResponse(h, req)
  }

  /** `process_one_line`: the response to line `k`, if it asks for one. */
  function Reply(h: Host, k: nat, line: seq<byte>): Option<Response> {
    match ParseRequest(h, line)
    case Failure(message) => Some(ErrorResponse(None, ParseError(message)))
    case Success(req) => if req.id.None? then None else Some(Respond(h, k, req))
  }

  function Oversize(): Response {
    ErrorResponse(None, InvalidParams("request exceeds maximum size"))
  }

  /** What the server makes of a line: what it takes for a request gets exactly one well-formed response
      with its own id, what it takes for a notification none, and what it cannot parse, an empty line
      included, an error -32700 with the id null. */
  lemma ReplyMeaning(h: Host, k: nat, line: seq<byte>)
    ensures ParseRequest(h, line).Success? && ParseRequest(h, line).value.id.None? ==> Reply(h, k, line).None?
    ensures ParseRequest(h, line).Success? && ParseRequest(h, line).value.id.Some? ==>
      Reply(h, k, line).Some? && Reply(h, k, line).value.id == ParseRequest(h, line).value.id
    ensures ParseRequest(h, line).Failure? ==>
      && Reply(h, k, line).Some?
      && Reply(h, k, line).value.id == None
      && Reply(h, k, line).value.error.Some?
      && Reply(h, k, line).value.error.value.code == -32700
    ensures Reply(h, k, line).Some? ==> Reply(h, k, line).value.WellFormed()
    ensures T.Trim(h.decode(line)) == "" ==> Reply(h, k, line).Some?
  {
  }

  // ---------------------------------------------------------------------------------------------
  // The loop

  function Written(r: Option<Response>): seq<Response> {
    if r.Some? then [r.value] else []
  }

  /** What the session writes while `stream` arrives, line `k` first. */
  ghost function Transcript(h: Host, stream: seq<byte>, end: Ending, max: nat, k: nat): seq<Response>
    decreases |stream|
  {
    match FirstRead(stream, end, max)
    case Eof => []
    case IoError => []
    case TooLong => [Oversize()]
    case Line =>
      var n := LineLen(stream);
      Written(Reply(h, k, stream[..n])) + Transcript(h, stream[n..], end, max, k + 1)
  }

  lemma LinesAreNotEmpty(stream: seq<byte>, end: Ending, max: nat)
    ensures FirstRead(stream, end, max) == Line ==> 0 < LineLen(stream) <= |stream|
  {
  }

  lemma TranscriptStep(h: Host, stream: seq<byte>, end: Ending, max: nat, k: nat, out: seq<Response>)
    requires FirstRead(stream, end, max) == Line
    ensures
      var n := LineLen(stream);
      out + Transcript(h, stream, end, max, k)
      == out + Written(Reply(h, k, stream[..n])) + Transcript(h, stream[n..], end, max, k + 1)
  {
    hide Reply;
    hide LineLen;
  }

  /** `run_stdio`: what is written depends on the bytes that arrive and on how they end, and not on
      how they are cut into pieces. */
  method RunStdio(h: Host, reader: Reader, max: nat) returns (out: seq<Response>)
    requires reader.Valid()
    modifies reader
    ensures out == Transcript(h, old(reader.Stream()), old(reader.End()), max, 0)
  {
    hide reader.Valid;
    hide reader.Stream;
    hide reader.End;
    hide Reply;
    hide LineLen;
    out := [];
    var k := 0;
    ghost var goal := Transcript(h, reader.Stream(), reader.End(), max, 0);
    while true
      invariant reader.Valid()
      invariant out + Transcript(h, reader.Stream(), reader.End(), max, k) == goal
      decreases |reader.Stream()|
    {
      ghost var stream, end := reader.Stream(), reader.End();
      LinesAreNotEmpty(stream, end, max);
      var r, line, n := ReadLineCapped(reader, max);
      match r {
        case Eof => break;
        case IoError => break;
        case TooLong =>
          out := out + [Oversize()];
          break;
        case Line =>
          var reply := Reply(h, k, line);
          TranscriptStep(h, stream, end, max, k, out);
          out := out + Written(reply);
          k := k + 1;
      }
    }
  }

  // ---------------------------------------------------------------------------------------------
  // The transcript line by line

  /** The stream cut after every newline. */
  ghost function Split(stream: seq<byte>): seq<seq<byte>>
    decreases |stream|
  {
    if stream == [] then [] else [stream[..LineLen(stream)]] + Split(stream[LineLen(stream)..])
  }

  function Concat(pieces: seq<seq<byte>>): seq<byte> {
    if pieces == [] then [] else pieces[0] + Concat(pieces[1..])
  }

  predicate EndsLine(piece: seq<byte>) {
    piece != [] && piece[|piece| - 1] == NEWLINE
  }

  /** A piece of the cut: not empty, and a newline stands only at its end. */
  ghost predicate IsPiece(piece: seq<byte>) {
    piece != [] && forall j :: 0 <= j < |piece| - 1 ==> piece[j] != NEWLINE
  }

  lemma ConcatCons(piece: seq<byte>, rest: seq<seq<byte>>)
    ensures Concat([piece] + rest) == piece + Concat(rest)
  {
    assert ([piece] + rest)[1..] == rest;
  }

  lemma FirstPiece(stream: seq<byte>)
    requires stream != []
    ensures IsPiece(stream[..LineLen(stream)])
    ensures EndsLine(stream[..LineLen(stream)]) <==> HasNewline(stream)
    ensures |stream[..LineLen(stream)]| == LineLen(stream)
  {
  }

  lemma SplitCons(stream: seq<byte>)
    requires stream != []
    ensures
      var n := LineLen(stream);
      && Split(stream) == [stream[..n]] + Split(stream[n..])
      && stream == stream[..n] + stream[n..]
      && (!HasNewline(stream) ==> Split(stream[n..]) == [])
  {
  }

  /** Pieces as `Split` leaves them. */
  ghost predicate ArePieces(pieces: seq<seq<byte>>) {
    && (forall i :: 0 <= i < |pieces| ==> IsPiece(pieces[i]))
    && (forall i :: 0 <= i < |pieces| - 1 ==> EndsLine(pieces[i]))
  }

  lemma ArePiecesCons(piece: seq<byte>, rest: seq<seq<byte>>)
    requires ArePieces(rest) && IsPiece(piece) && (rest == [] || EndsLine(piece))
    ensures ArePieces([piece] + rest)
  {
    hide IsPiece;
    hide EndsLine;
    var all := [piece] + rest;
    assert forall i :: 0 < i < |all| ==> all[i] == rest[i - 1];
  }

  /** The cut loses nothing, and only the last piece may lack its newline. */
  lemma {:induction false} SplitMeaning(stream: seq<byte>)
    ensures Concat(Split(stream)) == stream
    ensures ArePieces(Split(stream))
    decreases |stream|
  {
    if stream == [] {
    } else {
      hide *;
      SplitCons(stream);
      FirstPiece(stream);
      var n := LineLen(stream);
      SplitMeaning(stream[n..]);
      ConcatCons(stream[..n], Split(stream[n..]));
      ArePiecesCons(stream[..n], Split(stream[n..]));
    }
  }

  /** The piece is served: it fits, and an I/O error has not eaten the rest of it. */
  predicate IsServed(piece: seq<byte>, end: Ending, max: nat) {
    |piece| <= max && (EndsLine(piece) || end == AtEof)
  }

  /** How many pieces are served before one is not. */
  function ServedCount(pieces: seq<seq<byte>>, end: Ending, max: nat): (n: nat)
    ensures n <= |pieces|
    ensures forall i :: 0 <= i < n ==> IsServed(pieces[i], end, max)
    ensures n < |pieces| ==> !IsServed(pieces[n], end, max)
  {
    if pieces == [] || !IsServed(pieces[0], end, max) then 0 else 1 + ServedCount(pieces[1..], end, max)
  }

  /** The responses to some pieces, numbered from `k`. */
  function Replies(h: Host, pieces: seq<seq<byte>>, k: nat): seq<Response> {
    if pieces == [] then [] else Written(Reply(h, k, pieces[0])) + Replies(h, pieces[1..], k + 1)
  }

  /** One reply for each line that wants one, in order, up to the first line that is not served; if
      that line is too long, one error for it, and nothing more. */
  function PerLine(h: Host, pieces: seq<seq<byte>>, end: Ending, max: nat, k: nat): seq<Response> {
    var n := ServedCount(pieces, end, max);
    Replies(h, pieces[..n], k) + (if n < |pieces| && |pieces[n]| > max then [Oversize()] else [])
  }

  /** The outcome of reading a line, told by the piece that was read. */
  lemma FirstReadOf(stream: seq<byte>, end: Ending, max: nat)
    requires stream != []
    ensures
      var piece := stream[..LineLen(stream)];
      && (FirstRead(stream, end, max) == Line <==> IsServed(piece, end, max))
      && (FirstRead(stream, end, max) == TooLong <==> |piece| > max)
      && FirstRead(stream, end, max) != Eof
  {
    FirstPiece(stream);
    hide LineLen;
    hide HasNewline;
    hide EndsLine;
  }

  lemma PerLineNotServed(h: Host, piece: seq<byte>, rest: seq<seq<byte>>, end: Ending, max: nat, k: nat)
    requires !IsServed(piece, end, max)
    ensures PerLine(h, [piece] + rest, end, max, k) == if |piece| > max then [Oversize()] else []
  {
    hide IsServed;
    hide Reply;
    var pieces := [piece] + rest;
    assert ServedCount(pieces, end, max) == 0;
    assert Replies(h, pieces[..0], k) == [];
  }

  lemma PerLineServed(h: Host, piece: seq<byte>, rest: seq<seq<byte>>, end: Ending, max: nat, k: nat)
    requires IsServed(piece, end, max)
    ensures PerLine(h, [piece] + rest, end, max, k) == Written(Reply(h, k, piece)) + PerLine(h, rest, end, max, k + 1)
  {
    hide IsServed;
    hide Reply;
    hide Written;
    var pieces, n := [piece] + rest, ServedCount(rest, end, max);
    assert pieces[1..] == rest;
    assert ServedCount(pieces, end, max) == n + 1;
    assert n < |rest| ==> pieces[n + 1] == rest[n];
    var others := Replies(h, rest[..n], k + 1);
    assert Replies(h, pieces[..n + 1], k) == Written(Reply(h, k, piece)) + others by {
      assert pieces[..n + 1] == [piece] + rest[..n];
      assert ([piece] + rest[..n])[1..] == rest[..n];
    }
    hide Replies;
    hide ServedCount;
    Regroup(Written(Reply(h, k, piece)), others, if n < |rest| && |rest[n]| > max then [Oversize()] else []);
  }

  lemma NoLines(h: Host, end: Ending, max: nat, k: nat)
    ensures Transcript(h, [], end, max, k) == PerLine(h, Split([]), end, max, k)
  {
  }

  lemma LineStep(h: Host, stream: seq<byte>, end: Ending, max: nat, k: nat)
    requires FirstRead(stream, end, max) == Line
    ensures
      var n := LineLen(stream);
      Transcript(h, stream, end, max, k)
      == Written(Reply(h, k, stream[..n])) + Transcript(h, stream[n..], end, max, k + 1)
  {
    hide Reply;
    hide Written;
    hide LineLen;
    hide FirstRead;
  }

  lemma LastStep(h: Host, stream: seq<byte>, end: Ending, max: nat, k: nat)
    requires FirstRead(stream, end, max) != Line
    ensures Transcript(h, stream, end, max, k) == if FirstRead(stream, end, max) == TooLong then [Oversize()] else []
  {
    hide FirstRead;
  }

  /** What `run_stdio` writes is what its lines are owed. */
  lemma {:induction false} TranscriptIsPerLine(h: Host, stream: seq<byte>, end: Ending, max: nat, k: nat)
    ensures Transcript(h, stream, end, max, k) == PerLine(h, Split(stream), end, max, k)
    decreases |stream|
  {
    if stream == [] {
      NoLines(h, end, max, k);
    } else {
      hide *;
      var n := LineLen(stream);
      FirstPiece(stream);
      SplitCons(stream);
      FirstReadOf(stream, end, max);
      if FirstRead(stream, end, max) == Line {
        LineStep(h, stream, end, max, k);
        TranscriptIsPerLine(h, stream[n..], end, max, k + 1);
        PerLineServed(h, stream[..n], Split(stream[n..]), end, max, k);
      } else {
        LastStep(h, stream, end, max, k);
        PerLineNotServed(h, stream[..n], Split(stream[n..]), end, max, k);
      }
    }
  }

  /** The ids of the lines that ask for a response; `None` stands for null. */
  function Ids(h: Host, pieces: seq<seq<byte>>): seq<Option<Json>> {
    if pieces == [] then []
    else
      (match ParseRequest(h, pieces[0])
       case Failure(_) => [None]
       case Success(req) => if req.id.None? then [] else [req.id])
      + Ids(h, pieces[1..])
  }

  function ResponseIds(rs: seq<Response>): seq<Option<Json>> {
    if rs == [] then [] else [rs[0].id] + ResponseIds(rs[1..])
  }

  /** Request and response ids agree one to one and in order, and every response is well-formed. */
  lemma {:induction false} RepliesEchoIds(h: Host, pieces: seq<seq<byte>>, k: nat)
    ensures ResponseIds(Replies(h, pieces, k)) == Ids(h, pieces)
    ensures forall i :: 0 <= i < |Replies(h, pieces, k)| ==> Replies(h, pieces, k)[i].WellFormed()
  {
    if pieces == [] {
    } else {
      RepliesEchoIds(h, pieces[1..], k + 1);
      ReplyMeaning(h, k, pieces[0]);
      hide Reply;
      var first, rest := Written(Reply(h, k, pieces[0])), Replies(h, pieces[1..], k + 1);
      if first == [] {
        assert [] + rest == rest;
      } else {
        assert ([first[0]] + rest)[1..] == rest;
      }
    }
  }
}
