/** The two loops that follow redirects by hand (section 15.4 of RFC 9110): `fetch_page` of
    src/client.rs with its capped body reader, and `web_fetch_headers` of src/actions/fetch.rs. */
module Redirects {
  import opened Wrappers
  import opened Sequences
  import opened Utf8

  /** A parsed URL in its serialised form. */
  type Url = string

  const USIZE_MAX: nat := 0xFFFF_FFFF_FFFF_FFFF

  datatype FetchError =
    | Rejected(text: string) | NoClient(text: string) | TimedOut | NotReached
    | NoLocation(hop: nat) | BadTarget(location: string) | TooManyRedirects | AfterLastHop
    | BadStatus(code: nat) | BrokenBody | BodyTooLarge

  datatype BodyEvent = Piece(data: seq<byte>) | Broken

  datatype Reply = Reply(status: nat, location: Option<string>, body: seq<BodyEvent>) {
    predicate IsRedirect() { 300 <= status < 400 }
    predicate IsSuccess() { 200 <= status < 300 }
  }

  datatype Sent = NoAnswer | SendError(isTimeout: bool) | Answer(reply: Reply)

  /** What the network and the URL library answer in one run; the number is that of the hop. */
  datatype World = World(
    validate: (nat, string) -> Result<Url, string>,
    join: (Url, string) -> Option<Url>,
    client: (nat, Url) -> Option<string>,
    send: (nat, Url) -> Sent)
  {
    /** `client_for`, then `send` under the timeout. */
    function Request(hop: nat, url: Url): Result<Reply, FetchError> {
      if client(hop, url).Some? then Failure(NoClient(client(hop, url).value))
      else
        match send(hop, url)
        case NoAnswer => Failure(TimedOut)
        case SendError(isTimeout) => Failure(if isTimeout then TimedOut else NotReached)
        case Answer(reply) => Success(reply)
    }

    /** Where the reply to hop `hop` redirects to, joined to `url` and validated. */
    function Next(hop: nat, url: Url, reply: Reply): Result<Url, FetchError> {
      if reply.location.None? then Failure(NoLocation(hop))
      else if join(url, reply.location.value).None? then Failure(BadTarget(reply.location.value))
      else
        match validate(hop + 1, join(url, reply.location.value).value)
        case Failure(text) => Failure(Rejected(text))
        case Success(next) => Success(next)
    }
  }

  // ---------------------------------------------------------------------------------------------
  // The body

  /** The bytes of a body up to its end or up to where it breaks. */
  ghost function Bytes(events: seq<BodyEvent>): seq<byte> {
    if events == [] || events[0].Broken? then [] else events[0].data + Bytes(events[1..])
  }

  ghost predicate Breaks(events: seq<BodyEvent>) {
    events != [] && (events[0].Broken? || Breaks(events[1..]))
  }

  /** The count saturates, so a cap of `usize::MAX`, more than memory can hold, is no cap. */
  predicate WithinCap(n: nat, max: nat) {
    n <= max || max >= USIZE_MAX
  }

  /** A body is refused exactly if its bytes are more than `max`, wherever it is cut into pieces, and
      a break counts only if it comes first. */
  ghost function BodyOutcome(bytes: seq<byte>, breaks: bool, max: nat): Result<seq<byte>, FetchError> {
    if !WithinCap(|bytes|, max) then Failure(BodyTooLarge) else if breaks then Failure(BrokenBody) else Success(bytes)
  }

  function SaturatingAdd(a: nat, b: nat): nat {
    if a + b > USIZE_MAX then USIZE_MAX else a + b
  }

  lemma BodyStep(body: seq<BodyEvent>, k: nat, buf: seq<byte>)
    requires k < |body|
    ensures
      var rest := body[k + 1..];
      if body[k].Broken? then Bytes(body[k..]) == [] && Breaks(body[k..])
      else
        && buf + Bytes(body[k..]) == buf + body[k].data + Bytes(rest)
        && Breaks(body[k..]) == Breaks(rest)
  {
    assert body[k..][1..] == body[k + 1..];
    if !body[k].Broken? {
      Regroup(buf, body[k].data, Bytes(body[k + 1..]));
    }
  }

  /** `read_capped`. */
  method ReadCapped(body: seq<BodyEvent>, max: nat) returns (r: Result<seq<byte>, FetchError>)
    ensures r == BodyOutcome(Bytes(body), Breaks(body), max)
  {
    var buf, total := [], 0;
    for k := 0 to |body|
      invariant WithinCap(|buf|, max) && total == SaturatingAdd(0, |buf|) <= max
      invariant Bytes(body) == buf + Bytes(body[k..])
      invariant Breaks(body) == Breaks(body[k..])
    {
      BodyStep(body, k, buf);
      if body[k].Broken? {
        return Failure(BrokenBody);
      }
      total := SaturatingAdd(total, |body[k].data|);
      if total > max {
        return Failure(BodyTooLarge);
      }
      buf := buf + body[k].data;
    }
    assert body[|body|..] == [];
    assert buf + [] == buf;
    return Success(buf);
  }

  // ---------------------------------------------------------------------------------------------
  // What the loops come to

  datatype Page = Page(url: Url, body: seq<byte>)

  datatype Head = Head(url: Url, status: nat)

  /** A reply that is no redirect. */
  ghost function Delivered(url: Url, reply: Reply, maxBytes: nat): Result<Page, FetchError> {
    if !reply.IsSuccess() then Failure(BadStatus(reply.status))
    else
      match BodyOutcome(Bytes(reply.body), Breaks(reply.body), maxBytes)
      case Failure(e) => Failure(e)
      case Success(bytes) => Success(Page(url, bytes))
  }

  /** Fetching the validated `url` as hop number `hop`. */
  ghost function PageFrom(w: World, url: Url, hop: nat, max: nat, maxBytes: nat): Result<Page, FetchError>
    requires hop <= max
    decreases max - hop
  {
    match w.Request(hop, url)
    case Failure(e) => Failure(e)
    case Success(reply) =>
      if !reply.IsRedirect() then Delivered(url, reply, maxBytes)
      else if hop == max then Failure(TooManyRedirects)
      else
        match w.Next(hop, url, reply)
        case Failure(e) => Failure(e)
        case Success(next) => PageFrom(w, next, hop + 1, max, maxBytes)
  }

  /** The same for the headers. The last hop's redirect is still joined and validated. */
  ghost function HeadFrom(w: World, url: Url, hop: nat, max: nat): Result<Head, FetchError>
    requires hop <= max
    decreases max - hop
  {
    match w.Request(hop, url)
    case Failure(e) => Failure(e)
    case Success(reply) =>
      if !reply.IsRedirect() then Success(Head(url, reply.status))
      else
        match w.Next(hop, url, reply)
        case Failure(e) => Failure(e)
        case Success(next) =>
          if hop == max then Failure(TooManyRedirects) else HeadFrom(w, next, hop + 1, max)
  }

  /** The URLs to which requests go. */
  ghost function SentFrom(w: World, url: Url, hop: nat, max: nat): seq<Url>
    requires hop <= max
    decreases max - hop
  {
    if w.client(hop, url).Some? then []
    else if
      && hop < max
      && w.Request(hop, url).Success?
      && w.Request(hop, url).value.IsRedirect()
      && w.Next(hop, url, w.Request(hop, url).value).Success?
    then [url] + SentFrom(w, w.Next(hop, url, w.Request(hop, url).value).value, hop + 1, max)
    else [url]
  }

  ghost function PageOf(w: World, start: string, max: nat, maxBytes: nat): Result<Page, FetchError> {
    match w.validate(0, start)
    case Failure(text) => Failure(Rejected(text))
    case Success(url) => PageFrom(w, url, 0, max, maxBytes)
  }

  ghost function HeadOf(w: World, start: string, max: nat): Result<Head, FetchError> {
    match w.validate(0, start)
    case Failure(text) => Failure(Rejected(text))
    case Success(url) => HeadFrom(w, url, 0, max)
  }

  ghost function SentOf(w: World, start: string, max: nat): seq<Url> {
    match w.validate(0, start)
    case Failure(_) => []
    case Success(url) => SentFrom(w, url, 0, max)
  }

  /** How one hop of `fetch_page` goes on. */
  lemma HopStep(w: World, url: Url, hop: nat, max: nat, maxBytes: nat, sent: seq<Url>)
    requires hop <= max
    ensures
      var now := if w.client(hop, url).None? then sent + [url] else sent;
      var answer := w.Request(hop, url);
      var page, all := PageFrom(w, url, hop, max, maxBytes), sent + SentFrom(w, url, hop, max);
      if answer.Failure? then page == Failure(answer.error) && all == now
      else if !answer.value.IsRedirect() then page == Delivered(url, answer.value, maxBytes) && all == now
      else if hop == max then page == Failure(TooManyRedirects) && all == now
      else
        match w.Next(hop, url, answer.value)
        case Failure(e) => page == Failure(e) && all == now
        case Success(next) =>
          && page == PageFrom(w, next, hop + 1, max, maxBytes)
          && all == now + SentFrom(w, next, hop + 1, max)
  {
    hide Delivered;
    if hop < max && w.Request(hop, url).Success? && w.Next(hop, url, w.Request(hop, url).value).Success? {
      Regroup(sent, [url], SentFrom(w, w.Next(hop, url, w.Request(hop, url).value).value, hop + 1, max));
    }
  }

  /** `fetch_page`. */
  method FetchPage(w: World, start: string, max: nat, maxBytes: nat)
    returns (r: Result<Page, FetchError>, ghost sent: seq<Url>)
    ensures r == PageOf(w, start, max, maxBytes)
    ensures sent == SentOf(w, start, max)
  {
    hide PageFrom;
    hide SentFrom;
    hide BodyOutcome;
    hide Bytes;
    hide Breaks;
    sent := [];
    var validated := w.validate(0, start);
    if validated.Failure? {
      return Failure(Rejected(validated.error)), sent;
    }
    var current := validated.value;
    for hop := 0 to max + 1
      invariant hop <= max
      invariant PageOf(w, start, max, maxBytes) == PageFrom(w, current, hop, max, maxBytes)
      invariant SentOf(w, start, max) == sent + SentFrom(w, current, hop, max)
    {
      HopStep(w, current, hop, max, maxBytes, sent);
      hide *;
      if w.client(hop, current).None? {
        sent := sent + [current];
      }
      var answer := w.Request(hop, current);
      if answer.Failure? {
        return Failure(answer.error), sent;
      }
      var reply := answer.value;
      if reply.IsRedirect() {
        if hop == max {
          return Failure(TooManyRedirects), sent;
        }
        var next := w.Next(hop, current, reply);
        if next.Failure? {
          return Failure(next.error), sent;
        }
        current := next.value;
        continue;
      }
      if !reply.IsSuccess() {
        return Failure(BadStatus(reply.status)), sent;
      }
      var body := ReadCapped(reply.body, maxBytes);
      if body.Failure? {
        return Failure(body.error), sent;
      }
      return Success(Page(current, body.value)), sent;
    }
    return Failure(AfterLastHop), sent;
  }

  /** How one hop of `web_fetch_headers` goes on. */
  lemma HeadStep(w: World, url: Url, hop: nat, max: nat, sent: seq<Url>)
    requires hop <= max
    ensures
      var now := if w.client(hop, url).None? then sent + [url] else sent;
      var answer := w.Request(hop, url);
      var head, all := HeadFrom(w, url, hop, max), sent + SentFrom(w, url, hop, max);
      if answer.Failure? then head == Failure(answer.error) && all == now
      else if !answer.value.IsRedirect() then head == Success(Head(url, answer.value.status)) && all == now
      else
        match w.Next(hop, url, answer.value)
        case Failure(e) => head == Failure(e) && all == now
        case Success(next) =>
          if hop == max then head == Failure(TooManyRedirects) && all == now
          else head == HeadFrom(w, next, hop + 1, max) && all == now + SentFrom(w, next, hop + 1, max)
  {
    HopStep(w, url, hop, max, 0, sent);
    hide SentFrom;
    hide PageFrom;
  }

  /** `web_fetch_headers`. */
  method FetchHeaders(w: World, start: string, max: nat) returns (r: Result<Head, FetchError>, ghost sent: seq<Url>)
    ensures r == HeadOf(w, start, max)
    ensures sent == SentOf(w, start, max)
  {
    hide HeadFrom;
    hide SentFrom;
    sent := [];
    var validated := w.validate(0, start);
    if validated.Failure? {
      return Failure(Rejected(validated.error)), sent;
    }
    var current := validated.value;
    for hop := 0 to max + 1
      invariant if hop <= max then HeadOf(w, start, max) == HeadFrom(w, current, hop, max)
                else HeadOf(w, start, max) == Failure(TooManyRedirects)
      invariant SentOf(w, start, max) == if hop <= max then sent + SentFrom(w, current, hop, max) else sent
    {
      HeadStep(w, current, hop, max, sent);
      hide *;
      if w.client(hop, current).None? {
        sent := sent + [current];
      }
      var answer := w.Request(hop, current);
      if answer.Failure? {
        return Failure(answer.error), sent;
      }
      var reply := answer.value;
      if reply.IsRedirect() {
        var next := w.Next(hop, current, reply);
        if next.Failure? {
          return Failure(next.error), sent;
        }
        current := next.value;
        continue;
      }
      return Success(Head(current, reply.status)), sent;
    }
    return Failure(TooManyRedirects), sent;
  }

  // ---------------------------------------------------------------------------------------------
  // What that means

  /** `url` was handed to `validate_url` and accepted as the target of the redirect that answered
      the request for `from` at hop `hop`. */
  ghost predicate Follows(w: World, hop: nat, from: Url, url: Url) {
    && w.Request(hop, from).Success?
    && var reply := w.Request(hop, from).value;
    && reply.IsRedirect()
    && reply.location.Some?
    && w.join(from, reply.location.value).Some?
    && w.validate(hop + 1, w.join(from, reply.location.value).value) == Success(url)
  }

  /** At most `max + 1` requests, the first to the validated start and each other one to a URL joined
      from the one before and validated in this run. */
  lemma {:induction false} SentIsAChain(w: World, url: Url, hop: nat, max: nat)
    requires hop <= max
    ensures
      var sent := SentFrom(w, url, hop, max);
      && |sent| <= max - hop + 1
      && (sent != [] ==> sent[0] == url)
      && forall i :: 0 <= i < |sent| - 1 ==> Follows(w, hop + i, sent[i], sent[i + 1])
    decreases max - hop
  {
    var sent := SentFrom(w, url, hop, max);
    if |sent| <= 1 {
    } else {
      var next := w.Next(hop, url, w.Request(hop, url).value).value;
      var rest := SentFrom(w, next, hop + 1, max);
      SentIsAChain(w, next, hop + 1, max);
      assert sent == [url] + rest && Follows(w, hop, url, next);
      hide *;
      forall i | 0 <= i < |sent| - 1 ensures Follows(w, hop + i, sent[i], sent[i + 1]) {
        if i > 0 {
          assert sent[i] == rest[i - 1] && sent[i + 1] == rest[i];
          assert Follows(w, hop + 1 + (i - 1), rest[i - 1], rest[i]);
        }
      }
    }
  }

  /** The reply to the last request that was sent, if it was answered. */
  ghost function LastReply(w: World, url: Url, hop: nat, max: nat): Option<Reply>
    requires hop <= max
  {
    var sent := SentFrom(w, url, hop, max);
    if sent == [] || w.Request(hop + |sent| - 1, sent[|sent| - 1]).Failure? then None
    else Some(w.Request(hop + |sent| - 1, sent[|sent| - 1]).value)
  }

  /** Whether the walk used up all its hops and was redirected once more. */
  ghost predicate RanOut(w: World, url: Url, hop: nat, max: nat)
    requires hop <= max
  {
    && |SentFrom(w, url, hop, max)| == max - hop + 1
    && LastReply(w, url, hop, max).Some?
    && LastReply(w, url, hop, max).value.IsRedirect()
  }

  lemma LastReplyStep(w: World, url: Url, hop: nat, max: nat)
    requires hop < max && w.Request(hop, url).Success? && w.Request(hop, url).value.IsRedirect()
    requires w.Next(hop, url, w.Request(hop, url).value).Success?
    ensures
      var next := w.Next(hop, url, w.Request(hop, url).value).value;
      var sent, rest := SentFrom(w, url, hop, max), SentFrom(w, next, hop + 1, max);
      && sent == [url] + rest
      && sent[|sent| - 1] == (if rest == [] then url else rest[|rest| - 1])
      && LastReply(w, url, hop, max)
         == (if rest == [] then Some(w.Request(hop, url).value) else LastReply(w, next, hop + 1, max))
  {
  }

  lemma DeliveredMeaning(w: World, url: Url, hop: nat, maxBytes: nat)
    ensures w.Request(hop, url).Success? ==>
      var reply := w.Request(hop, url).value;
      var page := Delivered(url, reply, maxBytes);
      && page != Failure(TooManyRedirects)
      && page != Failure(AfterLastHop)
      && (page.Success? <==> reply.IsSuccess() && !Breaks(reply.body) && WithinCap(|Bytes(reply.body)|, maxBytes))
      && (page.Success? ==> page.value == Page(url, Bytes(reply.body)))
    ensures w.Request(hop, url).Failure? ==>
      w.Request(hop, url).error != TooManyRedirects && w.Request(hop, url).error != AfterLastHop
  {
  }

  /** `fetch_page` succeeds exactly if the last reply is a success whose body fits, and returns that
      body under the URL that was asked last. It reports too many redirects exactly if the hops ran out. */
  lemma {:induction false} PageMeaning(w: World, url: Url, hop: nat, max: nat, maxBytes: nat)
    requires hop <= max
    ensures
      var page, sent, last :=
        PageFrom(w, url, hop, max, maxBytes), SentFrom(w, url, hop, max), LastReply(w, url, hop, max);
      && (last.Some? && !last.value.IsRedirect() ==> page == Delivered(sent[|sent| - 1], last.value, maxBytes))
      && (last.None? || last.value.IsRedirect() ==> page.Failure?)
      && (page == Failure(TooManyRedirects) <==> RanOut(w, url, hop, max))
      && page != Failure(AfterLastHop)
    decreases max - hop
  {
    hide Delivered;
    DeliveredMeaning(w, url, hop, maxBytes);
    if hop == max || w.Request(hop, url).Failure? || !w.Request(hop, url).value.IsRedirect() {
    } else {
      var next := w.Next(hop, url, w.Request(hop, url).value);
      if next.Success? {
        LastReplyStep(w, url, hop, max);
        PageMeaning(w, next.value, hop + 1, max, maxBytes);
        assert PageFrom(w, url, hop, max, maxBytes) == PageFrom(w, next.value, hop + 1, max, maxBytes);
        assert SentFrom(w, next.value, hop + 1, max) == [] ==> PageFrom(w, next.value, hop + 1, max, maxBytes).Failure?;
        hide SentFrom;
        hide PageFrom;
        hide LastReply;
      }
    }
  }

  /** Both loops ask the same URLs (`SentOf` knows of one only). Where `fetch_page` was answered,
      `web_fetch_headers` succeeds with the same URL; where the hops ran out, it fails with the target
      of the last redirect if that is bad; otherwise both fail with the same error. */
  lemma {:induction false} HeadMeaning(w: World, url: Url, hop: nat, max: nat, maxBytes: nat)
    requires hop <= max
    ensures
      var page, head := PageFrom(w, url, hop, max, maxBytes), HeadFrom(w, url, hop, max);
      var sent, last := SentFrom(w, url, hop, max), LastReply(w, url, hop, max);
      if last.Some? && !last.value.IsRedirect() then
        head == Success(Head(sent[|sent| - 1], last.value.status))
      else if RanOut(w, url, hop, max) then
        match w.Next(max, sent[|sent| - 1], last.value)
        case Failure(e) => head == Failure(e)
        case Success(_) => head == Failure(TooManyRedirects)
      else page.Failure? && head == Failure(page.error)
    decreases max - hop
  {
    hide Delivered;
    if hop == max || w.Request(hop, url).Failure? || !w.Request(hop, url).value.IsRedirect() {
    } else {
      var next := w.Next(hop, url, w.Request(hop, url).value);
      if next.Success? {
        LastReplyStep(w, url, hop, max);
        HeadMeaning(w, next.value, hop + 1, max, maxBytes);
        assert PageFrom(w, url, hop, max, maxBytes) == PageFrom(w, next.value, hop + 1, max, maxBytes);
        assert HeadFrom(w, url, hop, max) == HeadFrom(w, next.value, hop + 1, max);
        hide SentFrom;
        hide PageFrom;
        hide HeadFrom;
      }
    }
  }

  /** Allowing more redirects changes nothing unless the hops ran out, and then it only asks further. */
  lemma {:induction false} MoreHops(w: World, url: Url, hop: nat, max: nat, more: nat, maxBytes: nat)
    requires hop <= max <= more
    ensures SentFrom(w, url, hop, max) <= SentFrom(w, url, hop, more)
    ensures !RanOut(w, url, hop, max) ==>
      && PageFrom(w, url, hop, more, maxBytes) == PageFrom(w, url, hop, max, maxBytes)
      && HeadFrom(w, url, hop, more) == HeadFrom(w, url, hop, max)
      && SentFrom(w, url, hop, more) == SentFrom(w, url, hop, max)
    decreases max - hop
  {
    hide Delivered;
    if hop == max || w.Request(hop, url).Failure? || !w.Request(hop, url).value.IsRedirect() {
    } else {
      var next := w.Next(hop, url, w.Request(hop, url).value);
      if next.Success? {
        LastReplyStep(w, url, hop, max);
        LastReplyStep(w, url, hop, more);
        MoreHops(w, next.value, hop + 1, max, more, maxBytes);
        assert PageFrom(w, url, hop, max, maxBytes) == PageFrom(w, next.value, hop + 1, max, maxBytes);
        assert HeadFrom(w, url, hop, max) == HeadFrom(w, next.value, hop + 1, max);
        assert PageFrom(w, url, hop, more, maxBytes) == PageFrom(w, next.value, hop + 1, more, maxBytes);
        assert HeadFrom(w, url, hop, more) == HeadFrom(w, next.value, hop + 1, more);
        hide SentFrom;
        hide PageFrom;
        hide HeadFrom;
      }
    }
  }

  /** What a caller of either loop can rely on, for all replies and validation answers. */
  lemma FetchSafety(w: World, start: string, max: nat, maxBytes: nat)
    ensures
      var sent, page, head := SentOf(w, start, max), PageOf(w, start, max, maxBytes), HeadOf(w, start, max);
      && |sent| <= max + 1
      && (sent != [] ==> w.validate(0, start) == Success(sent[0]))
      && (forall i :: 0 <= i < |sent| - 1 ==> Follows(w, i, sent[i], sent[i + 1]))
      && (page.Success? ==>
            && sent != []
            && page.value.url == sent[|sent| - 1]
            && WithinCap(|page.value.body|, maxBytes)
            && head.Success?
            && head.value.url == page.value.url)
      && page != Failure(AfterLastHop)
  {
    if w.validate(0, start).Success? {
      var url := w.validate(0, start).value;
      SentIsAChain(w, url, 0, max);
      PageMeaning(w, url, 0, max, maxBytes);
      HeadMeaning(w, url, 0, max, maxBytes);
      var sent := SentFrom(w, url, 0, max);
      if sent != [] {
        DeliveredMeaning(w, sent[|sent| - 1], |sent| - 1, maxBytes);
      }
      hide PageFrom;
      hide HeadFrom;
      hide SentFrom;
      hide Delivered;
      hide Follows;
    }
  }
}
