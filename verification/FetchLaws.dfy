/** What the fetch loops make of an answer, by the status number and the kind of failure. */
module FetchLaws {
  import opened Wrappers
  import opened Utf8
  import opened Redirects

  /** A request that gets no reply: no client, no answer in time, no connection. */
  lemma FailureByKind(w: World, url: Url, hop: nat, max: nat, maxBytes: nat)
    requires hop <= max
    ensures w.client(hop, url).Some? ==>
      && PageFrom(w, url, hop, max, maxBytes) == Failure(NoClient(w.client(hop, url).value))
      && SentFrom(w, url, hop, max) == []
    ensures w.client(hop, url).None? && (w.send(hop, url) == NoAnswer || w.send(hop, url) == SendError(true)) ==>
      PageFrom(w, url, hop, max, maxBytes) == Failure(TimedOut) && SentFrom(w, url, hop, max) == [url]
    ensures w.client(hop, url).None? && w.send(hop, url) == SendError(false) ==>
      PageFrom(w, url, hop, max, maxBytes) == Failure(NotReached) && SentFrom(w, url, hop, max) == [url]
  {
  }

  /** A reply, by its number: 200 to 299 is a page, 300 to 399 a redirect that is followed while hops are
      left, and anything else is an error under its number. */
  lemma ReplyByStatus(w: World, url: Url, hop: nat, max: nat, maxBytes: nat, reply: Reply)
    requires hop <= max && w.client(hop, url).None? && w.send(hop, url) == Answer(reply)
    ensures 200 <= reply.status <= 299 ==>
      && PageFrom(w, url, hop, max, maxBytes)
         == (match BodyOutcome(Bytes(reply.body), Breaks(reply.body), maxBytes)
             case Failure(e) => Failure(e)
             case Success(bytes) => Success(Page(url, bytes)))
      && HeadFrom(w, url, hop, max) == Success(Head(url, reply.status))
    ensures 300 <= reply.status <= 399 && hop < max && w.Next(hop, url, reply).Success? ==>
      var next := w.Next(hop, url, reply).value;
      && PageFrom(w, url, hop, max, maxBytes) == PageFrom(w, next, hop + 1, max, maxBytes)
      && HeadFrom(w, url, hop, max) == HeadFrom(w, next, hop + 1, max)
      && SentFrom(w, url, hop, max) == [url] + SentFrom(w, next, hop + 1, max)
    ensures 300 <= reply.status <= 399 && hop == max ==>
      PageFrom(w, url, hop, max, maxBytes) == Failure(TooManyRedirects)
    ensures reply.status < 200 || reply.status > 399 ==>
      && PageFrom(w, url, hop, max, maxBytes) == Failure(BadStatus(reply.status))
      && HeadFrom(w, url, hop, max) == Success(Head(url, reply.status))
  {
    hide BodyOutcome;
    hide Bytes;
    hide Breaks;
  }

  /** Where a redirect leads: its location, joined to the URL that was asked, if validation accepts it. */
  lemma RedirectTarget(w: World, url: Url, hop: nat, reply: Reply)
    ensures reply.location.None? ==> w.Next(hop, url, reply) == Failure(NoLocation(hop))
    ensures reply.location.Some? && w.join(url, reply.location.value).None? ==>
      w.Next(hop, url, reply) == Failure(BadTarget(reply.location.value))
    ensures reply.location.Some? && w.join(url, reply.location.value).Some? ==>
      w.Next(hop, url, reply)
      == (match w.validate(hop + 1, w.join(url, reply.location.value).value)
          case Failure(text) => Failure(Rejected(text))
          case Success(next) => Success(next))
  {
  }

  /** A body of exactly the cap passes, one byte more does not. */
  lemma CapInBytes(bytes: seq<byte>, max: nat)
    requires max < 0xFFFF_FFFF_FFFF_FFFF
    ensures |bytes| == max ==> BodyOutcome(bytes, false, max) == Success(bytes)
    ensures |bytes| == max + 1 ==> BodyOutcome(bytes, false, max) == Failure(BodyTooLarge)
  {
  }

  function Together(pieces: seq<seq<byte>>): seq<byte> {
    if pieces == [] then [] else pieces[0] + Together(pieces[1..])
  }

  /** The pieces of a body that does not break are put together in order. */
  lemma {:induction false} BytesOfPieces(pieces: seq<seq<byte>>, events: seq<BodyEvent>)
    requires |events| == |pieces| && forall k :: 0 <= k < |pieces| ==> events[k] == Piece(pieces[k])
    ensures !Breaks(events) && Bytes(events) == Together(pieces)
    decreases |pieces|
  {
    if pieces == [] {
    } else {
      BytesOfPieces(pieces[1..], events[1..]);
    }
  }
}
