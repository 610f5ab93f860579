/** Which requests the HTTP handler lets through, and under which status numbers it turns others away. */
module GateLaws {
  import opened Wrappers
  import opened Sequences
  import opened TokenBuckets
  import opened HttpGate
  import opened WhitespaceLaws
  import T = Text

  /** `p` is `s` with whitespace around it. */
  ghost predicate IsPadded(p: string, s: string) {
    exists a, b :: AllWhite(a) && AllWhite(b) && p == a + s + b
  }

  ghost predicate IsBearer(s: string, token: string) {
    exists w :: AllWhite(w) && s == "Bearer " + w + token
  }

  lemma PaddedTrims(p: string, s: string)
    requires T.Trimmed(s) && IsPadded(p, s)
    ensures T.Trim(p) == s
  {
    hide T.Trim;
    hide T.Trimmed;
    var a, b :| AllWhite(a) && AllWhite(b) && p == a + s + b;
    TrimPadded(a, s, b);
  }

  lemma TrimIsPadded(p: string)
    ensures IsPadded(p, T.Trim(p)) && T.Trimmed(T.Trim(p))
  {
    T.TrimIsTrimmed(p);
    hide T.Trim;
    hide T.Trimmed;
    var a, b := TrimParts(p);
  }

  lemma BearerIsTrimmed(w: string, token: string)
    requires token != "" && T.Trimmed(token)
    ensures T.Trimmed("Bearer " + w + token)
  {
    var s := "Bearer " + w + token;
    assert s[0] == 'B' && s[|s| - 1] == token[|token| - 1];
  }

  lemma LastOf(front: string, b: string)
    requires b != ""
    ensures front + b != "" && (front + b)[|front + b| - 1] == b[|b| - 1]
  {
  }

  lemma TrimmedLast(s: string)
    requires T.Trimmed(s) && s != ""
    ensures !T.IsWhite(s[|s| - 1])
  {
  }

  lemma NoWhiteTail(front: string, b: string)
    requires T.Trimmed(front + b) && AllWhite(b)
    ensures b == ""
  {
    hide T.Trimmed;
    hide T.IsWhite;
    if b != "" {
      LastOf(front, b);
      TrimmedLast(front + b);
    }
  }

  lemma WhiteCons(a: string)
    requires AllWhite(a)
    ensures AllWhite(" " + a)
  {
  }

  lemma BearerCut(s: string)
    requires StartsWith(s, "Bearer ")
    ensures |s| >= 7 && s == "Bearer " + s[7..] == "Bearer" + (" " + s[7..])
  {
  }

  /** What stands behind "Bearer " in a trimmed header. */
  lemma BearerParts(s: string) returns (w: string)
    requires T.Trimmed(s) && StartsWith(s, "Bearer ")
    ensures |s| >= 7 && AllWhite(w) && T.Trim(s[7..]) != "" && s == "Bearer " + w + T.Trim(s[7..])
  {
    hide *;
    BearerCut(s);
    var a, b := TrimParts(s[7..]);
    var token := T.Trim(s[7..]);
    w := a;
    assert s == ("Bearer " + a + token) + b;
    NoWhiteTail("Bearer " + a + token, b);
    if token == "" {
      WhiteCons(a);
      assert s == "Bearer" + (" " + a);
      NoWhiteTail("Bearer", " " + a);
    }
  }

  lemma MatchIsAccepted(presented: string, expected: string)
    requires TokenMatches(presented, expected)
    ensures T.Trimmed(expected)
    ensures (IsPadded(presented, expected) && !StartsWith(expected, "Bearer "))
         || (expected != "" && exists s :: IsBearer(s, expected) && IsPadded(presented, s))
  {
    TrimIsPadded(presented);
    var p := T.Trim(presented);
    hide T.Trimmed;
    hide IsPadded;
    if StartsWith(p, "Bearer ") {
      var w := BearerParts(p);
      T.TrimIsTrimmed(p[7..]);
      assert IsBearer(p, expected);
    } else {
      T.TrimmedIsFixed(p);
    }
  }

  lemma NothingIsWhite()
    ensures AllWhite("")
  {
  }

  lemma BehindBearer(presented: string, rest: string, expected: string)
    requires T.Trim(presented) == "Bearer " + rest && T.Trim(rest) == expected
    ensures TokenMatches(presented, expected)
  {
    hide T.Trim;
    var p := T.Trim(presented);
    assert p[..7] == "Bearer " && p[7..] == rest;
  }

  lemma PaddedBearerMatches(presented: string, w: string, expected: string)
    requires T.Trimmed(expected) && expected != "" && AllWhite(w)
    requires IsPadded(presented, "Bearer " + w + expected)
    ensures TokenMatches(presented, expected)
  {
    hide *;
    var s := "Bearer " + w + expected;
    BearerIsTrimmed(w, expected);
    PaddedTrims(presented, s);
    NothingIsWhite();
    TrimPadded(w, expected, "");
    assert w + expected + "" == w + expected;
    assert s == "Bearer " + (w + expected);
    BehindBearer(presented, w + expected, expected);
  }

  lemma BearerMatches(presented: string, expected: string)
    requires T.Trimmed(expected) && expected != ""
    requires exists s :: IsBearer(s, expected) && IsPadded(presented, s)
    ensures TokenMatches(presented, expected)
  {
    hide T.Trimmed;
    hide TokenMatches;
    hide IsPadded;
    var s :| IsBearer(s, expected) && IsPadded(presented, s);
    var w :| AllWhite(w) && s == "Bearer " + w + expected;
    PaddedBearerMatches(presented, w, expected);
  }

  /** The accepted headers are the expected token, or "Bearer " and whitespace and the token, with
      whitespace around; a token that begins with "Bearer " itself or is not trimmed cannot be presented
      bare, and an empty one cannot be presented behind "Bearer ". */
  lemma AcceptedHeaders(presented: string, expected: string)
    ensures TokenMatches(presented, expected) <==>
      && T.Trimmed(expected)
      && (|| (IsPadded(presented, expected) && !StartsWith(expected, "Bearer "))
          || (expected != "" && exists s :: IsBearer(s, expected) && IsPadded(presented, s)))
  {
    TrimIsPadded(presented);
    var p := T.Trim(presented);
    assert |"Bearer "| == 7;
    if TokenMatches(presented, expected) {
      MatchIsAccepted(presented, expected);
    }
    if T.Trimmed(expected) && IsPadded(presented, expected) && !StartsWith(expected, "Bearer ") {
      PaddedTrims(presented, expected);
      T.TrimmedIsFixed(expected);
    }
    if T.Trimmed(expected) && expected != "" && exists s :: IsBearer(s, expected) && IsPadded(presented, s) {
      BearerMatches(presented, expected);
    }
  }

  /** The status in numbers. */
  function Code(s: Status): nat {
    match s
    case OK => 200
    case BadRequest => 400
    case Unauthorized => 401
    case TooManyRequests => 429
  }

  /** 401 for a wrong token, whatever else is wrong; then 429 if the bucket lacks a token; then 400 for a
      body that is no request; and 200. */
  lemma StatusByNumber(c: Config, l: Level, r: Request)
    ensures
      var code := Code(Serve(c, l, r).0);
      var admitted := c.limit.Some? && c.limit.value.rate != 0.0 ==> Refilled(c.limit.value, l, r.time) >= 1.0;
      var known := c.authToken.None? || TokenMatches(r.presented, c.authToken.value);
      && (code == 401 <==> !known)
      && (code == 429 <==> known && !admitted)
      && (code == 400 <==> known && admitted && !r.parses)
      && (code == 200 <==> known && admitted && r.parses)
  {
    hide TokenMatches;
    hide Refilled;
  }
}
