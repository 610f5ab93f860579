/** The candidate pipeline of `web_map` (src/actions/map.rs). */
module WebMap {
  import opened Wrappers
  import opened Sequences

  predicate EndsWith(s: string, suffix: string) {
    |suffix| <= |s| && s[|s| - |suffix|..] == suffix
  }

  predicate Contains(s: string, part: string) {
    exists k :: 0 <= k <= |s| && StartsWith(s[k..], part)
  }

  function Take<T>(s: seq<T>, n: nat): seq<T> {
    if |s| <= n then s else s[..n]
  }

  /** One call of the tool, and what the URL library and `validate_url` say in it. */
  datatype Survey = Survey(
    baseHost: string,
    includeSubdomains: bool,
    search: Option<string>,
    limit: nat,
    hostOf: string -> Option<string>,
    lower: string -> string,
    accepts: string -> bool)
  {
    /** `host_allowed_host`. */
    predicate HostAllowed(host: string) {
      host == baseHost || (includeSubdomains && EndsWith(host, "." + baseHost))
    }

    /** The URLs that are in scope and match the search. */
    predicate Wanted(url: string) {
      && hostOf(url).Some?
      && HostAllowed(hostOf(url).value)
      && (search.Some? ==> Contains(lower(url), lower(search.value)))
    }

    predicate NeedsDns(url: string) {
      hostOf(url) != Some(baseHost)
    }

    /** The URLs of `urls` that are wanted, each at its first place. */
    function Distinct(urls: seq<string>): (r: seq<string>)
      ensures forall u :: u in r <==> u in urls && Wanted(u)
      ensures forall i, j :: 0 <= i < j < |r| ==> r[i] != r[j]
    {
      if urls == [] then []
      else
        var before, url := urls[..|urls| - 1], urls[|urls| - 1];
        assert urls == before + [url];
        if Wanted(url) && url !in before then Distinct(before) + [url] else Distinct(before)
    }

    /** The first `limit` of them. */
    function Candidates(urls: seq<string>): seq<string> {
      Take(Distinct(urls), limit)
    }
  }

  lemma NextPrefix<T>(s: seq<T>, k: nat)
    requires k < |s|
    ensures s[..k + 1] == s[..k] + [s[k]]
  {
  }

  ghost function Marked(s: Survey, urls: seq<string>): (r: seq<(string, bool)>)
    ensures |r| == |urls|
    ensures forall k :: 0 <= k < |r| ==> r[k] == (urls[k], s.NeedsDns(urls[k]))
  {
    seq(|urls|, k requires 0 <= k < |urls| => (urls[k], s.NeedsDns(urls[k])))
  }

  lemma DistinctGrows(s: Survey, before: seq<string>, url: string)
    ensures s.Distinct(before + [url])
         == if s.Wanted(url) && url !in s.Distinct(before) then s.Distinct(before) + [url] else s.Distinct(before)
  {
    assert (before + [url])[..|before|] == before;
  }

  /** The state that `consider` shares between its calls. */
  class Collector {
    const survey: Survey
    var seen: set<string>
    var candidates: seq<(string, bool)>
    ghost var considered: seq<string>

    ghost predicate Valid()
      reads this
    {
      && candidates == Marked(survey, survey.Candidates(considered))
      && (|candidates| < survey.limit ==> forall u :: u in seen <==> u in survey.Distinct(considered))
    }

    constructor (survey: Survey)
      ensures this.survey == survey && Valid() && considered == []
    {
      this.survey := survey;
      seen, candidates, considered := {}, [], [];
    }

    method Consider(url: string)
      requires Valid()
      modifies this
      ensures Valid() && considered == old(considered) + [url]
    {
      DistinctGrows(survey, considered, url);
      considered := considered + [url];
      if |candidates| >= survey.limit {
        return;
      }
      var host := survey.hostOf(url);
      if host.None? {
        return;
      }
      if !survey.HostAllowed(host.value) {
        return;
      }
      if survey.search.Some? && !Contains(survey.lower(url), survey.lower(survey.search.value)) {
        return;
      }
      var needsDns := host.value != survey.baseHost;
      if url !in seen {
        seen := seen + {url};
        candidates := candidates + [(url, needsDns)];
      }
    }

    /** Both loops over discovered URLs. */
    method ConsiderAll(urls: seq<string>)
      requires Valid()
      modifies this
      ensures Valid() && considered == old(considered) + urls
    {
      hide *;
      ghost var before := considered;
      assert before + urls[..0] == before;
      for k := 0 to |urls|
        invariant Valid() && considered == before + urls[..k]
      {
        Consider(urls[k]);
        NextPrefix(urls, k);
        Regroup(before, urls[..k], [urls[k]]);
      }
      assert urls[..|urls|] == urls;
    }
  }

  /** The candidates that need no DNS answer or get a good one, in order. */
  ghost function Accepted(s: Survey, urls: seq<string>): (r: seq<string>)
    ensures forall u :: u in r <==> u in urls && (s.NeedsDns(u) ==> s.accepts(u))
  {
    if urls == [] then []
    else
      (if s.NeedsDns(urls[0]) && !s.accepts(urls[0]) then [] else [urls[0]]) + Accepted(s, urls[1..])
  }

  function Found(pages: Option<seq<string>>): seq<string> {
    if pages.Some? then pages.value else []
  }

  lemma AcceptedStep(s: Survey, urls: seq<string>, k: nat, out: seq<string>)
    requires k < |urls|
    ensures out + Accepted(s, urls[k..])
         == (if s.NeedsDns(urls[k]) && !s.accepts(urls[k]) then out else out + [urls[k]]) + Accepted(s, urls[k + 1..])
  {
    assert urls[k..][1..] == urls[k + 1..];
    var rest := Accepted(s, urls[k + 1..]);
    assert Accepted(s, urls[k..]) == if s.NeedsDns(urls[k]) && !s.accepts(urls[k]) then rest else [urls[k]] + rest;
    hide *;
    Regroup(out, [urls[k]], rest);
  }

  /** The validation of the candidates, whose answers come back in order. */
  method Check(s: Survey, candidates: seq<(string, bool)>, ghost urls: seq<string>) returns (out: seq<string>)
    requires candidates == Marked(s, urls)
    ensures out == Accepted(s, urls)
  {
    out := [];
    assert urls[0..] == urls;
    for k := 0 to |candidates|
      invariant Accepted(s, urls) == out + Accepted(s, urls[k..])
    {
      AcceptedStep(s, urls, k, out);
      hide *;
      var (url, needsDns) := candidates[k];
      if !needsDns || s.accepts(url) {
        out := out + [url];
      }
    }
  }

  /** `web_map`, given the `<loc>` entries of the sitemap and the links of the page where each of them
      is wanted and could be fetched. */
  method Map(s: Survey, sitemap: Option<seq<string>>, links: Option<seq<string>>)
    returns (text: string, ghost out: seq<string>)
    ensures out == Accepted(s, s.Candidates(Found(sitemap) + Found(links)))
    ensures text == if out == [] then "No URLs discovered." else Join(out, "\n")
  {
    var collector := new Collector(s);
    if sitemap.Some? {
      collector.ConsiderAll(sitemap.value);
    }
    if links.Some? {
      collector.ConsiderAll(links.value);
    }
    assert collector.considered == Found(sitemap) + Found(links);
    var accepted := Check(s, collector.candidates, s.Candidates(collector.considered));
    out := accepted;
    text := if accepted == [] then "No URLs discovered." else Join(accepted, "\n");
  }

  // ---------------------------------------------------------------------------------------------
  // What that means

  /** Where `u` stands first. */
  function First(urls: seq<string>, u: string): (n: nat)
    ensures n <= |urls|
    ensures u !in urls[..n]
    ensures n < |urls| ==> urls[n] == u
  {
    if urls == [] || urls[0] == u then 0 else 1 + First(urls[1..], u)
  }

  /** The wanted URLs seen so far are a prefix of all of them. */
  lemma {:induction false} DistinctPrefix(s: Survey, urls: seq<string>, n: nat)
    requires n <= |urls|
    ensures s.Distinct(urls[..n]) <= s.Distinct(urls)
    decreases |urls|
  {
    if n < |urls| {
      var before := urls[..|urls| - 1];
      DistinctPrefix(s, before, n);
      assert before[..n] == urls[..n];
    } else {
      assert urls[..n] == urls;
    }
  }

  /** A wanted URL's place among them is the number of those seen before it. */
  lemma {:induction false} DistinctPlace(s: Survey, urls: seq<string>, u: string)
    requires u in urls && s.Wanted(u)
    ensures
      var n := |s.Distinct(urls[..First(urls, u)])|;
      n < |s.Distinct(urls)| && s.Distinct(urls)[n] == u
  {
    var n := First(urls, u);
    NextPrefix(urls, n);
    DistinctGrows(s, urls[..n], u);
    DistinctPrefix(s, urls, n + 1);
  }

  /** A URL is a candidate exactly if it was found, is wanted, and fewer than `limit` different wanted
      URLs were found before it. */
  lemma CandidateIff(s: Survey, urls: seq<string>, u: string)
    ensures u in s.Candidates(urls)
       <==> u in urls && s.Wanted(u) && |s.Distinct(urls[..First(urls, u)])| < s.limit
  {
    var d := s.Distinct(urls);
    if u in d {
      DistinctPlace(s, urls, u);
      var n := |s.Distinct(urls[..First(urls, u)])|;
      assert n < s.limit ==> s.Candidates(urls)[n] == u;
      assert forall k :: 0 <= k < |s.Candidates(urls)| ==> s.Candidates(urls)[k] == d[k];
    }
  }

  /** The order is that of discovery, sitemap first, and nothing is listed twice. */
  ghost predicate InOrder(urls: seq<string>, out: seq<string>) {
    forall i, j :: 0 <= i < j < |out| ==> First(urls, out[i]) < First(urls, out[j])
  }

  lemma DistinctMonotone(s: Survey, urls: seq<string>, m: nat, n: nat)
    requires m <= |urls| && n <= |urls|
    ensures m <= n ==> |s.Distinct(urls[..m])| <= |s.Distinct(urls[..n])|
  {
    if m <= n {
      DistinctPrefix(s, urls[..n], m);
      assert urls[..n][..m] == urls[..m];
    }
  }

  lemma DistinctInOrder(s: Survey, urls: seq<string>)
    ensures InOrder(urls, s.Distinct(urls))
  {
    var d := s.Distinct(urls);
    forall i, j | 0 <= i < j < |d| ensures First(urls, d[i]) < First(urls, d[j]) {
      DistinctPlace(s, urls, d[i]);
      DistinctPlace(s, urls, d[j]);
      DistinctMonotone(s, urls, First(urls, d[j]), First(urls, d[i]));
    }
  }

  lemma ConsInOrder(found: seq<string>, u: string, rest: seq<string>)
    requires InOrder(found, rest) && forall v :: v in rest ==> First(found, u) < First(found, v)
    ensures InOrder(found, [u] + rest)
  {
    hide First;
    var all := [u] + rest;
    forall i, j | 0 <= i < j < |all| ensures First(found, all[i]) < First(found, all[j]) {
      assert all[j] == rest[j - 1];
      if i > 0 { assert all[i] == rest[i - 1]; }
    }
  }

  lemma {:induction false} AcceptedInOrder(s: Survey, urls: seq<string>, found: seq<string>)
    requires InOrder(found, urls)
    ensures InOrder(found, Accepted(s, urls)) && |Accepted(s, urls)| <= |urls|
  {
    if urls == [] {
    } else {
      var rest := Accepted(s, urls[1..]);
      AcceptedInOrder(s, urls[1..], found);
      assert forall u :: u in rest ==> First(found, urls[0]) < First(found, u);
      assert Accepted(s, urls) == rest || Accepted(s, urls) == [urls[0]] + rest;
      hide *;
      ConsInOrder(found, urls[0], rest);
    }
  }

  /** What `web_map` lists: at most `limit` URLs in the order of discovery, and of the candidates
      exactly those on the start host and those that validation accepts. */
  lemma MapMeaning(s: Survey, found: seq<string>)
    ensures
      var out := Accepted(s, s.Candidates(found));
      && |out| <= s.limit
      && InOrder(found, out)
      && forall u :: u in out <==> u in s.Candidates(found) && (s.NeedsDns(u) ==> s.accepts(u))
  {
    DistinctInOrder(s, found);
    assert InOrder(found, s.Candidates(found));
    AcceptedInOrder(s, s.Candidates(found), found);
  }
}
