/** Which URLs `web_map` wants, in terms of their host and text. */
module MapLaws {
  import opened Wrappers
  import opened Sequences
  import opened WebMap

  /** In scope: the start host itself, and, if asked for, every host that ends in a dot and it. */
  lemma ScopeByHost(s: Survey, host: string)
    ensures s.HostAllowed(host) <==>
      host == s.baseHost || (s.includeSubdomains && exists front: string :: host == front + "." + s.baseHost)
  {
    var suffix := "." + s.baseHost;
    if EndsWith(host, suffix) {
      var front := host[..|host| - |suffix|];
      assert host == front + suffix;
      assert host == front + "." + s.baseHost;
    }
    if front: string :| host == front + "." + s.baseHost {
      assert host == front + suffix;
      assert host[|host| - |suffix|..] == suffix;
    }
  }

  /** Without subdomains only the start host is left, and with them a host that merely ends like it is
      not in scope. */
  lemma ScopeExamples(s: Survey)
    requires s.baseHost == "example.org"
    ensures s.HostAllowed("example.org")
    ensures s.HostAllowed("www.example.org") <==> s.includeSubdomains
    ensures !s.HostAllowed("badexample.org")
  {
    var www, bad := "www.example.org", "badexample.org";
    assert www[3..] == ".example.org";
    assert bad[2] == 'd' && bad[|bad| - 12..][0] == 'd';
  }

  /** Part of a text, wherever it stands. */
  lemma ContainsMeaning(s: string, part: string)
    ensures Contains(s, part) <==> exists a, b :: s == a + part + b
  {
    if Contains(s, part) {
      var k :| 0 <= k <= |s| && StartsWith(s[k..], part);
      assert s == s[..k] + part + s[k + |part|..];
    }
    if a, b :| s == a + part + b {
      assert s[|a|..] == part + b;
      assert StartsWith(s[|a|..], part);
    }
  }

  /** A wanted URL has a host in scope and, in lower case, contains the search text in lower case; it needs
      a DNS answer exactly if its host is not the start host. */
  lemma WantedMeaning(s: Survey, url: string)
    ensures s.Wanted(url) <==>
      && s.hostOf(url).Some?
      && s.HostAllowed(s.hostOf(url).value)
      && (s.search.Some? ==> exists a, b :: s.lower(url) == a + s.lower(s.search.value) + b)
    ensures s.Wanted(url) ==> (s.NeedsDns(url) <==> s.hostOf(url).value != s.baseHost)
  {
    if s.search.Some? { ContainsMeaning(s.lower(url), s.lower(s.search.value)); }
  }
}
