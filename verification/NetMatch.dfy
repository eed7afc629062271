/** Subdomain-aware host matching (server/app/core/netmatch.py:32-63, mirrored by
    agent/silentguard_agent/net_match.py:27-47). `extract` stands for `extract_host`, which parses URLs:
    any function that maps the empty text to the empty host. */
module NetMatch {
  import opened Text

  type Extract = string -> string

  predicate IsExtract(extract: Extract) {
    extract("") == ""
  }

  function Suffixes(labels: seq<string>): seq<string> {
    if labels == [] then [] else [Join(".", labels)] + Suffixes(labels[1..])
  }

  function ParentDomains(extract: Extract, host: string): seq<string> {
    if extract(host) == "" then [] else Suffixes(Split(extract(host), '.'))
  }

  /** `host` is `domain`, or ends in a dot and `domain`. */
  predicate Under(host: string, domain: string) {
    host == domain || EndsWith(host, "." + domain)
  }

  lemma UnderMeans(host: string, domain: string)
    ensures Under(host, domain) <==> host == domain || exists p :: host == p + "." + domain
  {
    EndsMeans(host, "." + domain);
    forall p
      ensures p + "." + domain == p + ("." + domain)
    {
    }
  }

  predicate HostMatchesDomain(extract: Extract, host: string, blocked: string) {
    extract(host) != "" && extract(blocked) != "" && Under(extract(host), extract(blocked))
  }

  /** The linear test: neither host is empty, and the first is the second, or ends in a dot and the second. */
  lemma HostMeans(extract: Extract, host: string, blocked: string)
    ensures HostMatchesDomain(extract, host, blocked) <==>
      && extract(host) != "" && extract(blocked) != ""
      && (extract(host) == extract(blocked) || exists p :: extract(host) == p + "." + extract(blocked))
  {
    UnderMeans(extract(host), extract(blocked));
  }

  function BlockedSet(extract: Extract, blocked: set<string>): set<string> {
    (set b | b in blocked && b != "" :: extract(b)) - {""}
  }

  function FirstIn(candidates: seq<string>, s: set<string>): Option<string> {
    if candidates == [] then None
    else if candidates[0] in s then Some(candidates[0])
    else FirstIn(candidates[1..], s)
  }

  function HostMatchesAny(extract: Extract, host: string, blocked: set<string>): Option<string> {
    FirstIn(ParentDomains(extract, host), BlockedSet(extract, blocked))
  }

  // ---- The suffixes are exactly the host and what follows each of its dots, longest first ----

  /** The suffix that starts behind the first label: the rest of the host behind its first dot. */
  lemma {:induction false} SuffixesStep(host: string)
    ensures Suffixes(Split(host, '.')) != [] && Suffixes(Split(host, '.'))[0] == host
    ensures host != "" && host[0] == '.' ==> Suffixes(Split(host, '.')) == [host] + Suffixes(Split(host[1..], '.'))
    ensures host != "" && host[0] != '.' ==> Suffixes(Split(host, '.')) == [host] + Suffixes(Split(host[1..], '.'))[1..]
  {
    JoinSplit(host, '.');
    if host != "" {
      var rest := Split(host[1..], '.');
      if host[0] == '.' {
        assert Split(host, '.')[1..] == rest;
      } else {
        assert Split(host, '.')[1..] == rest[1..];
        assert Suffixes(rest)[1..] == Suffixes(rest[1..]);
      }
    }
  }

  lemma UnderTail(host: string, s: string)
    requires host != ""
    ensures Under(host, s) <==> host == s || (host[0] == '.' && host[1..] == s) || EndsWith(host[1..], "." + s)
  {
    var d := "." + s;
    if EndsWith(host, d) && |d| < |host| {
      assert host[1..][|host| - 1 - |d|..] == host[|host| - |d|..];
    }
    if EndsWith(host[1..], d) {
      assert host[1..][|host| - 1 - |d|..] == host[|host| - |d|..];
    }
    if EndsWith(host, d) && |d| == |host| {
      assert host == d;
      assert host[1..] == s;
    }
    if host[0] == '.' && host[1..] == s {
      assert host == d;
    }
  }

  lemma {:induction false} SuffixesAreUnder(host: string, s: string)
    ensures s in Suffixes(Split(host, '.')) <==> Under(host, s)
  {
    SuffixesStep(host);
    if host == "" {
      assert Suffixes(Split("", '.')) == [""];
    } else {
      var rest := host[1..];
      SuffixesAreUnder(rest, s);
      SuffixesStep(rest);
      UnderTail(host, s);
      var tail := Suffixes(Split(rest, '.'));
      assert tail == [rest] + tail[1..];
      SuffixesShorter(Split(rest, '.'));
      assert forall j :: 1 <= j < |tail| ==> |tail[j]| < |rest|;
    }
  }

  predicate LongestFirst(ss: seq<string>) {
    forall i, j :: 0 <= i < j < |ss| ==> |ss[i]| > |ss[j]|
  }

  /** Later suffixes are strictly shorter. */
  lemma {:induction false} SuffixesShorter(labels: seq<string>)
    ensures LongestFirst(Suffixes(labels))
    ensures forall s <- Suffixes(labels) :: |s| <= |Join(".", labels)|
  {
    if |labels| > 1 {
      var rest := Suffixes(labels[1..]);
      SuffixesShorter(labels[1..]);
      assert forall s <- rest :: |s| < |Join(".", labels)|;
      assert forall j :: 0 < j <= |rest| ==> Suffixes(labels)[j] == rest[j - 1] && rest[j - 1] in rest;
    } else if |labels| == 1 {
      assert Suffixes(labels[1..]) == [];
    }
  }

  lemma {:induction false} FirstInFinds(candidates: seq<string>, s: set<string>)
    ensures FirstIn(candidates, s).None? <==> forall c <- candidates :: c !in s
    ensures var r := FirstIn(candidates, s); r.Some? ==>
      exists i :: 0 <= i < |candidates| && candidates[i] == r.value && r.value in s && forall j :: 0 <= j < i ==> candidates[j] !in s
  {
    if candidates != [] {
      var rest := candidates[1..];
      FirstInFinds(rest, s);
      if candidates[0] in s {
        assert candidates[0] == FirstIn(candidates, s).value;
      } else {
        assert FirstIn(candidates, s) == FirstIn(rest, s);
        var r := FirstIn(rest, s);
        if r.Some? {
          var i :| 0 <= i < |rest| && rest[i] == r.value && r.value in s && forall j :: 0 <= j < i ==> rest[j] !in s;
          assert candidates[i + 1] == r.value;
          assert forall j :: 0 <= j < i + 1 ==> candidates[j] !in s;
        }
        assert forall c <- candidates :: c == candidates[0] || c in rest;
      }
    }
  }

  lemma MatchIsSuffix(extract: Extract, host: string, blocked: set<string>, b: string)
    requires IsExtract(extract) && b in blocked
    ensures HostMatchesDomain(extract, host, b)
      <==> extract(b) in ParentDomains(extract, host) && extract(b) in BlockedSet(extract, blocked)
  {
    if extract(host) != "" {
      SuffixesAreUnder(extract(host), extract(b));
    }
  }

  lemma FirstIsLongest(ps: seq<string>, bs: set<string>, s: string)
    requires LongestFirst(ps)
    requires s in ps && s in bs
    ensures FirstIn(ps, bs).Some? && |s| <= |FirstIn(ps, bs).value|
  {
    FirstInFinds(ps, bs);
    var r := FirstIn(ps, bs);
    var i :| 0 <= i < |ps| && ps[i] == r.value && forall j :: 0 <= j < i ==> ps[j] !in bs;
    var k :| 0 <= k < |ps| && ps[k] == s;
  }

  /** The fast suffix-set lookup agrees with the linear dot-boundary test: it finds something exactly when some blocked
      entry matches, and then the longest domain that does. */
  lemma AnyExactly(extract: Extract, host: string, blocked: set<string>)
    requires IsExtract(extract)
    ensures var r := HostMatchesAny(extract, host, blocked);
      && (r.Some? <==> exists b :: b in blocked && HostMatchesDomain(extract, host, b))
      && (r.Some? ==> exists b :: b in blocked && HostMatchesDomain(extract, host, b) && r.value == extract(b))
      && (r.Some? ==> forall b :: b in blocked && HostMatchesDomain(extract, host, b) ==> |extract(b)| <= |r.value|)
  {
    var ps, bs := ParentDomains(extract, host), BlockedSet(extract, blocked);
    var r := HostMatchesAny(extract, host, blocked);
    FirstInFinds(ps, bs);
    if extract(host) != "" {
      SuffixesShorter(Split(extract(host), '.'));
    }
    forall b | b in blocked && HostMatchesDomain(extract, host, b)
      ensures r.Some? && |extract(b)| <= |r.value|
    {
      MatchIsSuffix(extract, host, blocked, b);
      FirstIsLongest(ps, bs, extract(b));
    }
    if r.Some? {
      var b :| b in blocked && b != "" && extract(b) == r.value;
      MatchIsSuffix(extract, host, blocked, b);
    }
  }

  /** The dot boundary: text put in front of a domain gives a host under it exactly when it ends in a dot. */
  lemma DotBoundary(prefix: string, domain: string)
    requires prefix != ""
    ensures Under(prefix + domain, domain) <==> prefix[|prefix| - 1] == '.'
  {
    var host := prefix + domain;
    var d := "." + domain;
    var tail := host[|host| - |d|..];
    assert tail == [prefix[|prefix| - 1]] + domain;
    assert tail[0] == prefix[|prefix| - 1] && d[0] == '.';
    assert |host| > |domain|;
  }
}
