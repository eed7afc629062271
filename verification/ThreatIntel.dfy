/** The indicator store and its subdomain-aware lookup (server/app/services/threat_intel.py:32-65, 88-121). */
module ThreatIntel {
  import opened Text
  import opened NetMatch

  /** `expires` is none for an indicator that stays. */
  datatype Ioc = Ioc(org: string, kind: string, value: string, confidence: int, expires: Option<real>)

  const IOC_TYPES := {"domain", "ip", "url", "sha256", "certificate"}

  predicate Expired(row: Ioc, now: real) {
    row.expires.Some? && row.expires.value <= now
  }

  function Normalize(extract: Extract, kind: string, value: string): string {
    var v := Strip(value);
    if kind == "domain" then if extract(v) != "" then extract(v) else Lower(v)
    else if kind in {"url", "sha256", "certificate"} then Lower(v)
    else v
  }

  /** The first row of the query, in storage order. */
  function First(rows: seq<Ioc>, org: string, kind: string, values: seq<string>, now: real): Option<Ioc> {
    if rows == [] then None
    else if rows[0].org == org && rows[0].kind == kind && rows[0].value in values && !Expired(rows[0], now) then Some(rows[0])
    else First(rows[1..], org, kind, values, now)
  }

  /** Both domain and URL candidates are matched against domain indicators. */
  function Lookup(extract: Extract, rows: seq<Ioc>, org: string, kind: string, value: string, now: real): Option<Ioc> {
    if kind == "domain" || kind == "url" then First(rows, org, "domain", ParentDomains(extract, value), now)
    else First(rows, org, kind, [Normalize(extract, kind, value)], now)
  }

  predicate SameKey(r: Ioc, s: Ioc) {
    r.org == s.org && r.kind == s.kind && r.value == s.value
  }

  /** The first row of the same indicator is updated; without one the row is added. */
  function Put(rows: seq<Ioc>, row: Ioc): seq<Ioc> {
    if rows == [] then [row]
    else if SameKey(rows[0], row) then [row] + rows[1..]
    else [rows[0]] + Put(rows[1..], row)
  }

  /** No two rows hold the same indicator of an organization. */
  predicate Unique(rows: seq<Ioc>) {
    forall i, j :: 0 <= i < j < |rows| ==>
      rows[i].org != rows[j].org || rows[i].kind != rows[j].kind || rows[i].value != rows[j].value
  }

  class Store {
    var rows: seq<Ioc>

    constructor ()
      ensures rows == []
    {
      rows := [];
    }

    method Upsert(extract: Extract, org: string, kind: string, value: string, confidence: int, expires: Option<real>)
      returns (ok: bool)
      modifies this
      ensures ok <==> kind in {"domain", "ip", "url", "sha256", "certificate"}
      ensures rows == if ok then Put(old(rows), Ioc(org, kind, Normalize(extract, kind, value), confidence, expires)) else old(rows)
    {
      if kind !in IOC_TYPES {
        return false;
      }
      var row := Ioc(org, kind, Normalize(extract, kind, value), confidence, expires);
      var i := 0;
      while i < |rows| && !SameKey(rows[i], row)
        invariant 0 <= i <= |rows| && rows == old(rows)
        invariant forall r <- rows[..i] :: !SameKey(r, row)
      {
        i := i + 1;
      }
      PutPlace(rows, row, i);
      rows := if i < |rows| then rows[i := row] else rows + [row];
      return true;
    }

    /** Deleting the expired rows keeps the others in order. */
    method PruneExpired(now: real) returns (count: nat)
      modifies this
      ensures rows == Live(old(rows), now) && count == |old(rows)| - |rows|
    {
      var kept: seq<Ioc> := [];
      count := 0;
      for i := 0 to |rows|
        invariant rows == old(rows) && kept == Live(rows[..i], now) && count == i - |kept|
      {
        assert rows[..i + 1][..i] == rows[..i];
        if Expired(rows[i], now) {
          count := count + 1;
        } else {
          kept := kept + [rows[i]];
        }
      }
      assert rows[..|rows|] == rows;
      rows := kept;
    }
  }

  function Live(rows: seq<Ioc>, now: real): seq<Ioc> {
    if rows == [] then []
    else
      var last := |rows| - 1;
      Live(rows[..last], now) + if Expired(rows[last], now) then [] else [rows[last]]
  }

  // ---- What storing an indicator changes ----

  function CountKey(rows: seq<Ioc>, row: Ioc): nat {
    if rows == [] then 0 else CountKey(rows[1..], row) + if SameKey(rows[0], row) then 1 else 0
  }

  /** The row stands where the first one of the same organization, kind and value stood, or else at the end. */
  lemma {:induction false} PutPlace(rows: seq<Ioc>, row: Ioc, i: nat)
    requires i <= |rows|
    requires forall r <- rows[..i] :: r.org != row.org || r.kind != row.kind || r.value != row.value
    requires i < |rows| ==> rows[i].org == row.org && rows[i].kind == row.kind && rows[i].value == row.value
    ensures Put(rows, row) == if i < |rows| then rows[i := row] else rows + [row]
  {
    if i > 0 {
      assert rows[..i][0] == rows[0] && forall r <- rows[1..][..i - 1] :: r in rows[..i];
      PutPlace(rows[1..], row, i - 1);
    }
  }

  /** The indicator is stored, all others are as before, and its rows become no more - except from none to one. */
  lemma {:induction false} PutStores(rows: seq<Ioc>, row: Ioc, r: Ioc)
    ensures row in Put(rows, row)
    ensures r.org != row.org || r.kind != row.kind || r.value != row.value ==> (r in Put(rows, row) <==> r in rows)
    ensures CountKey(Put(rows, row), row) == if CountKey(rows, row) == 0 then 1 else CountKey(rows, row)
  {
    if rows != [] {
      PutStores(rows[1..], row, r);
      assert r in rows <==> r == rows[0] || r in rows[1..];
      if SameKey(rows[0], row) {
        assert ([row] + rows[1..])[1..] == rows[1..];
        assert r in [row] + rows[1..] <==> r == row || r in rows[1..];
      } else {
        assert ([rows[0]] + Put(rows[1..], row))[1..] == Put(rows[1..], row);
      }
    }
  }

  /** So a store without duplicates stays one. */
  lemma {:induction false} PutKeepsUnique(rows: seq<Ioc>, row: Ioc)
    requires Unique(rows)
    ensures Unique(Put(rows, row))
  {
    if rows != [] && !SameKey(rows[0], row) {
      var rest := Put(rows[1..], row);
      PutKeepsUnique(rows[1..], row);
      forall i | 0 <= i < |rest|
        ensures !SameKey(rows[0], rest[i])
      {
        PutStores(rows[1..], row, rest[i]);
      }
    }
  }

  // ---- What a lookup finds ----

  lemma {:induction false} FirstExactly(rows: seq<Ioc>, org: string, kind: string, values: seq<string>, now: real)
    ensures First(rows, org, kind, values, now).Some?
      <==> exists r :: r in rows && r.org == org && r.kind == kind && r.value in values && !Expired(r, now)
    ensures var f := First(rows, org, kind, values, now); f.Some? ==>
      f.value in rows && f.value.org == org && f.value.kind == kind && f.value.value in values && !Expired(f.value, now)
  {
    if rows != [] {
      FirstExactly(rows[1..], org, kind, values, now);
      assert forall r :: r in rows <==> r == rows[0] || r in rows[1..];
    }
  }

  predicate IsLive(r: Ioc, now: real) {
    r.expires.None? || now < r.expires.value
  }

  /** A live domain indicator of the organization that is the host, or is what follows one of its dots. */
  ghost predicate Covers(extract: Extract, r: Ioc, org: string, value: string, now: real) {
    && r.org == org && r.kind == "domain" && IsLive(r, now)
    && extract(value) != "" && (extract(value) == r.value || exists p :: extract(value) == p + "." + r.value)
  }

  /** A domain or URL lookup hits exactly when there is such an indicator, and returns one. */
  lemma LookupExactly(extract: Extract, rows: seq<Ioc>, org: string, kind: string, value: string, now: real)
    requires kind == "domain" || kind == "url"
    ensures Lookup(extract, rows, org, kind, value, now).Some?
      <==> exists r :: r in rows && Covers(extract, r, org, value, now)
    ensures var f := Lookup(extract, rows, org, kind, value, now);
      f.Some? ==> f.value in rows && Covers(extract, f.value, org, value, now)
  {
    FirstExactly(rows, org, "domain", ParentDomains(extract, value), now);
    forall r
      ensures Covers(extract, r, org, value, now)
        <==> r.org == org && r.kind == "domain" && r.value in ParentDomains(extract, value) && !Expired(r, now)
    {
      if extract(value) != "" {
        SuffixesAreUnder(extract(value), r.value);
        UnderMeans(extract(value), r.value);
      }
    }
  }

  /** A live indicator of the organization with the value looked up, hashes and certificates in any case. */
  predicate Names(r: Ioc, org: string, kind: string, value: string, now: real) {
    && r.org == org && r.kind == kind && IsLive(r, now)
    && r.value == if kind == "sha256" || kind == "certificate" then Lower(Strip(value)) else Strip(value)
  }

  /** Any other lookup hits exactly when there is such an indicator, and returns one. */
  lemma OtherLookupExactly(extract: Extract, rows: seq<Ioc>, org: string, kind: string, value: string, now: real)
    requires kind != "domain" && kind != "url"
    ensures Lookup(extract, rows, org, kind, value, now).Some? <==> exists r :: r in rows && Names(r, org, kind, value, now)
    ensures var f := Lookup(extract, rows, org, kind, value, now);
      f.Some? ==> f.value in rows && Names(f.value, org, kind, value, now)
  {
    FirstExactly(rows, org, kind, [Normalize(extract, kind, value)], now);
    assert forall r: Ioc :: Names(r, org, kind, value, now) <==>
      r.org == org && r.kind == kind && r.value in [Normalize(extract, kind, value)] && !Expired(r, now);
  }

  /** Blanks around an indicator never count; a domain is reduced to its host, and only an address keeps its case. */
  lemma NormalizeReads(extract: Extract, kind: string, before: string, value: string, after: string)
    requires Blank(before) && Blank(after) && Trimmed(value) && kind in {"domain", "ip", "url", "sha256", "certificate"}
    ensures Normalize(extract, kind, before + value + after)
      == if kind == "ip" then value else if kind == "domain" && extract(value) != "" then extract(value) else Lower(value)
  {
    StripBlanks(before, value, after);
  }

  /** A stored address, hash or certificate is found until it expires, whatever blanks stand around it and, but for an address,
      in whatever case it is spelled. */
  lemma StoredIsFound(extract: Extract, rows: seq<Ioc>, org: string, kind: string, value: string, padded: string, asked: string,
                      asPadded: string, confidence: int, expires: Option<real>, now: real)
    requires kind in {"ip", "sha256", "certificate"} && (expires.Some? ==> now < expires.value)
    requires Pads(padded, value) && Pads(asPadded, asked) && (asked == value || (kind != "ip" && Lower(asked) == Lower(value)))
    ensures var stored := Put(rows, Ioc(org, kind, Normalize(extract, kind, padded), confidence, expires));
      Lookup(extract, stored, org, kind, asPadded, now).Some?
  {
    var row := Ioc(org, kind, Normalize(extract, kind, padded), confidence, expires);
    PutStores(rows, row, row);
    OtherLookupExactly(extract, Put(rows, row), org, kind, asPadded, now);
    var a, b :| Blank(a) && Blank(b) && padded == a + value + b;
    var c, d :| Blank(c) && Blank(d) && asPadded == c + asked + d;
    StripBlanks(a, value, b);
    StripBlanks(c, asked, d);
    assert Names(row, org, kind, asPadded, now);
  }

  ghost predicate Pads(padded: string, value: string) {
    Trimmed(value) && exists before, after :: Blank(before) && Blank(after) && padded == before + value + after
  }

  /** Storing a domain indicator makes every host under it hit until the indicator expires. */
  lemma StoredDomainCovers(extract: Extract, rows: seq<Ioc>, org: string, domain: string, confidence: int,
                           expires: Option<real>, kind: string, value: string, now: real)
    requires kind == "domain" || kind == "url"
    requires Ioc(org, "domain", Normalize(extract, "domain", domain), confidence, expires) in rows
    requires expires.Some? ==> now < expires.value
    requires var d, host := extract(Strip(domain)), extract(value);
      d != "" && host != "" && (host == d || exists p :: host == p + "." + d)
    ensures Lookup(extract, rows, org, kind, value, now).Some?
  {
    LookupExactly(extract, rows, org, kind, value, now);
    assert Covers(extract, Ioc(org, "domain", Normalize(extract, "domain", domain), confidence, expires), org, value, now);
  }

  lemma {:induction false} FirstConcat(a: seq<Ioc>, b: seq<Ioc>, org: string, kind: string, values: seq<string>, now: real)
    ensures First(a + b, org, kind, values, now)
      == if First(a, org, kind, values, now).Some? then First(a, org, kind, values, now) else First(b, org, kind, values, now)
  {
    if a == [] {
      assert a + b == b;
    } else {
      assert (a + b)[1..] == a[1..] + b;
      FirstConcat(a[1..], b, org, kind, values, now);
    }
  }

  /** Pruning drops the expired rows, and keeps the others in order. */
  lemma {:induction false} LiveExactly(a: seq<Ioc>, b: seq<Ioc>, r: Ioc, now: real)
    ensures Live(a + b, now) == Live(a, now) + Live(b, now)
    ensures Live([r], now) == if r.expires.Some? && r.expires.value <= now then [] else [r]
  {
    assert [r][..0] == [];
    if b == [] {
      assert a + b == a;
    } else {
      assert (a + b)[..|a + b| - 1] == a + b[..|b| - 1];
      LiveExactly(a, b[..|b| - 1], r, now);
    }
  }

  lemma {:induction false} FirstAfterPrune(rows: seq<Ioc>, org: string, kind: string, values: seq<string>, pruned: real, now: real)
    requires pruned <= now
    ensures First(Live(rows, pruned), org, kind, values, now) == First(rows, org, kind, values, now)
  {
    if rows != [] {
      var front, last := rows[..|rows| - 1], rows[|rows| - 1];
      FirstAfterPrune(front, org, kind, values, pruned, now);
      FirstConcat(Live(front, pruned), if Expired(last, pruned) then [] else [last], org, kind, values, now);
      FirstConcat(front, [last], org, kind, values, now);
      assert rows == front + [last];
    }
  }

  /** Pruning never changes what a later lookup returns. */
  lemma PruneIsInvisible(extract: Extract, rows: seq<Ioc>, org: string, kind: string, value: string, pruned: real, now: real)
    requires pruned <= now
    ensures Lookup(extract, Live(rows, pruned), org, kind, value, now) == Lookup(extract, rows, org, kind, value, now)
  {
    FirstAfterPrune(rows, org, "domain", ParentDomains(extract, value), pruned, now);
    FirstAfterPrune(rows, org, kind, [Normalize(extract, kind, value)], pruned, now);
  }

  /** A stored URL indicator is never returned: a URL is looked up among the domains. */
  lemma UrlNeverHits(extract: Extract, rows: seq<Ioc>, org: string, kind: string, value: string, now: real)
    ensures var f := Lookup(extract, rows, org, kind, value, now); f.Some? ==> f.value.kind != "url"
  {
    FirstExactly(rows, org, "domain", ParentDomains(extract, value), now);
    FirstExactly(rows, org, kind, [Normalize(extract, kind, value)], now);
  }

  /** So a store of URL indicators only answers no lookup at all. */
  lemma OnlyUrlsNeverHit(extract: Extract, rows: seq<Ioc>, org: string, kind: string, value: string, now: real)
    requires forall r <- rows :: r.kind == "url"
    ensures Lookup(extract, rows, org, kind, value, now).None?
  {
    UrlNeverHits(extract, rows, org, kind, value, now);
    FirstExactly(rows, org, "domain", ParentDomains(extract, value), now);
    FirstExactly(rows, org, kind, [Normalize(extract, kind, value)], now);
  }
}
