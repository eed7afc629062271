/** Keeping the hosts file in step with the blocked set (agent/silentguard_agent/monitors/dns_sinkhole.py:34-104). */
module DnsSinkhole {
  import opened Text
  import opened TextSearch
  import opened HostsFile
  import opened HostsExact
  import opened HostsMarkers

  const COMMON_SUBDOMAINS: seq<string> := ["www", "m", "mobile"]

  function Dots(h: string): nat {
    if h == "" then 0 else Dots(h[1..]) + if h[0] == '.' then 1 else 0
  }

  function Prefixed(h: string, n: nat): set<string>
    requires n <= |COMMON_SUBDOMAINS|
  {
    set j | 0 <= j < n :: COMMON_SUBDOMAINS[j] + "." + h
  }

  /** The host, and for an apex domain its common subdomains. */
  function Variants(h: string): set<string> {
    if h == "" then {} else {h} + Prefixed(h, if Dots(h) == 1 then |COMMON_SUBDOMAINS| else 0)
  }

  function Expand(hosts: set<string>): set<string> {
    set h, v | h in hosts && v in Variants(h) :: v
  }

  /** One dot, with text without a dot on either side. */
  ghost predicate IsApex(h: string) {
    exists a, b :: '.' !in a && '.' !in b && h == a + "." + b
  }

  lemma {:induction false} NoDots(h: string)
    ensures Dots(h) == 0 <==> '.' !in h
  {
    if h != "" {
      NoDots(h[1..]);
      assert h == [h[0]] + h[1..];
    }
  }

  lemma ApexBehindDot(rest: string)
    ensures IsApex("." + rest) <==> '.' !in rest
  {
    var h := "." + rest;
    if '.' !in rest {
      assert h == "" + "." + rest;
    }
    if IsApex(h) {
      var a, b :| '.' !in a && '.' !in b && h == a + "." + b;
      assert h == a + ("." + b);
      assert a == "" by { assert h[0] == '.' && h[|a|] == '.'; }
      assert h[1..] == b;
    }
  }

  lemma ApexBehindOther(c: char, rest: string)
    requires c != '.'
    ensures IsApex([c] + rest) <==> IsApex(rest)
  {
    var h := [c] + rest;
    if IsApex(rest) {
      var a, b :| '.' !in a && '.' !in b && rest == a + "." + b;
      assert h == ([c] + a) + "." + b;
    }
    if IsApex(h) {
      var a, b :| '.' !in a && '.' !in b && h == a + "." + b;
      assert a != "" by { assert h[|a|] == '.' && h[0] != '.'; }
      assert h[1..] == a[1..] + "." + b;
    }
  }

  lemma {:induction false} OneDot(h: string)
    ensures Dots(h) == 1 <==> IsApex(h)
  {
    if h != "" {
      OneDot(h[1..]);
      NoDots(h[1..]);
      assert h == [h[0]] + h[1..];
      if h[0] == '.' {
        ApexBehindDot(h[1..]);
      } else {
        ApexBehindOther(h[0], h[1..]);
      }
    }
  }

  /** A listed host is blocked itself, and with exactly one dot also behind `www.`, `m.` and `mobile.`; nothing else is. */
  lemma ExpandExactly(hosts: set<string>, v: string)
    ensures v in Expand(hosts) <==>
      exists h :: h in hosts && h != "" && (v == h || (IsApex(h) && v in ["www." + h, "m." + h, "mobile." + h]))
  {
    assert v in Expand(hosts) <==> exists h :: h in hosts && v in Variants(h);
    forall h
      ensures v in Variants(h) <==> h != "" && (v == h || (IsApex(h) && v in ["www." + h, "m." + h, "mobile." + h]))
    {
      OneDot(h);
      PrefixedExactly(h, v);
    }
  }

  lemma PrefixedExactly(h: string, v: string)
    ensures v in Prefixed(h, 3) <==> v in ["www." + h, "m." + h, "mobile." + h]
    ensures Prefixed(h, 0) == {}
  {
    assert COMMON_SUBDOMAINS[0] == "www" && COMMON_SUBDOMAINS[1] == "m" && COMMON_SUBDOMAINS[2] == "mobile";
    assert "www" + "." == "www." && "m" + "." == "m." && "mobile" + "." == "mobile.";
  }

  /** So does the desktop application, which does not test for the empty host. */
  lemma HomeVariantsExactly(d: string, v: string)
    ensures v in HomeVariants(d) <==> v == d || (IsApex(d) && v in ["www." + d, "m." + d, "mobile." + d])
  {
    OneDot(d);
    PrefixedExactly(d, v);
  }

  method ExpandHosts(hosts: set<string>) returns (out: set<string>)
    ensures out == Expand(hosts)
  {
    out := {};
    var todo := hosts;
    while todo != {}
      invariant todo <= hosts && out == Expand(hosts - todo)
    {
      var h :| h in todo;
      ghost var before := out;
      if h != "" {
        out := out + {h};
        if Dots(h) == 1 {
          for i := 0 to |COMMON_SUBDOMAINS|
            invariant out == before + {h} + Prefixed(h, i)
          {
            assert Prefixed(h, i + 1) == Prefixed(h, i) + {COMMON_SUBDOMAINS[i] + "." + h};
            out := out + {COMMON_SUBDOMAINS[i] + "." + h};
          }
        }
      }
      assert out == before + Variants(h);
      assert hosts - (todo - {h}) == (hosts - todo) + {h};
      todo := todo - {h};
    }
    assert hosts - todo == hosts;
  }

  /** `sorted` on a set: a list of exactly its elements. */
  type Sort = set<string> -> seq<string>

  ghost predicate IsSort(sort: Sort) {
    forall s, x :: x in sort(s) <==> x in s
  }

  /** The desktop application rewrites its own block, without the empty-host test and without remembering what it applied
      (desktop/silentguard_home/engine.py:31-52). A raised exception leaves the file alone, too. */
  method ApplyHosts(sort: Sort, file: string, domains: seq<string>, readable: bool, writable: bool) returns (file': string, ok: bool)
    ensures var wanted := sort(set d, v | d in domains && v in HomeVariants(d) :: v);
      && (ok <==> readable && writable && Rewrite(file, HOME_MARKERS, wanted).Some?)
      && file' == if ok then Rewrite(file, HOME_MARKERS, wanted).value else file
  {
    var entries: set<string> := {};
    for i := 0 to |domains|
      invariant entries == set d, v | d in domains[..i] && v in HomeVariants(d) :: v
    {
      assert domains[..i + 1] == domains[..i] + [domains[i]];
      entries := entries + HomeVariants(domains[i]);
    }
    assert domains[..|domains|] == domains;
    var content := Rewrite(file, HOME_MARKERS, sort(entries));
    if !readable || content.None? || !writable {
      return file, false;
    }
    return content.value, true;
  }

  function HomeVariants(d: string): set<string> {
    {d} + Prefixed(d, if Dots(d) == 1 then |COMMON_SUBDOMAINS| else 0)
  }

  datatype Outcome = Unchanged | DryRun | Unreadable | Malformed | Unwritable | Written

  class Sinkhole {
    const sort: Sort
    var file: string
    var applied: set<string>
    var announced: seq<string>

    constructor (sort: Sort, file: string)
      ensures this.sort == sort && this.file == file && applied == {} && announced == []
    {
      this.sort, this.file, applied, announced := sort, file, {}, [];
    }

    /** `configured` is the set of bare hosts to block. */
    method Sync(configured: set<string>, dryRun: bool, readable: bool, writable: bool) returns (r: Outcome)
      requires IsSort(sort)
      modifies this
      ensures r == OutcomeOf(old(file), old(applied), configured, dryRun, readable, writable)
      ensures (file, applied) == SyncTo(sort, old(file), old(applied), configured, dryRun, readable, writable)
      ensures r == Written ==> announced == old(announced) + sort((Expand(configured) - old(applied)) * configured)
      ensures r != Written ==> announced == old(announced) && file == old(file)
    {
      var wanted := ExpandHosts(configured);
      var domains := sort(wanted);
      SortKeepsSet(sort, wanted);
      if (set d | d in domains) == applied {
        return Unchanged;
      }
      if dryRun {
        applied := set d | d in domains;
        return DryRun;
      }
      if !readable {
        return Unreadable;
      }
      var content := Rewrite(file, AGENT_MARKERS, domains);
      if content.None? {
        return Malformed;
      }
      if !writable {
        return Unwritable;
      }
      file := content.value;
      var newly := wanted - applied;
      applied := wanted;
      announced := announced + sort(newly * configured);
      return Written;
    }
  }

  lemma SortKeepsSet(sort: Sort, s: set<string>)
    requires IsSort(sort)
    ensures (set d | d in sort(s)) == s
  {
  }

  function OutcomeOf(file: string, applied: set<string>, configured: set<string>, dryRun: bool, readable: bool, writable: bool)
    : Outcome
  {
    if Expand(configured) == applied then Unchanged
    else if dryRun then DryRun
    else if !readable then Unreadable
    else if StripBlock(file, AGENT_MARKERS).None? then Malformed
    else if !writable then Unwritable
    else Written
  }

  function SyncTo(sort: Sort, file: string, applied: set<string>, configured: set<string>, dryRun: bool, readable: bool,
                  writable: bool): (string, set<string>) {
    match OutcomeOf(file, applied, configured, dryRun, readable, writable)
    case DryRun => (file, Expand(configured))
    case Written => (Rewrite(file, AGENT_MARKERS, sort(Expand(configured))).value, Expand(configured))
    case _ => (file, applied)
  }

  /** A pass that can read and write a well-formed file leaves the wanted set in force; one that cannot changes nothing, and a dry
      run changes no file. */
  lemma PassReads(sort: Sort, file: string, applied: set<string>, configured: set<string>, readable: bool, writable: bool)
    ensures var (f, a) := SyncTo(sort, file, applied, configured, true, readable, writable); f == file && a == Expand(configured)
    ensures var (f, a) := SyncTo(sort, file, applied, configured, false, readable, writable);
      if readable && writable && StripBlock(file, AGENT_MARKERS).Some? then
        a == Expand(configured)
        && (if a == applied then f == file else Some(f) == Rewrite(file, AGENT_MARKERS, sort(Expand(configured))))
      else f == file && a == applied
  {
  }

  // ---- Runs of one agent process, outside dry-run; nobody else rewrites the file ----

  datatype Step = Step(configured: set<string>, readable: bool, writable: bool)

  function Run(sort: Sort, file: string, steps: seq<Step>): (string, set<string>) {
    if steps == [] then (file, {})
    else
      var (f, a) := Run(sort, file, steps[..|steps| - 1]);
      var s := steps[|steps| - 1];
      SyncTo(sort, f, a, s.configured, false, s.readable, s.writable)
  }

  /** How the last synchronisation of a run ended. */
  function LastOutcome(sort: Sort, file: string, steps: seq<Step>): Outcome
    requires steps != []
  {
    var (f, a) := Run(sort, file, steps[..|steps| - 1]);
    var s := steps[|steps| - 1];
    OutcomeOf(f, a, s.configured, false, s.readable, s.writable)
  }

  predicate EverWritten(sort: Sort, file: string, steps: seq<Step>) {
    steps != [] && (EverWritten(sort, file, steps[..|steps| - 1]) || LastOutcome(sort, file, steps) == Written)
  }

  predicate Clean(file: string) {
    StripBlock(file, AGENT_MARKERS).Some? && !Contains(StripBlock(file, AGENT_MARKERS).value, AGENT_MARKERS.begin)
  }

  predicate StepsOk(sort: Sort, steps: seq<Step>) {
    forall s <- steps :: HostsOk(AGENT_MARKERS, sort(Expand(s.configured)))
  }

  /** Until the first write the file is the original and nothing counts as applied; from then on the file is the original
      rewritten once, with the applied set. */
  ghost predicate InStep(sort: Sort, original: string, written: bool, file: string, applied: set<string>) {
    if written then Rewrite(original, AGENT_MARKERS, sort(applied)) == Some(file) && HostsOk(AGENT_MARKERS, sort(applied))
    else file == original && applied == {}
  }

  lemma RewriteInStep(sort: Sort, original: string, written: bool, file: string, applied: set<string>, wanted: set<string>)
    requires Clean(original) && InStep(sort, original, written, file, applied) && HostsOk(AGENT_MARKERS, sort(wanted))
    requires Rewrite(file, AGENT_MARKERS, sort(wanted)).Some?
    ensures InStep(sort, original, true, Rewrite(file, AGENT_MARKERS, sort(wanted)).value, wanted)
  {
    AgentMarkersProper();
    if written {
      LastRewriteWins(original, AGENT_MARKERS, sort(applied), sort(wanted));
    }
  }

  /** However often the blocked set changes, and whatever reads and writes fail in between: the file is the original before the
      first write, and the original rewritten once with the applied set after it. */
  lemma {:induction false} SyncIsOneRewrite(sort: Sort, original: string, steps: seq<Step>)
    requires Clean(original) && StepsOk(sort, steps)
    ensures InStep(sort, original, EverWritten(sort, original, steps), Run(sort, original, steps).0, Run(sort, original, steps).1)
  {
    if steps != [] {
      var front, s := steps[..|steps| - 1], steps[|steps| - 1];
      SyncIsOneRewrite(sort, original, front);
      assert s in steps;
      if LastOutcome(sort, original, steps) == Written {
        var (f, a) := Run(sort, original, front);
        RewriteInStep(sort, original, EverWritten(sort, original, front), f, a, Expand(s.configured));
      }
    }
  }

  /** Starting from any file, every run keeps that form if and only if the file is clean - or malformed, so that nothing is ever
      written. Otherwise blocking one host and then another breaks it. */
  lemma InStepExactly(sort: Sort, original: string)
    requires IsSort(sort)
    ensures (forall steps :: StepsOk(sort, steps) ==>
        InStep(sort, original, EverWritten(sort, original, steps), Run(sort, original, steps).0, Run(sort, original, steps).1))
      <==> Clean(original) || StripBlock(original, AGENT_MARKERS).None?
  {
    if StripBlock(original, AGENT_MARKERS).None? {
      forall steps
        ensures InStep(sort, original, EverWritten(sort, original, steps), Run(sort, original, steps).0, Run(sort, original, steps).1)
      {
        MalformedStays(sort, original, steps);
      }
    } else if Clean(original) {
      forall steps | StepsOk(sort, steps)
        ensures InStep(sort, original, EverWritten(sort, original, steps), Run(sort, original, steps).0, Run(sort, original, steps).1)
      {
        SyncIsOneRewrite(sort, original, steps);
      }
    } else {
      var steps := TwoWrites(sort, original);
    }
  }

  /** A host on one line, without a dot or a comment sign. */
  predicate Simple(h: string) {
    h != "" && Dots(h) == 0 && '#' !in h && '\n' !in h
  }

  lemma ExpandSimple(h: string)
    requires Simple(h)
    ensures Expand({h}) == {h}
  {
    assert Variants(h) == {h};
    assert forall v :: v in Expand({h}) <==> v in Variants(h);
  }

  lemma SortSimple(sort: Sort, h: string)
    requires IsSort(sort) && Simple(h)
    ensures IsPlain(sort({h})) && h in sort({h}) && HostsOk(AGENT_MARKERS, sort({h}))
  {
    assert forall x :: x in sort({h}) <==> x in {h};
    AgentMarkersProper();
    PlainHosts(AGENT_MARKERS, sort({h}));
  }

  lemma WriteOne(sort: Sort, original: string, x: string, file: string)
    requires Simple(x) && Rewrite(original, AGENT_MARKERS, sort({x})) == Some(file)
    ensures var steps := [Step({x}, true, true)];
      LastOutcome(sort, original, steps) == Written && Run(sort, original, steps) == (file, {x})
  {
    ExpandSimple(x);
    assert [Step({x}, true, true)][..0] == [];
    assert Run(sort, original, []) == (original, {});
  }

  /** Blocking one host and then another, from a file that can be rewritten twice. */
  lemma BlockTwice(sort: Sort, original: string, x: string, y: string, first: string, second: string) returns (steps: seq<Step>)
    requires IsSort(sort) && Simple(x) && Simple(y) && x != y
    requires Rewrite(original, AGENT_MARKERS, sort({x})) == Some(first) && Rewrite(first, AGENT_MARKERS, sort({y})) == Some(second)
    ensures StepsOk(sort, steps) && EverWritten(sort, original, steps) && Run(sort, original, steps) == (second, {y})
    ensures steps != [] && steps[|steps| - 1].configured == {y} && LastOutcome(sort, original, steps) == Written
  {
    SortSimple(sort, x);
    SortSimple(sort, y);
    ExpandSimple(x);
    ExpandSimple(y);
    WriteOne(sort, original, x, first);
    steps := [Step({x}, true, true), Step({y}, true, true)];
    assert steps[..1] == [Step({x}, true, true)];
    assert x in {x} && x !in {y};
  }

  lemma TwoWrites(sort: Sort, original: string) returns (steps: seq<Step>)
    requires IsSort(sort) && StripBlock(original, AGENT_MARKERS).Some? && !Clean(original)
    ensures StepsOk(sort, steps)
    ensures !InStep(sort, original, EverWritten(sort, original, steps), Run(sort, original, steps).0, Run(sort, original, steps).1)
  {
    steps := TwoWritesOf(sort, original, "a", "b");
  }

  lemma TwoWritesOf(sort: Sort, original: string, x: string, y: string) returns (steps: seq<Step>)
    requires IsSort(sort) && StripBlock(original, AGENT_MARKERS).Some? && !Clean(original) && Simple(x) && Simple(y) && x != y
    ensures StepsOk(sort, steps)
    ensures !InStep(sort, original, EverWritten(sort, original, steps), Run(sort, original, steps).0, Run(sort, original, steps).1)
  {
    SortSimple(sort, x);
    OwnRewriteWinsExactly(original, AGENT_MARKERS, sort({x}), sort({y}));
    var first := Rewrite(original, AGENT_MARKERS, sort({x})).value;
    OwnStripsAgain(original, AGENT_MARKERS, sort({x}));
    var second := Rewrite(first, AGENT_MARKERS, sort({y})).value;
    steps := BlockTwice(sort, original, x, y, first, second);
  }

  // ---- Which hosts the file pins ----

  /** What a rewrite keeps of a file. */
  function Outside(file: string): string
    requires StripBlock(file, AGENT_MARKERS).Some?
  {
    RStrip(StripBlock(file, AGENT_MARKERS).value)
  }

  /** The file and the text outside its block pin different hosts. */
  ghost predicate StaleBlock(file: string)
    requires StripBlock(file, AGENT_MARKERS).Some?
  {
    exists h :: Pins(file, h) != Pins(Outside(file), h)
  }

  ghost predicate PinsExactly(outside: string, file: string, wanted: set<string>) {
    forall h :: Pins(file, h) <==> h in wanted || Pins(outside, h)
  }

  /** The text the last write kept, or the original's. */
  function LastKept(sort: Sort, original: string, steps: seq<Step>): string
    requires StripBlock(original, AGENT_MARKERS).Some?
  {
    if steps == [] then Outside(original)
    else if LastOutcome(sort, original, steps) == Written then Outside(Run(sort, original, steps[..|steps| - 1]).0)
    else LastKept(sort, original, steps[..|steps| - 1])
  }

  lemma WrittenPinsExactly(sort: Sort, file: string, wanted: set<string>)
    requires IsSort(sort) && StripBlock(file, AGENT_MARKERS).Some? && HostsOk(AGENT_MARKERS, sort(wanted))
    ensures PinsExactly(Outside(file), Rewrite(file, AGENT_MARKERS, sort(wanted)).value, wanted)
  {
    AgentMarkersProper();
    forall h
      ensures Pins(Rewrite(file, AGENT_MARKERS, sort(wanted)).value, h) <==> h in wanted || Pins(Outside(file), h)
    {
      RewritePinsExactly(file, AGENT_MARKERS, sort(wanted), h);
    }
  }

  /** Whatever the original: once written, the file pins exactly the applied set besides what the text kept by the last write
      pins; before that it is the original. */
  lemma {:induction false} RunPins(sort: Sort, original: string, steps: seq<Step>)
    requires IsSort(sort) && StripBlock(original, AGENT_MARKERS).Some? && StepsOk(sort, steps)
    ensures var (f, a) := Run(sort, original, steps);
      if EverWritten(sort, original, steps) then PinsExactly(LastKept(sort, original, steps), f, a) else f == original && a == {}
  {
    if steps != [] {
      var front, s := steps[..|steps| - 1], steps[|steps| - 1];
      RunPins(sort, original, front);
      assert s in steps;
      if LastOutcome(sort, original, steps) == Written {
        WrittenPinsExactly(sort, Run(sort, original, front).0, Expand(s.configured));
      }
    }
  }

  /** After a synchronisation that reports success, from any original that is not malformed: the file sinkholes exactly the
      blocked set, besides what lines outside the original's block pin, if and only if - once something was written - the text
      that the last write kept pins the same other hosts, and - before - the original has no stale block. Nothing having been
      written takes that nothing is to be blocked. */
  lemma SyncPinsExactly(sort: Sort, original: string, steps: seq<Step>)
    requires IsSort(sort) && StripBlock(original, AGENT_MARKERS).Some? && StepsOk(sort, steps)
    requires steps != [] && LastOutcome(sort, original, steps) in {Written, Unchanged}
    ensures var wanted := Expand(steps[|steps| - 1].configured);
      && (PinsExactly(Outside(original), Run(sort, original, steps).0, wanted) <==>
            if EverWritten(sort, original, steps)
            then forall h :: h !in wanted ==> Pins(LastKept(sort, original, steps), h) == Pins(Outside(original), h)
            else !StaleBlock(original))
      && (!EverWritten(sort, original, steps) ==> wanted == {})
  {
    RunPins(sort, original, steps);
    assert Run(sort, original, steps).1 == Expand(steps[|steps| - 1].configured);
  }

  /** From a clean original that is always so once something was written. */
  lemma CleanKeepsOutside(sort: Sort, original: string, steps: seq<Step>)
    requires IsSort(sort) && Clean(original) && StepsOk(sort, steps)
    ensures LastKept(sort, original, steps) == Outside(original)
  {
    if steps != [] {
      var front := steps[..|steps| - 1];
      CleanKeepsOutside(sort, original, front);
      if LastOutcome(sort, original, steps) == Written {
        SyncIsOneRewrite(sort, original, front);
        if EverWritten(sort, original, front) {
          AgentMarkersProper();
          RewriteKeeps(original, AGENT_MARKERS, sort(Run(sort, original, front).1));
        }
      }
    }
  }

  /** A file with two blocks, the second left by hand or by a copied file: blocking one host and then another leaves the first
      in force, although both synchronisations report success. */
  lemma TwoBlocksStale(sort: Sort, a: string, first: seq<string>, second: seq<string>, x: string, y: string)
    returns (steps: seq<Step>)
    requires IsSort(sort) && Simple(x) && Simple(y) && x != y
    requires !Contains(a, AGENT_MARKERS.begin) && HostsOk(AGENT_MARKERS, first) && HostsOk(AGENT_MARKERS, second)
    ensures var original := TwoBlocks(a, AGENT_MARKERS, first, second);
      && steps != [] && LastOutcome(sort, original, steps) == Written
      && Run(sort, original, steps).1 == {y} && Pins(Run(sort, original, steps).0, x)
  {
    AgentMarkersProper();
    SortSimple(sort, x);
    BlocksSlideTwice(a, AGENT_MARKERS, first, second, sort({x}), sort({y}));
    var one, two := TwoBlocks(a + "\n", AGENT_MARKERS, second, sort({x})), TwoBlocks(a + "\n" + "\n", AGENT_MARKERS, sort({x}), sort({y}));
    FirstBlockPins(a + "\n" + "\n", AGENT_MARKERS, sort({x}), sort({y}), x);
    steps := BlockTwice(sort, TwoBlocks(a, AGENT_MARKERS, first, second), x, y, one, two);
  }

  lemma WrittenClean(older: string, hosts: seq<string>)
    requires Clean(older) && HostsOk(AGENT_MARKERS, hosts)
    ensures var file := Rewrite(older, AGENT_MARKERS, hosts);
      file.Some? && Clean(file.value) && Outside(file.value) == Outside(older)
  {
    AgentMarkersProper();
    RewriteKeeps(older, AGENT_MARKERS, hosts);
    StillFree(older, AGENT_MARKERS, hosts);
  }

  lemma WrittenPins(older: string, hosts: seq<string>)
    requires Clean(older) && HostsOk(AGENT_MARKERS, hosts) && Rewrite(older, AGENT_MARKERS, hosts).Some?
    ensures var file := Rewrite(older, AGENT_MARKERS, hosts).value;
      (exists h :: Pins(file, h) != Pins(Outside(older), h)) <==> exists h :: h in hosts && !Pins(Outside(older), h)
  {
    AgentMarkersProper();
    OtherPinsExactly(older, AGENT_MARKERS, hosts);
  }

  /** A block left by an earlier process is stale exactly when it pins a host that no line outside pins. */
  lemma StaleExactly(older: string, hosts: seq<string>)
    requires Clean(older) && HostsOk(AGENT_MARKERS, hosts)
    ensures Rewrite(older, AGENT_MARKERS, hosts).Some?
    ensures var file := Rewrite(older, AGENT_MARKERS, hosts).value;
      Clean(file) && (StaleBlock(file) <==> exists h :: h in hosts && !Pins(Outside(older), h))
  {
    WrittenClean(older, hosts);
    WrittenPins(older, hosts);
  }

  /** So an agent that is started again after everything was unblocked leaves the old block in force. */
  lemma RestartKeepsStale(sort: Sort, older: string, hosts: seq<string>, h: string)
    requires Clean(older) && HostsOk(AGENT_MARKERS, hosts) && h in hosts && !Pins(Outside(older), h)
    ensures var file := Rewrite(older, AGENT_MARKERS, hosts); var steps := [Step({}, true, true)];
      && file.Some? && LastOutcome(sort, file.value, steps) == Unchanged
      && Run(sort, file.value, steps).0 == file.value && Pins(file.value, h)
  {
    AgentMarkersProper();
    var file := Rewrite(older, AGENT_MARKERS, hosts).value;
    RewritePinsExactly(older, AGENT_MARKERS, hosts, h);
    assert [Step({}, true, true)][..0] == [];
    assert Expand({}) == {};
    assert Run(sort, file, []) == (file, {});
  }

  // ---- A malformed file ----

  /** A file with a begin marker and no end marker behind it is never changed: every pass that has something to block, and can
      read the file, is ended by an exception. */
  lemma {:induction false} MalformedStays(sort: Sort, original: string, steps: seq<Step>)
    requires StripBlock(original, AGENT_MARKERS).None?
    ensures Run(sort, original, steps) == (original, {}) && !EverWritten(sort, original, steps)
    ensures steps != [] && steps[|steps| - 1].readable && Expand(steps[|steps| - 1].configured) != {} ==>
      LastOutcome(sort, original, steps) == Malformed
  {
    if steps != [] {
      MalformedStays(sort, original, steps[..|steps| - 1]);
    }
  }
}
