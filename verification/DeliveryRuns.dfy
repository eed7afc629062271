/** What the runs of one device and the server mean for commands, response actions and reports. */
module DeliveryRuns {
  import opened Text
  import opened Ingest
  import opened CommandQueue
  import opened DeliveryWorld
  import opened DeliveryOrder
  import S = SpoolRuns

  function Commands(queued: seq<Command>, ps: seq<nat>): seq<Command> {
    seq(|ps|, i requires 0 <= i < |ps| => CommandAt(queued, ps[i]))
  }

  /** Down: in a run whose telemetry requests isolate from a list that is still pending, the commands handed out, followed by
      those pending, are the commands the four writers queued - nothing is lost, repeated or reordered - and the agent
      executes each at most once, in that order. */
  lemma AtMostOnceInOrder(steps: seq<Step>)
    requires Fresh(steps)
    ensures var w := Run(Initial(), steps);
      && Commands(w.queued, w.handed) + Commands(w.queued, w.pending) == w.queued
      && (forall i :: 0 <= i < |w.executed| ==> w.executed[i] < |w.handed|)
      && (forall i, j :: 0 <= i < j < |w.executed| ==> w.executed[i] < w.executed[j])
  {
    FreshRunKeeps(steps);
    InOrderCommands(Run(Initial(), steps));
  }

  lemma InOrderCommands(w: World)
    requires InOrder(w)
    ensures Commands(w.queued, w.handed) + Commands(w.queued, w.pending) == w.queued
  {
    var all := w.handed + w.pending;
    assert Commands(w.queued, all) == Commands(w.queued, w.handed) + Commands(w.queued, w.pending);
    forall i | 0 <= i < |w.queued|
      ensures Commands(w.queued, all)[i] == w.queued[i]
    {
      assert all[i] == i;
    }
  }

  /** In every run: a committed response action is a completed server action that queued nothing, or has exactly one queued
      command, which asks for it; and an outcome that an agent action shows is what a report of executing that command said.
      In a fresh run there is no other report. */
  lemma OutcomesAreTheAgents(steps: seq<Step>, k: int)
    requires k in Run(Initial(), steps).server.actions
    ensures var w := Run(Initial(), steps); var a := w.server.actions[k];
      && ActionOk(a, w.queued, k)
      && (a.kind in AGENT_ACTIONS && a.status != Queued ==>
            && Done(w, k) && a.report.Some? && a.report.value in w.emitted && Reports(a.report.value, k)
            && a == Resolve(Action(a.kind, Queued, None), a.report.value))
    ensures var w := Run(Initial(), steps); var a := w.server.actions[k];
      Fresh(steps) && a.kind in AGENT_ACTIONS && a.status != Queued ==>
        forall ev <- w.emitted :: Reports(ev, k) ==> ev == a.report.value
  {
    RunKeeps(Initial(), steps);
    var w := Run(Initial(), steps);
    var a := w.server.actions[k];
    assert OutcomeOk(a, w.emitted, k);
    if Fresh(steps) && a.kind in AGENT_ACTIONS && a.status != Queued {
      FreshRunKeeps(steps);
      assert forall ev <- w.emitted :: Reports(ev, k) ==> ev == a.report.value;
    }
  }

  // ---- Which actions finish ----

  /** The agent has no branch for the commands `isolate` and `release`, and an action whose command it does not handle stays
      queued in every run. */
  lemma UnhandledStaysQueued(steps: seq<Step>, k: int)
    requires k in Run(Initial(), steps).server.actions
    requires var kind := Run(Initial(), steps).server.actions[k].kind;
      kind in AGENT_ACTIONS && AGENT_ACTIONS[kind] !in HANDLED
    ensures Run(Initial(), steps).server.actions[k].status == Queued
  {
    RunKeeps(Initial(), steps);
  }

  /** Some run resolves an action of the kind. */
  ghost predicate CanFinish(kind: string) {
    exists steps, k: int :: Resolved(Run(Initial(), steps), kind, k)
  }

  predicate Resolved(w: World, kind: string, k: int) {
    k in w.server.actions && w.server.actions[k].kind == kind && w.server.actions[k].status != Queued
  }

  /** A response action can leave `queued` exactly when the agent has a branch for its command: unless it isolates or releases. */
  lemma FinishesExactly(kind: string)
    requires kind in AGENT_ACTIONS
    ensures CanFinish(kind) <==> AGENT_ACTIONS[kind] in HANDLED
    ensures CanFinish(kind) <==> kind != "isolate" && kind != "release"
  {
    if AGENT_ACTIONS[kind] in HANDLED {
      var steps := FinishingRun(kind);
      assert Resolved(Run(Initial(), steps), kind, 1);
    } else if CanFinish(kind) {
      var steps, k: int :| Resolved(Run(Initial(), steps), kind, k);
      UnhandledStaysQueued(steps, k);
    }
  }

  lemma FourSteps(w: World, a: Step, b: Step, c: Step, d: Step)
    ensures Run(w, [a, b, c, d]) == Next(Next(Next(Next(w, a), b), c), d)
  {
    assert [a, b, c, d][..3] == [a, b, c] && [a, b, c][..2] == [a, b] && [a, b][..1] == [a] && [a][..0] == [];
    assert Run(w, [a]) == Next(w, a);
    assert Run(w, [a, b]) == Next(Next(w, a), b);
  }

  /** Dispatched, handed out, executed, reported. */
  lemma FinishingRun(kind: string) returns (steps: seq<Step>)
    requires kind in AGENT_ACTIONS && AGENT_ACTIONS[kind] in HANDLED
    ensures Resolved(Run(Initial(), steps), kind, 1)
  {
    var report := ReportEvent(1, true, "");
    steps := [Dispatch(1, kind, map[], true), Checkin(true), Execute(true, ""), Receive(0, [report])];
    FourSteps(Initial(), steps[0], steps[1], steps[2], steps[3]);
    var w := HandedToAgent(kind);
    var v := ExecuteStep(w, true, "");
    assert v.server == w.server && v.requests == map[];
    ReceivedResolves(v, kind, report);
  }

  lemma ReceivedResolves(w: World, kind: string, report: Event)
    requires report in w.emitted && Reports(report, 1) && 1 in w.server.actions && w.server.actions[1] == Action(kind, Queued, None)
    requires 0 !in w.requests
    ensures Resolved(Next(w, Receive(0, [report])), kind, 1)
  {
    ReportResolves(w.server, report);
  }

  lemma HandedToAgent(kind: string) returns (w: World)
    requires kind in AGENT_ACTIONS
    ensures w == CheckinStep(DispatchStep(Initial(), 1, kind, map[], true), true)
    ensures w.inbox == [0] && w.queued == [ActionCommand(AGENT_ACTIONS[kind], map[], 1)] && w.requests == map[]
    ensures w.server.actions == map[1 := Action(kind, Queued, None)]
  {
    w := CheckinStep(DispatchStep(Initial(), 1, kind, map[], true), true);
  }

  lemma ReportResolves(s: Server, report: Event)
    requires KindOf(report).Report? && IsQueued(s.actions, KindOf(report).actionId)
    ensures var k := KindOf(report).actionId; var t := IngestBatch(s, [report]);
      Accepted(s, [report]) && k in t.actions && t.actions[k] == Resolve(s.actions[k], report)
  {
    assert [report][..0] == [];
    assert HandleAll(Open(s), [report]) == Handle(Open(s), report);
  }

  lemma StepKeepsOutcome(w: World, s: Step, k: int)
    requires k in w.server.actions && w.server.actions[k].status != Queued
    ensures k in Next(w, s).server.actions && Next(w, s).server.actions[k] == w.server.actions[k]
  {
    if s.Receive? {
      ReceiveAction(w.server, s.batch, k);
    }
  }

  /** An action leaves `queued` at most once: from then on its status and result never change, whatever is re-sent. */
  lemma {:induction false} OutcomesAreFinal(w: World, steps: seq<Step>, k: int)
    requires k in w.server.actions && w.server.actions[k].status != Queued
    ensures k in Run(w, steps).server.actions && Run(w, steps).server.actions[k] == w.server.actions[k]
  {
    if steps != [] {
      OutcomesAreFinal(w, steps[..|steps| - 1], k);
      StepKeepsOutcome(Run(w, steps[..|steps| - 1]), steps[|steps| - 1], k);
    }
  }

  // ---- A telemetry request that isolates from a stale list ----

  const KILL: Command := ActionCommand("kill_process", map[], 1)

  const SEEN := Event("process", "suspicious", "", None, None, "")

  /** One pending command, and a telemetry request that has loaded it. */
  lemma LoadedRun() returns (steps: seq<Step>, w: World)
    ensures w == Run(Initial(), steps) && w.pending == [0] && w.requests == map[0 := Loaded([0], false)] && w.inbox == []
    ensures w.queued == [KILL] && w.handed == [] && w.executed == [] && w.emitted == [SEEN]
  {
    steps := [Dispatch(1, "kill_process", map[], true), Observe(SEEN), Receive(0, [SEEN]), Abort];
    FourSteps(Initial(), steps[0], steps[1], steps[2], steps[3]);
    w := Run(Initial(), steps);
    var s := Server(false, map[], map[1 := Action("kill_process", Queued, None)]);
    assert [SEEN][..0] == [];
    assert HandleAll(Open(s), [SEEN]) == Open(s);
    assert Accepted(s, [SEEN]);
  }

  lemma {:induction false} RunConcat(w: World, a: seq<Step>, b: seq<Step>)
    ensures Run(w, a + b) == Run(Run(w, a), b)
  {
    if b == [] {
      assert a + b == a;
    } else {
      assert (a + b)[..|a + b| - 1] == a + b[..|b| - 1];
      RunConcat(w, a, b[..|b| - 1]);
    }
  }

  const REPORT := ReportEvent(1, true, "")

  lemma HandOutAndExecute(w: World, c: Command) returns (v: World)
    requires w.pending == [0] && w.inbox == [] && w.handed == [] && w.executed == [] && w.queued == [c]
    requires Handled(c, true, "") == [REPORT]
    ensures v == Next(Next(w, Checkin(true)), Execute(true, ""))
    ensures v == w.(pending := [], handed := [0], executed := [0], emitted := w.emitted + [REPORT])
  {
    v := ExecuteStep(CheckinStep(w, true), true, "");
  }

  lemma IsolateAndHandOut(w: World, c: Command) returns (v: World)
    requires w.requests == map[0 := Loaded([0], false)] && w.inbox == [] && w.handed == [0] && w.queued == [c]
    ensures v == Next(Next(w, AutoIsolate(0)), Checkin(true))
    ensures v.inbox == [0, 1] && v.handed == [0, 0, 1] && v.queued == [c, IsolationCommand(true)]
    ensures v.executed == w.executed && v.emitted == w.emitted
  {
    v := CheckinStep(AutoIsolateStep(w, 0), true);
    assert [0] + [1] == [0, 1];
  }

  lemma ExecuteAgain(v: World, c: Command, d: Command)
    requires v.inbox == [0, 1] && v.executed == [0] && v.queued == [c, d] && v.emitted == [SEEN] + [REPORT]
    requires Handled(c, true, "") == [REPORT]
    ensures var u := Next(v, Execute(true, ""));
      u.executed == [0, 0] && u.emitted == [SEEN, REPORT, REPORT] && u.handed == v.handed && u.pending == v.pending
  {
  }

  /** A check-in between the load and the isolation: the command it handed out is pending again, handed out again, executed
      again, and reported twice. */
  lemma StaleRepeats() returns (steps: seq<Step>)
    ensures var w := Run(Initial(), steps);
      w.handed == [0, 0, 1] && w.executed == [0, 0] && w.emitted == [SEEN, REPORT, REPORT]
    ensures Reports(REPORT, 1) && !Fresh(steps)
  {
    var w;
    steps, w := LoadedRun();
    var more := [Checkin(true), Execute(true, ""), AutoIsolate(0), Checkin(true)];
    FourSteps(w, more[0], more[1], more[2], more[3]);
    RunConcat(Initial(), steps, more);
    var first := HandOutAndExecute(w, KILL);
    var v := IsolateAndHandOut(first, KILL);
    steps := steps + more;
    assert v == Run(Initial(), steps);
    var last := Execute(true, "");
    RunStep(Initial(), steps, last);
    steps := steps + [last];
    ExecuteAgain(v, KILL, IsolationCommand(true));
    OrderExactly(steps);
  }

  lemma RunStep(w: World, steps: seq<Step>, s: Step)
    ensures Run(w, steps + [s]) == Next(Run(w, steps), s)
  {
    assert (steps + [s])[..|steps|] == steps;
  }

  /** A command queued between the load and the isolation is overwritten, and never handed out. */
  lemma StaleLoses() returns (steps: seq<Step>)
    ensures var w := Run(Initial(), steps);
      && w.queued == [KILL, IsolationCommand(false), IsolationCommand(true)]
      && w.pending == [] && w.handed == [0, 2] && !Fresh(steps)
  {
    var w;
    steps, w := LoadedRun();
    var more := [SetIsolation(false), AutoIsolate(0), Checkin(true), Abort];
    FourSteps(w, more[0], more[1], more[2], more[3]);
    RunConcat(Initial(), steps, more);
    steps := steps + more;
    var u := Run(Initial(), steps);
    assert (u.handed + u.pending)[1] == 2;
    OrderExactly(steps);
  }

  // ---- The spool, and the server's code, take these steps ----

  /** Whatever the server processes in a run of the agent's spool, it may receive here, if the agent emitted the same. */
  lemma SpoolIsAChannel(w: World, r: nat, steps: seq<S.Step<Event>>)
    requires steps != [] && S.AllIn(S.Emitted(steps[..|steps| - 1]), w.emitted) && r !in w.requests
    ensures var batch := S.Processed(S.Run(S.Initial<Event>(), steps[..|steps| - 1]), steps[|steps| - 1]);
      Next(w, Receive(r, batch)).server == IngestBatch(w.server, batch)
  {
    S.ReceivedWereEmitted(steps);
  }

  ghost predicate Shows(d: Device, rows: map<nat, Row>, w: World)
    reads d
  {
    && d.isolated == w.isolated && d.pending == Commands(w.queued, w.pending) && d.queued == w.queued
    && rows.Keys == w.requests.Keys
    && forall r :: r in rows ==> rows[r] == Row(Commands(w.queued, w.requests[r].list), w.requests[r].isolated)
  }

  lemma CommandsGrow(queued: seq<Command>, ps: seq<nat>, c: Command)
    requires Below(ps, |queued|)
    ensures Commands(queued + [c], ps) == Commands(queued, ps)
    ensures Commands(queued + [c], ps + [|queued|]) == Commands(queued, ps) + [c]
  {
  }

  lemma ListsGrow(w: World, c: Command)
    requires PositionsOk(w)
    ensures Commands(w.queued + [c], w.pending + [|w.queued|]) == Commands(w.queued, w.pending) + [c]
    ensures forall r :: r in w.requests ==>
      && Commands(w.queued + [c], w.requests[r].list) == Commands(w.queued, w.requests[r].list)
      && Commands(w.queued + [c], w.requests[r].list + [|w.queued|]) == Commands(w.queued, w.requests[r].list) + [c]
  {
    CommandsGrow(w.queued, w.pending, c);
    forall r | r in w.requests
      ensures Commands(w.queued + [c], w.requests[r].list) == Commands(w.queued, w.requests[r].list)
      ensures Commands(w.queued + [c], w.requests[r].list + [|w.queued|]) == Commands(w.queued, w.requests[r].list) + [c]
    {
      CommandsGrow(w.queued, w.requests[r].list, c);
    }
  }

  /** Dispatch, isolation, restore and check-in, by the methods on the device, are steps of these runs. */
  method ServeRequest(d: Device, rows: map<nat, Row>, server: Server, s: Step, ghost w: World) returns (server': Server)
    requires Shows(d, rows, w) && server == w.server && PositionsOk(w)
    requires s.Dispatch? || s.SetIsolation? || s.RequestRestore? || s.Checkin?
    requires s.Dispatch? ==> s.id !in server.actions && CleanParams(s.params)
    requires s.Checkin? ==> w.inbox == []
    modifies d
    ensures Shows(d, rows, Next(w, s)) && server' == Next(w, s).server
    ensures s.Checkin? && s.arrives ==> Commands(w.queued, Next(w, s).inbox) == old(d.pending)
  {
    server' := server;
    match s {
      case Dispatch(id, kind, params, applied) =>
        if kind in AGENT_ACTIONS {
          ListsGrow(w, ActionCommand(AGENT_ACTIONS[kind], params, id));
        }
        var actions, _ := d.Dispatch(server.actions, id, kind, params, applied);
        server' := server.(actions := actions);
      case SetIsolation(on) =>
        ListsGrow(w, IsolationCommand(on));
        d.SetIsolation(on);
      case RequestRestore(q) =>
        ListsGrow(w, RestoreCommand(q));
        var items, _ := d.RequestRestore(server.items, q);
        server' := server.(items := items);
      case Checkin(_) =>
        var _ := d.Checkin();
    }
  }

  /** So is the first transaction of a telemetry request: loading the row and ingesting the batch. */
  method ServeTelemetry(d: Device, rows: map<nat, Row>, server: Server, r: nat, batch: seq<Event>, ghost w: World)
    returns (rows': map<nat, Row>, server': Server)
    requires Shows(d, rows, w) && server == w.server && r !in rows && forall ev <- batch :: ev in w.emitted
    ensures Shows(d, rows', Next(w, Receive(r, batch))) && server' == Next(w, Receive(r, batch)).server
  {
    var row := d.Load();
    var after, accepted := Telemetry(server, batch);
    rows', server' := if accepted then rows[r := row] else rows, after;
  }

  /** And so is a later one, which isolates the device from the row it has loaded. */
  method ServeIsolation(d: Device, rows: map<nat, Row>, r: nat, ghost w: World) returns (rows': map<nat, Row>)
    requires Shows(d, rows, w) && PositionsOk(w) && r in rows
    modifies d
    ensures Shows(d, rows', Next(w, AutoIsolate(r)))
  {
    ListsGrow(w, IsolationCommand(true));
    var row := d.AutoIsolate(rows[r]);
    rows' := rows[r := row];
  }
}
