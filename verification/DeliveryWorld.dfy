/** Runs of one device and the server: the steps, and what every step keeps.

    The upward channel is weaker than the agent's spool (see DeliveryRuns.SpoolIsAChannel): the server may process any batch
    of events that were emitted, in any order, any number of times. Transactions are serial and committed action ids are
    fresh. A telemetry request takes two kinds of transactions, though: the first ingests the batch, and later ones, behind
    broadcasts it waits for, may isolate the device - from the row loaded in the first (server/app/auth.py:149-156,
    server/app/routers/agents.py:121-140, server/app/detection/engine.py:192-198). */
module DeliveryWorld {
  import opened Text
  import opened Ingest
  import opened CommandQueue

  datatype Loaded = Loaded(list: seq<nat>, isolated: bool)

  /** Commands are known by their position in `queued`, the history of all commands ever queued. `handed` is what the
      check-ins returned, end to end, and `executed` what the agent has worked off. */
  datatype World = World(
    server: Server, isolated: bool, pending: seq<nat>, requests: map<nat, Loaded>,  // the server
    inbox: seq<nat>, emitted: seq<Event>,                                          // the agent
    queued: seq<Command>, handed: seq<nat>, executed: seq<nat>)                    // history

  datatype Step =
    | Dispatch(id: int, kind: string, params: Command, applied: bool)
    | SetIsolation(on: bool)
    | RequestRestore(q: string)
    | Receive(r: nat, batch: seq<Event>)  // telemetry request r loads the device and ingests its batch
    | AutoIsolate(r: nat)                 // and later isolates the device
    | Checkin(arrives: bool)              // the reply with the commands may be lost
    | Execute(ok: bool, info: string)
    | Abort                               // the agent's loop fails or restarts: the commands it still held are gone
    | Observe(ev: Event)                  // a monitor emits an event

  function Initial(): World {
    World(Server(false, map[], map[]), false, [], map[], [], [], [], [], [])
  }

  // ---- Steps ----

  function Queue(w: World, c: Command): World {
    w.(pending := w.pending + [|w.queued|], queued := w.queued + [c])
  }

  function DispatchStep(w: World, id: int, kind: string, params: Command, applied: bool): World {
    if id in w.server.actions || !CleanParams(params) then w
    else if kind in AGENT_ACTIONS then
      Queue(w, ActionCommand(AGENT_ACTIONS[kind], params, id))
        .(server := w.server.(actions := w.server.actions[id := Action(kind, Queued, None)]))
    else if kind in SERVER_ACTIONS && applied then
      w.(server := w.server.(actions := w.server.actions[id := Action(kind, Completed, None)]))
    else w
  }

  function RestoreStep(w: World, q: string): World {
    if q in w.server.items && w.server.items[q] != Restored then
      Queue(w, RestoreCommand(q)).(server := w.server.(items := w.server.items[q := RestoreRequested]))
    else w
  }

  /** A rejected batch ends the request, and changes nothing. */
  function ReceiveStep(w: World, r: nat, batch: seq<Event>): World {
    if r in w.requests || (exists ev <- batch :: ev !in w.emitted) || !Accepted(w.server, batch) then w
    else w.(server := IngestBatch(w.server, batch), requests := w.requests[r := Loaded(w.pending, w.isolated)])
  }

  predicate Isolates(w: World, r: nat) {
    r in w.requests && !w.requests[r].isolated
  }

  /** The list written back is the one loaded, not the current one. */
  function AutoIsolateStep(w: World, r: nat): World {
    if !Isolates(w, r) then w
    else
      var list := w.requests[r].list + [|w.queued|];
      w.(isolated := true, pending := list, requests := w.requests[r := Loaded(list, true)],
         queued := w.queued + [IsolationCommand(true)])
  }

  /** The agent asks for commands only when it has worked off, or given up, the last list. */
  function CheckinStep(w: World, arrives: bool): World {
    if w.inbox != [] then w
    else w.(pending := [], handed := w.handed + w.pending, inbox := if arrives then w.pending else [])
  }

  function ReportEvent(k: int, ok: bool, info: string): Event {
    Event("response", "result", "", Some(k), Some(if ok then "ok" else "failed"), info)
  }

  /** The commands `handle_command` has a branch for (agent/silentguard_agent/main.py:94-121). */
  const HANDLED: set<string> := {"restore_quarantine", "kill_process", "delete_file", "remote_scan", "remote_update"}

  /** What executing a command emits: the fate of a restore, then the report if the command carries an id. */
  function Handled(c: Command, ok: bool, info: string): seq<Event> {
    var q := if "id" in c && c["id"].Str? then c["id"].s else "";
    var own := if NameOf(c) != "restore_quarantine" then []
      else [Event("quarantine", if ok then "restored" else "restore_failed", q, None, None, info)];
    var report := if "action_id" in c && c["action_id"].Int? then [ReportEvent(c["action_id"].n, ok, info)] else [];
    if NameOf(c) in HANDLED then own + report else []
  }

  function CommandAt(queued: seq<Command>, p: nat): Command {
    if p < |queued| then queued[p] else map[]
  }

  function ExecuteStep(w: World, ok: bool, info: string): World {
    if w.inbox == [] then w
    else w.(inbox := w.inbox[1..], executed := w.executed + [w.inbox[0]],
            emitted := w.emitted + Handled(CommandAt(w.queued, w.inbox[0]), ok, info))
  }

  function Next(w: World, s: Step): World {
    match s
    case Dispatch(id, kind, params, applied) => DispatchStep(w, id, kind, params, applied)
    case SetIsolation(on) => Queue(w, IsolationCommand(on)).(isolated := on)
    case RequestRestore(q) => RestoreStep(w, q)
    case Receive(r, batch) => ReceiveStep(w, r, batch)
    case AutoIsolate(r) => AutoIsolateStep(w, r)
    case Checkin(arrives) => CheckinStep(w, arrives)
    case Execute(ok, info) => ExecuteStep(w, ok, info)
    case Abort => w.(inbox := [])
    case Observe(ev) => if KindOf(ev).Report? then w else w.(emitted := w.emitted + [ev])  // only executing a command reports
  }

  function Run(w: World, steps: seq<Step>): World {
    if steps == [] then w else Next(Run(w, steps[..|steps| - 1]), steps[|steps| - 1])
  }

  // ---- What every run keeps, however its telemetry requests overlap with check-ins ----

  predicate Below(ps: seq<nat>, n: nat) {
    forall i :: 0 <= i < |ps| ==> ps[i] < n
  }

  predicate PositionsOk(w: World) {
    && Below(w.pending, |w.queued|) && Below(w.inbox, |w.queued|) && Below(w.handed, |w.queued|) && Below(w.executed, |w.queued|)
    && forall r :: r in w.requests ==> Below(w.requests[r].list, |w.queued|)
  }

  /** What the agent holds or has executed was handed out. */
  predicate AgentOk(w: World) {
    (forall p <- w.inbox :: p in w.handed) && (forall p <- w.executed :: p in w.handed)
  }

  /** Position `p` holds the one command that carries the id. */
  predicate CarriedAt(queued: seq<Command>, k: int, p: nat) {
    p < |queued| && Carries(queued[p], k) && forall i :: 0 <= i < |queued| && Carries(queued[i], k) ==> i == p
  }

  /** A server action is completed and was never queued; an agent action has exactly one command, which asks for it. */
  ghost predicate ActionOk(a: Action, queued: seq<Command>, k: int) {
    if a.kind in AGENT_ACTIONS then exists p: nat :: CarriedAt(queued, k, p) && NameOf(queued[p]) == AGENT_ACTIONS[a.kind]
    else a.kind in SERVER_ACTIONS && a.status == Completed && forall i :: 0 <= i < |queued| ==> !Carries(queued[i], k)
  }

  ghost predicate ActionsOk(actions: map<int, Action>, queued: seq<Command>) {
    && (forall k :: k in actions ==> ActionOk(actions[k], queued, k))
    && (forall i, k :: 0 <= i < |queued| && Carries(queued[i], k) ==> k in actions)
  }

  /** The command at `p` carries `k` and is one the agent handles. */
  predicate Answers(queued: seq<Command>, p: nat, k: int) {
    p < |queued| && Carries(queued[p], k) && NameOf(queued[p]) in HANDLED
  }

  /** A command that carries `k` was executed, and is one the agent handles. */
  predicate Done(w: World, k: int) {
    exists p <- w.executed :: Answers(w.queued, p, k)
  }

  /** Reports come from executed commands. */
  ghost predicate ReportsOk(w: World) {
    forall ev, k :: ev in w.emitted && Reports(ev, k) ==> Done(w, k)
  }

  /** An agent action that left `queued` shows what an emitted report said. */
  ghost predicate OutcomeOk(a: Action, emitted: seq<Event>, k: int) {
    && (a.status == Queued ==> a.report == None)
    && (a.kind in AGENT_ACTIONS && a.status != Queued ==>
          && a.report.Some? && a.report.value in emitted && Reports(a.report.value, k)
          && a == Resolve(Action(a.kind, Queued, None), a.report.value))
  }

  ghost predicate OutcomesOk(w: World) {
    forall k :: k in w.server.actions ==> OutcomeOk(w.server.actions[k], w.emitted, k)
  }

  ghost predicate Inv(w: World) {
    PositionsOk(w) && AgentOk(w) && ActionsOk(w.server.actions, w.queued) && ReportsOk(w) && OutcomesOk(w)
  }

  // ---- Positions and the agent's lists ----

  lemma QueuePositions(w: World, c: Command)
    requires PositionsOk(w)
    ensures PositionsOk(Queue(w, c))
  {
  }

  lemma IsolatePositions(w: World, r: nat)
    requires PositionsOk(w)
    ensures PositionsOk(AutoIsolateStep(w, r))
  {
  }

  lemma AgentPositions(w: World, ok: bool, info: string, arrives: bool)
    requires PositionsOk(w)
    ensures PositionsOk(ExecuteStep(w, ok, info)) && PositionsOk(CheckinStep(w, arrives))
  {
  }

  lemma NextPositions(w: World, s: Step)
    requires PositionsOk(w)
    ensures PositionsOk(Next(w, s))
  {
    match s {
      case Dispatch(id, kind, params, _) =>
        if kind in AGENT_ACTIONS { QueuePositions(w, ActionCommand(AGENT_ACTIONS[kind], params, id)); }
      case SetIsolation(on) => QueuePositions(w, IsolationCommand(on));
      case RequestRestore(q) => QueuePositions(w, RestoreCommand(q));
      case AutoIsolate(r) => IsolatePositions(w, r);
      case Execute(ok, info) => AgentPositions(w, ok, info, true);
      case Checkin(arrives) => AgentPositions(w, true, "", arrives);
      case _ =>
    }
  }

  lemma QueueGrows(w: World, s: Step)
    ensures w.queued <= Next(w, s).queued
  {
  }

  lemma NextAgent(w: World, s: Step)
    requires AgentOk(w)
    ensures AgentOk(Next(w, s))
  {
  }

  // ---- Actions and their commands ----

  lemma PlainCommand(actions: map<int, Action>, queued: seq<Command>, c: Command)
    requires ActionsOk(actions, queued) && "action_id" !in c
    ensures ActionsOk(actions, queued + [c])
  {
    forall k | k in actions
      ensures ActionOk(actions[k], queued + [c], k)
    {
      OldAction(actions[k], queued, c, k);
    }
  }

  lemma OldAction(a: Action, queued: seq<Command>, c: Command, k: int)
    requires ActionOk(a, queued, k) && !Carries(c, k)
    ensures ActionOk(a, queued + [c], k)
  {
    var longer := queued + [c];
    if a.kind in AGENT_ACTIONS {
      var p: nat :| CarriedAt(queued, k, p) && NameOf(queued[p]) == AGENT_ACTIONS[a.kind];
      assert CarriedAt(longer, k, p) && longer[p] == queued[p];
    }
  }

  lemma NewAction(actions: map<int, Action>, queued: seq<Command>, id: int, kind: string, params: Command)
    requires ActionsOk(actions, queued) && id !in actions && CleanParams(params) && kind in AGENT_ACTIONS
    ensures ActionsOk(actions[id := Action(kind, Queued, None)], queued + [ActionCommand(AGENT_ACTIONS[kind], params, id)])
  {
    var c := ActionCommand(AGENT_ACTIONS[kind], params, id);
    var longer, more := queued + [c], actions[id := Action(kind, Queued, None)];
    CommandCarriesExactly(AGENT_ACTIONS[kind], params, id);
    forall k | k in more
      ensures ActionOk(more[k], longer, k)
    {
      if k == id {
        assert CarriedAt(longer, id, |queued|);
      } else {
        OldAction(actions[k], queued, c, k);
      }
    }
  }

  lemma DispatchActions(w: World, id: int, kind: string, params: Command, applied: bool)
    requires ActionsOk(w.server.actions, w.queued)
    ensures var v := DispatchStep(w, id, kind, params, applied); ActionsOk(v.server.actions, v.queued)
  {
    if id !in w.server.actions && CleanParams(params) && kind in AGENT_ACTIONS {
      NewAction(w.server.actions, w.queued, id, kind, params);
    }
  }

  lemma {:induction false} FirstReportIsIn(batch: seq<Event>, k: int)
    requires FirstReport(batch, k).Some?
    ensures FirstReport(batch, k).value in batch && Reports(FirstReport(batch, k).value, k)
  {
    var last := |batch| - 1;
    if FirstReport(batch[..last], k).Some? {
      FirstReportIsIn(batch[..last], k);
    }
  }

  /** Receiving a batch leaves an action alone or, if it was queued, resolves it by a report of the batch; a rejected batch
      leaves everything alone. */
  lemma ReceiveAction(s: Server, batch: seq<Event>, k: int)
    ensures IngestBatch(s, batch).actions.Keys == s.actions.Keys
    ensures k in s.actions ==>
      var a, b := s.actions[k], IngestBatch(s, batch).actions[k];
      b == a || (a.status == Queued && exists ev :: ev in batch && Reports(ev, k) && b == Resolve(a, ev))
    ensures !Accepted(s, batch) ==> IngestBatch(s, batch) == s
  {
    ActionAfterBatch(Open(s), batch, k);
    if k in s.actions && FirstReport(batch, k).Some? {
      FirstReportIsIn(batch, k);
    }
  }

  lemma ReceivedActions(s: Server, batch: seq<Event>, queued: seq<Command>)
    requires ActionsOk(s.actions, queued)
    ensures ActionsOk(IngestBatch(s, batch).actions, queued)
  {
    ReceiveAction(s, batch, 0);
    forall k | k in s.actions
      ensures ActionOk(IngestBatch(s, batch).actions[k], queued, k)
    {
      ReceiveAction(s, batch, k);
    }
  }

  lemma NextActions(w: World, s: Step)
    requires ActionsOk(w.server.actions, w.queued)
    ensures ActionsOk(Next(w, s).server.actions, Next(w, s).queued)
  {
    match s {
      case Dispatch(id, kind, params, applied) => DispatchActions(w, id, kind, params, applied);
      case SetIsolation(on) => PlainCommand(w.server.actions, w.queued, IsolationCommand(on));
      case RequestRestore(q) => PlainCommand(w.server.actions, w.queued, RestoreCommand(q));
      case Receive(_, batch) => ReceivedActions(w.server, batch, w.queued);
      case AutoIsolate(_) => PlainCommand(w.server.actions, w.queued, IsolationCommand(true));
      case _ =>
    }
  }

  // ---- Reports and outcomes ----

  /** Executing a command emits a report only under its own id, only if it is handled, and only one. */
  lemma HandledReports(c: Command, ok: bool, info: string, k: int)
    ensures var out := Handled(c, ok, info);
      && (forall ev <- out :: Reports(ev, k) ==> Carries(c, k) && NameOf(c) in HANDLED)
      && (forall i, j :: 0 <= i < j < |out| && Reports(out[i], k) ==> !Reports(out[j], k))
  {
  }

  lemma DoneStays(w: World, v: World, k: int)
    requires Done(w, k) && w.queued <= v.queued && forall p <- w.executed :: p in v.executed
    ensures Done(v, k)
  {
    var p :| p in w.executed && Answers(w.queued, p, k);
    assert Answers(v.queued, p, k);
  }

  lemma ExecuteDone(w: World, ok: bool, info: string, ev: Event, k: int)
    requires PositionsOk(w) && ReportsOk(w) && ev in ExecuteStep(w, ok, info).emitted && Reports(ev, k)
    ensures Done(ExecuteStep(w, ok, info), k)
  {
    var v := ExecuteStep(w, ok, info);
    if ev in w.emitted {
      DoneStays(w, v, k);
    } else {
      HandledReports(CommandAt(w.queued, w.inbox[0]), ok, info, k);
      assert v.executed[|w.executed|] == w.inbox[0];
      assert Answers(v.queued, w.inbox[0], k);
    }
  }

  lemma NextReports(w: World, s: Step)
    requires PositionsOk(w) && ReportsOk(w)
    ensures ReportsOk(Next(w, s))
  {
    var v := Next(w, s);
    QueueGrows(w, s);
    forall ev, k | ev in v.emitted && Reports(ev, k)
      ensures Done(v, k)
    {
      if s.Execute? {
        ExecuteDone(w, s.ok, s.info, ev, k);
      } else {
        assert ev in w.emitted;
        DoneStays(w, v, k);
      }
    }
  }

  lemma ReceivedOutcome(w: World, batch: seq<Event>, k: int)
    requires OutcomesOk(w) && k in w.server.actions && forall ev <- batch :: ev in w.emitted
    ensures k in IngestBatch(w.server, batch).actions && OutcomeOk(IngestBatch(w.server, batch).actions[k], w.emitted, k)
  {
    ReceiveAction(w.server, batch, k);
    assert OutcomeOk(w.server.actions[k], w.emitted, k);
  }

  lemma NextOutcome(w: World, s: Step, k: int)
    requires OutcomesOk(w) && k in Next(w, s).server.actions
    ensures OutcomeOk(Next(w, s).server.actions[k], Next(w, s).emitted, k)
  {
    if s.Receive? && Next(w, s) != w {
      ReceiveAction(w.server, s.batch, k);
      ReceivedOutcome(w, s.batch, k);
    } else if k in w.server.actions {
      assert OutcomeOk(w.server.actions[k], w.emitted, k);
    }
  }

  lemma NextKeeps(w: World, s: Step)
    requires Inv(w)
    ensures Inv(Next(w, s))
  {
    NextPositions(w, s);
    NextAgent(w, s);
    NextActions(w, s);
    NextReports(w, s);
    forall k | k in Next(w, s).server.actions
      ensures OutcomeOk(Next(w, s).server.actions[k], Next(w, s).emitted, k)
    {
      NextOutcome(w, s, k);
    }
  }

  lemma {:induction false} RunKeeps(w: World, steps: seq<Step>)
    requires Inv(w)
    ensures Inv(Run(w, steps))
  {
    if steps != [] {
      RunKeeps(w, steps[..|steps| - 1]);
      NextKeeps(Run(w, steps[..|steps| - 1]), steps[|steps| - 1]);
    }
  }
}
