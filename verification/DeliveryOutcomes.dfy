/** What a response action and a restore come to, from the dispatch to what the console shows
    (server/app/services/response.py:20-113, server/app/routers/admin.py:190-206, agent/silentguard_agent/main.py:94-121). */
module DeliveryOutcomes {
  import opened Text
  import opened Ingest
  import opened IngestFields
  import opened CommandQueue
  import opened DeliveryWorld

  // ---- The commands that are queued ----

  /** The agent executes seven actions, each under the command of its own name but for `restore_file`; the server the rest. */
  lemma ActionTable(kind: string)
    ensures kind in AGENT_ACTIONS
      <==> kind in {"kill_process", "delete_file", "restore_file", "remote_scan", "remote_update", "isolate", "release"}
    ensures kind in AGENT_ACTIONS ==> AGENT_ACTIONS[kind] == if kind == "restore_file" then "restore_quarantine" else kind
    ensures kind in SERVER_ACTIONS <==> kind in {"block_domain", "block_ip", "block_hash"}
  {
  }

  /** A dispatched agent action adds one command, under its id and its parameters. */
  lemma DispatchQueues(w: World, id: int, kind: string, params: Command, applied: bool)
    requires id !in w.server.actions && CleanParams(params) && kind in AGENT_ACTIONS
    ensures var v := Next(w, Dispatch(id, kind, params, applied));
      && v.pending == w.pending + [|w.queued|] && |v.queued| == |w.queued| + 1 && w.queued <= v.queued
      && var c := v.queued[|w.queued|];
      && (forall key :: key in c <==> key in {"command", "action_id"} || key in params)
      && c["command"] == Str(if kind == "restore_file" then "restore_quarantine" else kind) && c["action_id"] == Int(id)
      && (forall key :: key in params ==> c[key] == params[key])
      && id in v.server.actions && v.server.actions[id] == Action(kind, Queued, None)
  {
    ActionTable(kind);
  }

  /** The isolation and restore commands carry no action id. */
  lemma PlainCommands(w: World, on: bool, q: string)
    ensures var v := Next(w, SetIsolation(on));
      && v.isolated == on && v.pending == w.pending + [|w.queued|]
      && v.queued == w.queued + [map["command" := Str(if on then "isolate" else "release")]]
    ensures q in w.server.items && w.server.items[q] != Restored ==>
      var v := Next(w, RequestRestore(q));
      && v.pending == w.pending + [|w.queued|]
      && v.queued == w.queued + [map["command" := Str("restore_quarantine"), "id" := Str(q)]]
    ensures q !in w.server.items || w.server.items[q] == Restored ==> Next(w, RequestRestore(q)) == w
  {
  }

  /** A telemetry request isolates the device at most once, and then what is pending is the list it loaded and the command. */
  lemma IsolatesOnce(w: World, r: nat)
    requires r in w.requests
    ensures var v := Next(w, AutoIsolate(r));
      && Next(v, AutoIsolate(r)) == v && (w.requests[r].isolated ==> v == w)
      && (!w.requests[r].isolated ==>
            && v.isolated && v.pending == w.requests[r].list + [|w.queued|]
            && v.queued == w.queued + [map["command" := Str("isolate")]])
  {
  }

  // ---- An outcome is that of one execution ----

  /** The next command of the agent carries the id. */
  predicate Executes(w: World, k: int) {
    w.inbox != [] && w.inbox[0] < |w.queued| && var c := w.queued[w.inbox[0]]; "action_id" in c && c["action_id"] == Int(k)
  }

  /** At step `i` the agent executes a command under the id, and reports this event. */
  predicate ReportedAt(steps: seq<Step>, i: nat, k: int, ev: Event) {
    && i < |steps| && steps[i].Execute? && Executes(Run(Initial(), steps[..i]), k)
    && ev == Event("response", "result", "", Some(k), Some(if steps[i].ok then "ok" else "failed"), steps[i].info)
  }

  lemma ExecutionReports(w: World, s: Step, k: int, ev: Event)
    requires PositionsOk(w) && ev in Next(w, s).emitted && ev !in w.emitted && IsResult(ev, k)
    ensures s.Execute? && Executes(w, k)
    ensures ev == Event("response", "result", "", Some(k), Some(if s.ok then "ok" else "failed"), s.info)
  {
    assert s.Execute? ==> w.inbox != [] && CommandAt(w.queued, w.inbox[0]) == w.queued[w.inbox[0]];
  }

  lemma {:induction false} ReportsAreExecutions(steps: seq<Step>, k: int, ev: Event) returns (i: nat)
    requires ev in Run(Initial(), steps).emitted && IsResult(ev, k)
    ensures ReportedAt(steps, i, k, ev)
  {
    var last := |steps| - 1;
    var w := Run(Initial(), steps[..last]);
    if ev in w.emitted {
      i := ReportsAreExecutions(steps[..last], k, ev);
      assert steps[..last][..i] == steps[..i];
    } else {
      RunKeeps(Initial(), steps[..last]);
      ExecutionReports(w, steps[last], k, ev);
      i := last;
    }
  }

  /** An agent action that has left the queue was executed, shows what that execution reported, and is completed exactly when
      the execution succeeded. */
  lemma CompletedExactly(steps: seq<Step>, k: int) returns (i: nat)
    requires k in Run(Initial(), steps).server.actions
    requires var a := Run(Initial(), steps).server.actions[k]; a.kind in AGENT_ACTIONS && a.status != Queued
    ensures var a := Run(Initial(), steps).server.actions[k];
      && a.report.Some? && ReportedAt(steps, i, k, a.report.value)
      && (a.status == Completed <==> steps[i].ok) && (a.status == Failed <==> !steps[i].ok)
  {
    RunKeeps(Initial(), steps);
    var w := Run(Initial(), steps);
    var a := w.server.actions[k];
    assert OutcomeOk(a, w.emitted, k);
    i := ReportsAreExecutions(steps, k, a.report.value);
  }

  // ---- A restore, from the request to the console ----

  /** The fate of a restore, as the agent reports it. */
  function FateOf(q: string, ok: bool, info: string): Event {
    Event("quarantine", if ok then "restored" else "restore_failed", q, None, None, info)
  }

  lemma RestoreExecuted(w: World, q: string, ok: bool, info: string) returns (v: World)
    requires w.pending == [] && w.inbox == [] && q in w.server.items && w.server.items[q] != Restored
    ensures v == Next(Next(Next(w, RequestRestore(q)), Checkin(true)), Execute(ok, info))
    ensures v.emitted == w.emitted + [FateOf(q, ok, info)] && v.requests == w.requests
    ensures v.server == w.server.(items := w.server.items[q := RestoreRequested])
  {
    v := Next(Next(Next(w, RequestRestore(q)), Checkin(true)), Execute(ok, info));
  }

  /** Requested, handed out, executed and ingested with anything that says nothing else of the item: the console shows it as
      restored exactly when the agent restored it, and as quarantined again otherwise. */
  lemma RestoreShows(w: World, q: string, ok: bool, info: string, r: nat, batch: seq<Event>, i: nat)
    requires w.pending == [] && w.inbox == [] && q in w.server.items && w.server.items[q] != Restored && q != ""
    requires i < |batch| && batch[i] == FateOf(q, ok, info)
    requires forall j :: 0 <= j < |batch| && j != i ==> batch[j] in w.emitted && !IsRestore(batch[j], q)
    requires r !in w.requests && !DuplicateRows(w.server, batch)
    ensures var v := Next(Next(Next(Next(w, RequestRestore(q)), Checkin(true)), Execute(ok, info)), Receive(r, batch));
      q in v.server.items && v.server.items[q] == if ok then Restored else Quarantined
  {
    var v := RestoreExecuted(w, q, ok, info);
    assert v.emitted[|w.emitted|] == batch[i];
    assert forall ev <- batch :: ev in v.emitted;
    assert v.server.items.Keys == w.server.items.Keys;
    RejectedExactly(v.server, batch);
    LastRestoreDecides(v.server, batch, q, i);
  }
}
