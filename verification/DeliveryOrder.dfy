/** Exactly when nothing queued for a device is lost, repeated or reordered
    (server/app/services/response.py:43-46, server/app/routers/admin.py:95-97 and 203-205, server/app/routers/agents.py:121-181,
    server/app/detection/engine.py:192-198). */
module DeliveryOrder {
  import opened Text
  import opened Ingest
  import opened CommandQueue
  import opened DeliveryWorld

  /** The positions 0, 1, 2, ... */
  predicate Counts(ps: seq<nat>) {
    forall i :: 0 <= i < |ps| ==> ps[i] == i
  }

  /** Every command ever queued was handed out or is pending: once, and in the order of queueing. */
  predicate InOrder(w: World) {
    Counts(w.handed + w.pending) && |w.handed| + |w.pending| == |w.queued|
  }

  /** A telemetry request that isolates the device finds the list it loaded still pending. */
  predicate FreshStep(w: World, s: Step) {
    s.AutoIsolate? && Isolates(w, s.r) ==> w.requests[s.r].list == w.pending
  }

  predicate Fresh(steps: seq<Step>) {
    steps == [] || (Fresh(steps[..|steps| - 1]) && FreshStep(Run(Initial(), steps[..|steps| - 1]), steps[|steps| - 1]))
  }

  // ---- Fresh steps keep the order ----

  lemma QueueOrder(w: World, c: Command)
    requires InOrder(w)
    ensures InOrder(Queue(w, c))
  {
    assert w.handed + (w.pending + [|w.queued|]) == (w.handed + w.pending) + [|w.queued|];
  }

  lemma FreshKeepsOrder(w: World, s: Step)
    requires InOrder(w) && FreshStep(w, s)
    ensures InOrder(Next(w, s))
  {
    match s {
      case Dispatch(id, kind, params, _) =>
        if kind in AGENT_ACTIONS { QueueOrder(w, ActionCommand(AGENT_ACTIONS[kind], params, id)); }
      case SetIsolation(on) => QueueOrder(w, IsolationCommand(on));
      case RequestRestore(q) => QueueOrder(w, RestoreCommand(q));
      case AutoIsolate(_) => QueueOrder(w, IsolationCommand(true));
      case Checkin(arrives) =>
      case _ =>
    }
  }

  // ---- One that is not fresh breaks it for good ----

  /** Storing this list can no longer lead back to the order. */
  predicate Hopeless(w: World, list: seq<nat>) {
    !Counts(w.handed + list) || |w.handed| + |list| < |w.queued|
  }

  ghost predicate Broken(w: World) {
    !Counts(w.handed + w.pending) && forall r :: r in w.requests ==> Hopeless(w, w.requests[r].list)
  }

  lemma LongerStaysOff(a: seq<nat>, b: seq<nat>)
    requires !Counts(a)
    ensures !Counts(a + b)
  {
    var i :| 0 <= i < |a| && a[i] != i;
    assert (a + b)[i] == a[i];
  }

  /** The new position is out of place behind a list too short, and nothing helps a list that is off. */
  lemma HopelessStores(w: World, list: seq<nat>)
    requires Hopeless(w, list)
    ensures !Counts(w.handed + (list + [|w.queued|]))
  {
    var all := w.handed + (list + [|w.queued|]);
    assert all == (w.handed + list) + [|w.queued|];
    if !Counts(w.handed + list) {
      LongerStaysOff(w.handed + list, [|w.queued|]);
    } else {
      assert all[|w.handed| + |list|] == |w.queued|;
    }
  }

  lemma QueueBroken(w: World, c: Command)
    requires Broken(w)
    ensures Broken(Queue(w, c))
  {
    LongerStaysOff(w.handed + w.pending, [|w.queued|]);
    assert w.handed + (w.pending + [|w.queued|]) == (w.handed + w.pending) + [|w.queued|];
    forall r | r in w.requests
      ensures Hopeless(Queue(w, c), w.requests[r].list)
    {
      assert Hopeless(w, w.requests[r].list);
    }
  }

  lemma IsolateBroken(w: World, r: nat)
    requires Broken(w)
    ensures Broken(AutoIsolateStep(w, r))
  {
    if Isolates(w, r) {
      var v := AutoIsolateStep(w, r);
      HopelessStores(w, w.requests[r].list);
      forall q | q in v.requests
        ensures Hopeless(v, v.requests[q].list)
      {
        if q != r {
          assert Hopeless(w, w.requests[q].list);
        }
      }
    }
  }

  lemma CheckinBroken(w: World, arrives: bool)
    requires Broken(w)
    ensures Broken(CheckinStep(w, arrives))
  {
    if w.inbox == [] {
      var v := CheckinStep(w, arrives);
      assert v.handed + [] == v.handed;
      forall r | r in v.requests
        ensures Hopeless(v, v.requests[r].list)
      {
        LongerStaysOff(v.handed, v.requests[r].list);
      }
    }
  }

  lemma NextBroken(w: World, s: Step)
    requires Broken(w)
    ensures Broken(Next(w, s))
  {
    match s {
      case Dispatch(id, kind, params, _) =>
        if kind in AGENT_ACTIONS { QueueBroken(w, ActionCommand(AGENT_ACTIONS[kind], params, id)); }
      case SetIsolation(on) => QueueBroken(w, IsolationCommand(on));
      case RequestRestore(q) => QueueBroken(w, RestoreCommand(q));
      case AutoIsolate(r) => IsolateBroken(w, r);
      case Checkin(arrives) => CheckinBroken(w, arrives);
      case _ =>
    }
  }

  /** In order, a list is the pending one or hopeless once another command is queued. */
  lemma OtherListHopeless(w: World, list: seq<nat>)
    requires InOrder(w) && Below(list, |w.queued|)
    ensures Counts(w.handed + list) ==> |w.handed| + |list| <= |w.queued|
    ensures list != w.pending ==> Hopeless(w, list)
  {
    var all := w.handed + list;
    if Counts(all) {
      NotLonger(w.handed, list, |w.queued|);
      if |all| == |w.queued| {
        forall i | 0 <= i < |list|
          ensures list[i] == w.pending[i]
        {
          assert all[|w.handed| + i] == (w.handed + w.pending)[|w.handed| + i];
        }
      }
    }
  }

  lemma NotLonger(a: seq<nat>, b: seq<nat>, n: nat)
    requires Counts(a + b) && Below(b, n) && |a| <= n
    ensures |a| + |b| <= n
  {
    if b != [] {
      assert (a + b)[|a + b| - 1] == b[|b| - 1];
    }
  }

  lemma StaleBreaks(w: World, r: nat)
    requires InOrder(w) && PositionsOk(w) && Isolates(w, r) && w.requests[r].list != w.pending
    ensures Broken(AutoIsolateStep(w, r))
  {
    var v := AutoIsolateStep(w, r);
    OtherListHopeless(w, w.requests[r].list);
    HopelessStores(w, w.requests[r].list);
    forall q | q in v.requests
      ensures Hopeless(v, v.requests[q].list)
    {
      if q != r {
        OtherListHopeless(w, w.requests[q].list);
      }
    }
  }

  lemma {:induction false} RunIsOne(steps: seq<Step>)
    ensures if Fresh(steps) then InOrder(Run(Initial(), steps)) else Broken(Run(Initial(), steps))
  {
    if steps != [] {
      var front, last := steps[..|steps| - 1], steps[|steps| - 1];
      var w := Run(Initial(), front);
      RunIsOne(front);
      RunKeeps(Initial(), front);
      if !Fresh(front) {
        NextBroken(w, last);
      } else if FreshStep(w, last) {
        FreshKeepsOrder(w, last);
      } else {
        StaleBreaks(w, last.r);
      }
    }
  }

  /** In every run: what the check-ins handed out, followed by what is pending, is everything queued, once and in order, if and
      only if each telemetry request that isolated the device found the list it had loaded still pending. Once one did not,
      the order is never restored. */
  lemma OrderExactly(steps: seq<Step>)
    ensures InOrder(Run(Initial(), steps)) <==> Fresh(steps)
  {
    RunIsOne(steps);
  }

  // ---- On the agent: at most once, in order, one report each ----

  /** The agent holds the end of what was handed out, and executed earlier commands, each once and in order. */
  predicate AgentInOrder(w: World) {
    && |w.inbox| <= |w.handed| && w.inbox == w.handed[|w.handed| - |w.inbox|..]
    && (forall i :: 0 <= i < |w.executed| ==> w.executed[i] < |w.handed| - |w.inbox|)
    && (forall i, j :: 0 <= i < j < |w.executed| ==> w.executed[i] < w.executed[j])
  }

  ghost predicate OneReport(emitted: seq<Event>) {
    forall i, j, k :: 0 <= i < j < |emitted| && Reports(emitted[i], k) ==> !Reports(emitted[j], k)
  }

  lemma ExecuteInOrder(w: World, ok: bool, info: string)
    requires InOrder(w) && AgentInOrder(w)
    ensures AgentInOrder(ExecuteStep(w, ok, info))
  {
    if w.inbox != [] {
      assert w.inbox[0] == (w.handed + w.pending)[|w.handed| - |w.inbox|];
    }
  }

  lemma NextInOrder(w: World, s: Step)
    requires InOrder(w) && AgentInOrder(w)
    ensures AgentInOrder(Next(w, s))
  {
    if s.Execute? {
      ExecuteInOrder(w, s.ok, s.info);
    }
  }

  /** An id that is done is not the next command's: that one has not been executed. */
  lemma DoneNotNext(w: World, k: int)
    requires Inv(w) && InOrder(w) && AgentInOrder(w) && w.inbox != [] && Done(w, k)
    ensures !Carries(CommandAt(w.queued, w.inbox[0]), k)
  {
    var p :| p in w.executed && Answers(w.queued, p, k);
    assert w.inbox[0] == (w.handed + w.pending)[|w.handed| - |w.inbox|];
    assert p < w.inbox[0];
    assert ActionOk(w.server.actions[k], w.queued, k);
    var c: nat :| CarriedAt(w.queued, k, c);
  }

  lemma NewReport(w: World, ok: bool, info: string, i: nat, j: nat, k: int)
    requires Inv(w) && InOrder(w) && AgentInOrder(w) && OneReport(w.emitted) && w.inbox != []
    requires i < j < |ExecuteStep(w, ok, info).emitted| && Reports(ExecuteStep(w, ok, info).emitted[i], k)
    ensures !Reports(ExecuteStep(w, ok, info).emitted[j], k)
  {
    var out := Handled(CommandAt(w.queued, w.inbox[0]), ok, info);
    var all := w.emitted + out;
    HandledReports(CommandAt(w.queued, w.inbox[0]), ok, info, k);
    if i < |w.emitted| {
      assert w.emitted[i] in w.emitted;
      assert Done(w, k);
      DoneNotNext(w, k);
      assert j >= |w.emitted| ==> all[j] == out[j - |w.emitted|] && all[j] in out;
    } else {
      assert all[i] == out[i - |w.emitted|] && all[j] == out[j - |w.emitted|];
    }
  }

  lemma NextOneReport(w: World, s: Step)
    requires Inv(w) && InOrder(w) && AgentInOrder(w) && OneReport(w.emitted)
    ensures OneReport(Next(w, s).emitted)
  {
    if s.Execute? && w.inbox != [] {
      forall i: nat, j: nat, k | i < j < |Next(w, s).emitted| && Reports(Next(w, s).emitted[i], k)
        ensures !Reports(Next(w, s).emitted[j], k)
      {
        NewReport(w, s.ok, s.info, i, j, k);
      }
    }
  }

  /** In every fresh run, each command is executed at most once, in the order of queueing, and each id is reported once. */
  lemma {:induction false} FreshRunKeeps(steps: seq<Step>)
    requires Fresh(steps)
    ensures var w := Run(Initial(), steps); InOrder(w) && AgentInOrder(w) && OneReport(w.emitted)
  {
    OrderExactly(steps);
    if steps != [] {
      var front, last := steps[..|steps| - 1], steps[|steps| - 1];
      FreshRunKeeps(front);
      RunKeeps(Initial(), front);
      NextInOrder(Run(Initial(), front), last);
      NextOneReport(Run(Initial(), front), last);
    }
  }
}
