/** The agent's spool and the server's ingestion together: events are delivered at least once, and what is delivered again
    changes nothing (agent/silentguard_agent/telemetry.py:87-113, server/app/routers/agents.py:95-121). */
module SpoolIngest {
  import opened Text
  import opened Spool
  import opened SpoolRuns
  import opened Ingest
  import opened IngestResend

  type Telemetry = World<Event>

  /** The post that the server processes in a step. */
  function PostOf(w: Telemetry, s: Step<Event>): Option<Flight<Event>> {
    if s.Deliver? && w.flight.Some? && !w.flight.value.reached then w.flight
    else if s.DeliverLate? && s.i < |w.late| then Some(w.late[s.i])
    else None
  }

  ghost function Agent(steps: seq<Step<Event>>): Telemetry {
    Run(Initial<Event>(), steps)
  }

  /** The server after a run. */
  ghost function ServerAfter(s0: Server, steps: seq<Step<Event>>): Server {
    if steps == [] then s0
    else
      var front, last := steps[..|steps| - 1], steps[|steps| - 1];
      var post := PostOf(Agent(front), last);
      if post.None? then ServerAfter(s0, front) else IngestBatch(ServerAfter(s0, front), post.value.batch)
  }

  ghost predicate AllAccepted(s0: Server, steps: seq<Step<Event>>) {
    steps != [] ==>
      var front, last := steps[..|steps| - 1], steps[|steps| - 1];
      var post := PostOf(Agent(front), last);
      AllAccepted(s0, front) && (post.Some? ==> Accepted(ServerAfter(s0, front), post.value.batch))
  }

  function Max(a: nat, b: nat): nat {
    if a >= b then a else b
  }

  function End(f: Flight<Event>): nat {
    f.from + |f.batch|
  }

  /** Up to where the server has seen the log. */
  ghost function Seen(steps: seq<Step<Event>>): nat {
    if steps == [] then 0
    else
      var front, last := steps[..|steps| - 1], steps[|steps| - 1];
      var post := PostOf(Agent(front), last);
      if post.None? then Seen(front) else Max(Seen(front), End(post.value))
  }

  predicate InOrder(steps: seq<Step<Event>>) {
    forall s <- steps :: !s.DeliverLate?
  }

  // ---- Posts are stretches of the log that overlap what was seen ----

  predicate Stretch(log: seq<Event>, seen: nat, f: Flight<Event>) {
    f.from <= seen && End(f) <= |log| && f.batch == log[f.from..End(f)]
  }

  /** No save failed and nothing overflowed. */
  predicate Lossless(w: Telemetry) {
    w.reliable && w.overflows == 0
  }

  ghost predicate PostsOk(w: Telemetry, seen: nat) {
    && |w.fate| <= seen <= |w.log|
    && (w.flight.Some? ==> Stretch(w.log, seen, w.flight.value) && w.flight.value.from == |w.fate|)
    && (Replied(w) ==> End(w.flight.value) <= seen)
    && forall i :: 0 <= i < |w.late| ==> Stretch(w.log, seen, w.late[i])
  }

  lemma LosslessBefore(w: Telemetry, s: Step<Event>)
    ensures Lossless(Next(w, s)) ==> Lossless(w)
  {
  }

  /** How far the server has seen after a step. */
  function SeenNext(w: Telemetry, seen: nat, s: Step<Event>): nat {
    var post := PostOf(w, s);
    if post.None? then seen else Max(seen, End(post.value))
  }

  lemma DeliverPosts(w: Telemetry, seen: nat, s: Step<Event>)
    requires PostsOk(w, seen) && (s.Deliver? || s.DeliverLate?)
    ensures PostsOk(Next(w, s), SeenNext(w, seen, s))
  {
    assert forall i :: 0 <= i < |w.late| ==> Stretch(w.log, SeenNext(w, seen, s), w.late[i]);
  }

  lemma NextPosts(w: Telemetry, seen: nat, s: Step<Event>)
    requires Inv(w) && PostsOk(w, seen) && Lossless(Next(w, s))
    ensures PostsOk(Next(w, s), SeenNext(w, seen, s))
  {
    LosslessBefore(w, s);
    match s {
      case Emit(e, saved) =>
      case Deliver => DeliverPosts(w, seen, s);
      case DeliverLate(_) => DeliverPosts(w, seen, s);
      case Acknowledge(_) =>
      case _ =>
    }
  }

  // ---- Ingesting a stretch that overlaps what was seen ----

  lemma OverlapAction(a: Action, log: seq<Event>, seen: nat, f: Flight<Event>, k: int)
    requires seen <= |log| && Stretch(log, seen, f)
    ensures ActionNow(ActionNow(a, log[..seen], k), f.batch, k) == ActionNow(a, log[..Max(seen, End(f))], k)
  {
    var e := End(f);
    if e <= seen {
      assert log[..seen] == log[..f.from] + (f.batch + log[e..seen]);
      AppendReads(log[..f.from], f.batch + log[e..seen], "", k);
      AppendReads(f.batch, log[e..seen], "", k);
    } else {
      assert log[..e] == log[..seen] + log[seen..e] && f.batch == log[f.from..seen] + log[seen..e];
      assert log[..seen] == log[..f.from] + log[f.from..seen];
      AppendReads(log[..seen], log[seen..e], "", k);
      AppendReads(log[f.from..seen], log[seen..e], "", k);
      AppendReads(log[..f.from], log[f.from..seen], "", k);
    }
  }

  lemma OverlapStop(was: bool, log: seq<Event>, seen: nat, f: Flight<Event>)
    requires seen <= |log| && Stretch(log, seen, f) && End(f) >= seen
    ensures StoppedNow(StoppedNow(was, log[..seen]), f.batch) == StoppedNow(was, log[..End(f)])
  {
    var e := End(f);
    assert log[..e] == log[..seen] + log[seen..e] && f.batch == log[f.from..seen] + log[seen..e];
    assert log[..seen] == log[..f.from] + log[f.from..seen];
    AppendReads(log[..seen], log[seen..e], "", 0);
    AppendReads(log[f.from..seen], log[seen..e], "", 0);
    AppendReads(log[..f.from], log[f.from..seen], "", 0);
  }

  /** The server shows the log up to where it has seen it. */
  ghost predicate Shows(s0: Server, s: Server, log: seq<Event>, seen: nat, k: int) {
    && seen <= |log| && s.actions.Keys == s0.actions.Keys
    && (k in s0.actions ==> s.actions[k] == ActionNow(s0.actions[k], log[..seen], k))
  }

  lemma PostShows(s0: Server, s: Server, log: seq<Event>, seen: nat, f: Flight<Event>, k: int)
    requires Shows(s0, s, log, seen, k) && Stretch(log, seen, f) && Accepted(s, f.batch)
    ensures Shows(s0, IngestBatch(s, f.batch), log, Max(seen, End(f)), k)
  {
    IngestReads(s, f.batch, "", k);
    if k in s0.actions {
      OverlapAction(s0.actions[k], log, seen, f, k);
    }
  }

  lemma LongerLogShows(s0: Server, s: Server, log: seq<Event>, more: seq<Event>, seen: nat, k: int)
    requires Shows(s0, s, log, seen, k)
    ensures Shows(s0, s, log + more, seen, k)
  {
    assert (log + more)[..seen] == log[..seen];
  }

  lemma {:induction false} RunShows(s0: Server, steps: seq<Step<Event>>, k: int)
    requires Lossless(Agent(steps)) && AllAccepted(s0, steps)
    ensures PostsOk(Agent(steps), Seen(steps)) && Shows(s0, ServerAfter(s0, steps), Agent(steps).log, Seen(steps), k)
  {
    if steps != [] {
      var front, last := steps[..|steps| - 1], steps[|steps| - 1];
      var w := Agent(front);
      LosslessBefore(w, last);
      RunShows(s0, front, k);
      RunKeeps(Initial<Event>(), front);
      NextPosts(w, Seen(front), last);
      StepShows(s0, ServerAfter(s0, front), w, Seen(front), last, k);
    } else {
      assert Agent([]).log[..0] == [];
    }
  }

  lemma StepShows(s0: Server, s: Server, w: Telemetry, seen: nat, last: Step<Event>, k: int)
    requires Inv(w) && w.reliable && PostsOk(w, seen) && Shows(s0, s, w.log, seen, k)
    requires PostOf(w, last).Some? ==> Accepted(s, PostOf(w, last).value.batch)
    ensures var post := PostOf(w, last);
      Shows(s0, if post.None? then s else IngestBatch(s, post.value.batch), Next(w, last).log, SeenNext(w, seen, last), k)
  {
    var post := PostOf(w, last);
    LogAfter(w, last);
    if post.Some? {
      assert Next(w, last).log == w.log;
      PostShows(s0, s, w.log, seen, post.value, k);
    } else {
      LongerLogShows(s0, s, w.log, if last.Emit? then [last.e] else [], seen, k);
    }
  }

  // ---- What it means ----

  /** In every run in which nothing is lost and every batch accepted, however often batches are re-sent and however late posts
      arrive: the server has seen a prefix of what was emitted, which covers all that the agent has dropped from its buffer,
      and each response action shows the first report in it - or is queued if there is none. */
  lemma FirstReportsCount(s0: Server, steps: seq<Step<Event>>, k: int)
    requires Lossless(Agent(steps)) && AllAccepted(s0, steps) && k in s0.actions
    ensures var seen := Seen(steps); var s := ServerAfter(s0, steps);
      && |Agent(steps).fate| <= seen <= |Emitted(steps)|
      && k in s.actions && s.actions[k] == ActionNow(s0.actions[k], Emitted(steps)[..seen], k)
  {
    RunShows(s0, steps, k);
    ReliableLog(steps);
  }

  ghost predicate FlightAhead(w: Telemetry, seen: nat) {
    w.flight.Some? ==> End(w.flight.value) >= seen
  }

  lemma AheadStays(w: Telemetry, seen: nat, s: Step<Event>)
    requires Inv(w) && PostsOk(w, seen) && FlightAhead(w, seen) && !s.DeliverLate?
    ensures FlightAhead(Next(w, s), SeenNext(w, seen, s))
  {
  }

  /** If no post arrives late, the stop flag is the last word of that prefix, too. */
  lemma {:induction false} StopFlagInOrder(s0: Server, steps: seq<Step<Event>>)
    requires Lossless(Agent(steps)) && AllAccepted(s0, steps) && InOrder(steps)
    ensures PostsOk(Agent(steps), Seen(steps)) && FlightAhead(Agent(steps), Seen(steps)) && Seen(steps) <= |Emitted(steps)|
    ensures ServerAfter(s0, steps).stopped == StoppedNow(s0.stopped, Emitted(steps)[..Seen(steps)])
  {
    RunShows(s0, steps, 0);
    ReliableLog(steps);
    if steps != [] {
      var front, last := steps[..|steps| - 1], steps[|steps| - 1];
      var w := Agent(front);
      assert last in steps && steps == front + [last];
      LosslessBefore(w, last);
      StopFlagInOrder(s0, front);
      RunKeeps(Initial<Event>(), front);
      ReliableLog(front);
      AheadStays(w, Seen(front), last);
      StepStops(s0, ServerAfter(s0, front), w, Seen(front), last);
      LogAfter(w, last);
    } else {
      assert Emitted(steps)[..0] == [];
    }
  }

  lemma StepStops(s0: Server, s: Server, w: Telemetry, seen: nat, last: Step<Event>)
    requires Inv(w) && w.reliable && PostsOk(w, seen) && FlightAhead(w, seen) && !last.DeliverLate?
    requires s.stopped == StoppedNow(s0.stopped, w.log[..seen])
    requires PostOf(w, last).Some? ==> Accepted(s, PostOf(w, last).value.batch)
    ensures var post := PostOf(w, last); var later := SeenNext(w, seen, last); var log := Next(w, last).log;
      && later <= |log|
      && (if post.None? then s else IngestBatch(s, post.value.batch)).stopped == StoppedNow(s0.stopped, log[..later])
  {
    var post := PostOf(w, last);
    LogAfter(w, last);
    if post.Some? {
      IngestReads(s, post.value.batch, "", 0);
      OverlapStop(s0.stopped, w.log, seen, post.value);
      assert Next(w, last).log == w.log;
    } else {
      assert (w.log + if last.Emit? then [last.e] else [])[..seen] == w.log[..seen];
    }
  }

  // ---- A late post can turn the flag back ----

  const STOP := Event("agent", "stopped", "", None, None, "")
  const START := Event("agent", "started", "", None, None, "")

  lemma {:induction false} RunStep(steps: seq<Step<Event>>, s: Step<Event>)
    ensures Agent(steps + [s]) == Next(Agent(steps), s)
  {
    assert (steps + [s])[..|steps|] == steps;
  }

  function AfterEmits(buffer: seq<Event>, flight: Option<Flight<Event>>, late: seq<Flight<Event>>): Telemetry {
    World(buffer, buffer, flight, late, [], buffer, [], 0, |buffer|, 0, true)
  }

  /** Stop, post, give up, start, post: the first post is late and the second under way. */
  lemma LateFlight() returns (steps: seq<Step<Event>>)
    ensures Agent(steps) == AfterEmits([STOP, START], Some(Flight([STOP, START], 0, false)), [Flight([STOP], 0, false)])
    ensures forall i :: 0 <= i < |steps| ==> !steps[i].Deliver? && !steps[i].DeliverLate?
  {
    var first := Flight([STOP], 0, false);
    steps := [];
    assert Agent(steps) == AfterEmits([], None, []);
    RunStep(steps, Emit(STOP, true));
    steps := steps + [Emit(STOP, true)];
    assert [] + [STOP] == [STOP];
    RunStep(steps, Snapshot);
    steps := steps + [Snapshot];
    assert Agent(steps) == AfterEmits([STOP], Some(first), []);
    RunStep(steps, GiveUp);
    steps := steps + [GiveUp];
    assert Agent(steps) == AfterEmits([STOP], None, [first]) by { assert [] + [first] == [first]; }
    RunStep(steps, Emit(START, true));
    steps := steps + [Emit(START, true)];
    assert [STOP] + [START] == [STOP, START];
    RunStep(steps, Snapshot);
    steps := steps + [Snapshot];
  }

  lemma ServerStep(s0: Server, steps: seq<Step<Event>>, s: Step<Event>)
    ensures var post := PostOf(Agent(steps), s); var before := ServerAfter(s0, steps);
      && ServerAfter(s0, steps + [s]) == (if post.None? then before else IngestBatch(before, post.value.batch))
      && Seen(steps + [s]) == SeenNext(Agent(steps), Seen(steps), s)
      && (AllAccepted(s0, steps + [s]) <==> AllAccepted(s0, steps) && (post.Some? ==> Accepted(before, post.value.batch)))
  {
    assert (steps + [s])[..|steps|] == steps;
  }

  /** The second post gets through and is acknowledged; then the first one arrives. */
  lemma LateArrives(s0: Server, a: seq<Step<Event>>) returns (steps: seq<Step<Event>>)
    requires Agent(a) == AfterEmits([STOP, START], Some(Flight([STOP, START], 0, false)), [Flight([STOP], 0, false)])
    requires ServerAfter(s0, a) == s0 && AllAccepted(s0, a) && Seen(a) == 0
    ensures Lossless(Agent(steps)) && Agent(steps).log == [STOP, START] && AllAccepted(s0, steps) && Seen(steps) == 2
    ensures ServerAfter(s0, steps) == IngestBatch(IngestBatch(s0, [STOP, START]), [STOP])
  {
    FlagEvents(s0);
    ServerStep(s0, a, Deliver);
    RunStep(a, Deliver);
    var b := a + [Deliver];
    ServerStep(s0, b, Acknowledge(true));
    RunStep(b, Acknowledge(true));
    var c := b + [Acknowledge(true)];
    FlagEvents(ServerAfter(s0, c));
    ServerStep(s0, c, DeliverLate(0));
    RunStep(c, DeliverLate(0));
    steps := c + [DeliverLate(0)];
  }

  /** The agent stops, its post times out, it starts again and reports that - and then the first post arrives: the server takes
      a running agent for stopped, although nothing was lost. */
  lemma LatePostStops(s0: Server) returns (steps: seq<Step<Event>>)
    ensures Lossless(Agent(steps)) && AllAccepted(s0, steps)
    ensures Emitted(steps) == [STOP, START] && Seen(steps) == 2 && ServerAfter(s0, steps).stopped
    ensures !StoppedNow(s0.stopped, Emitted(steps))
  {
    var a := LateFlight();
    QuietBefore(s0, a);
    steps := LateArrives(s0, a);
    ReliableLog(steps);
    FlagEvents(s0);
    FlagEvents(IngestBatch(s0, [STOP, START]));
  }

  /** Nothing was processed in them. */
  lemma {:induction false} QuietBefore(s0: Server, steps: seq<Step<Event>>)
    requires forall i :: 0 <= i < |steps| ==> !steps[i].Deliver? && !steps[i].DeliverLate?
    ensures ServerAfter(s0, steps) == s0 && AllAccepted(s0, steps) && Seen(steps) == 0
  {
    if steps != [] {
      QuietBefore(s0, steps[..|steps| - 1]);
    }
  }

  lemma FlagEvents(s: Server)
    ensures Accepted(s, [STOP, START]) && !IngestBatch(s, [STOP, START]).stopped && !StoppedNow(s.stopped, [STOP, START])
    ensures Accepted(s, [STOP]) && IngestBatch(s, [STOP]).stopped
  {
    assert [STOP, START][..1] == [STOP] && [STOP][..0] == [];
    assert HandleAll(Open(s), [STOP]) == Session(s.(stopped := true), []);
    assert HandleAll(Open(s), [STOP, START]) == Session(s.(stopped := false), []);
    assert LastStop([STOP, START]) == Some(false);
  }
}
