/** Whole runs of the agent's spool against a server: emits, flushes that succeed, fail or lose their reply,
    failed saves, crashes and restarts. One flusher, as in agent/silentguard_agent/main.py:198 and 204. */
module SpoolRuns {
  import opened Text
  import opened Spool

  /** A batch under way: its events, their position in the log, and whether the server has processed it. */
  datatype Flight<E> = Flight(batch: seq<E>, from: nat, reached: bool)

  /** What became of an event that is no longer buffered. */
  datatype Fate = Acknowledged | Overflowed

  /** The agent (buffer, spool, flight), posts it no longer waits for, what the server processed, and history:
      `log` holds every event emitted so far - after a crash, those that had reached the spool;
      `fate` says what became of the events that left the buffer; the spool is `log[dlo..dhi]`;
      `overflows` counts events pushed into a full buffer; `reliable` holds while no save has failed. */
  datatype World<E> = World(
    buffer: seq<E>, spool: seq<E>, flight: Option<Flight<E>>, late: seq<Flight<E>>, received: seq<E>,
    log: seq<E>, fate: seq<Fate>, dlo: nat, dhi: nat, overflows: nat, reliable: bool)

  datatype Step<E> =
    | Emit(e: E, saved: bool)
    | Snapshot
    | Deliver                   // the server processes the batch under way
    | Acknowledge(saved: bool)  // its reply arrives: the events are removed
    | GiveUp                    // the post fails or times out, or the reply is lost
    | DeliverLate(i: nat)       // the server processes a post the agent no longer waits for
    | Crash                     // the process dies and is started again

  function Initial<E>(): World<E> {
    World([], [], None, [], [], [], [], 0, 0, 0, true)
  }

  /** Writing the spool file. */
  function Save<E>(w: World<E>, saved: bool): World<E> {
    if saved then w.(spool := w.buffer, dlo := |w.fate|, dhi := |w.log|) else w.(reliable := false)
  }

  function EmitStep<E>(w: World<E>, e: E): World<E> {
    var pushed := w.(buffer := Push(w.buffer, e), log := w.log + [e]);
    if |w.buffer| < MAX_BUFFER then pushed
    else pushed.(fate := w.fate + [Overflowed], overflows := w.overflows + 1)
  }

  function SnapshotStep<E>(w: World<E>): World<E> {
    if w.flight.Some? || w.buffer == [] then w else w.(flight := Some(Flight(w.buffer, |w.fate|, false)))
  }

  function DeliverStep<E>(w: World<E>): World<E> {
    if w.flight.None? || w.flight.value.reached then w
    else w.(received := w.received + w.flight.value.batch, flight := Some(w.flight.value.(reached := true)))
  }

  /** The agent stops waiting; the post may still arrive. */
  function Abandon<E>(w: World<E>): World<E> {
    if w.flight.Some? && !w.flight.value.reached then w.(late := w.late + [w.flight.value], flight := None)
    else w.(flight := None)
  }

  function LateStep<E>(w: World<E>, i: nat): World<E> {
    if i < |w.late| then w.(received := w.received + w.late[i].batch, late := w.late[..i] + w.late[i + 1..]) else w
  }

  predicate Replied<E>(w: World<E>) {
    w.flight.Some? && w.flight.value.reached
  }

  /** The batch is acknowledged, and as many events are popped from the left as it held:
      one that was popped without having been sent was pushed out of place by an overflow. */
  ghost function RemoveStep<E>(w: World<E>): World<E>
    requires Replied(w)
  {
    var from, n := w.flight.value.from, |w.flight.value.batch|;
    var gone := |w.fate| + Min(n, |w.buffer|);
    w.(buffer := DropFirst(w.buffer, n), flight := None,
       fate := seq(gone, i requires 0 <= i =>
         if from <= i < from + n then Acknowledged else if i < |w.fate| then w.fate[i] else Overflowed))
  }

  /** Events beyond the spool are gone; those the spool still holds are buffered again. */
  function CrashStep<E>(w: World<E>): World<E> {
    Abandon(w).(buffer := LastN(w.spool, MAX_BUFFER),
       log := w.log[..Min(w.dhi, |w.log|)], fate := w.fate[..Min(w.dlo, |w.fate|)])
  }

  /** One step; a step that is not possible changes nothing. */
  ghost function Next<E>(w: World<E>, s: Step<E>): World<E> {
    match s
    case Emit(e, saved) => Save(EmitStep(w, e), saved)
    case Snapshot => SnapshotStep(w)
    case Deliver => DeliverStep(w)
    case Acknowledge(saved) => if Replied(w) then Save(RemoveStep(w), saved) else w
    case GiveUp => Abandon(w)
    case DeliverLate(i) => LateStep(w, i)
    case Crash => CrashStep(w)
  }

  ghost function Run<E>(w: World<E>, steps: seq<Step<E>>): World<E> {
    if steps == [] then w else Next(Run(w, steps[..|steps| - 1]), steps[|steps| - 1])
  }

  // ---- The invariant ----

  function Overflowing(fate: seq<Fate>): nat {
    if fate == [] then 0
    else Overflowing(fate[..|fate| - 1]) + if fate[|fate| - 1] == Overflowed then 1 else 0
  }

  /** Buffer and spool are stretches of the log, the buffer the one whose fate is open. */
  ghost predicate BufferOk<E>(w: World<E>) {
    && |w.fate| <= |w.log| && w.buffer == w.log[|w.fate|..] && |w.buffer| <= MAX_BUFFER
    && w.dlo <= |w.fate| && w.dlo <= w.dhi <= |w.log| && w.spool == w.log[w.dlo..w.dhi] && |w.spool| <= MAX_BUFFER
  }

  /** Acknowledged events were received, and so were those of a batch that got through. */
  ghost predicate ReceivedOk<E>(w: World<E>) {
    && (forall i :: 0 <= i < |w.fate| && i < |w.log| && w.fate[i] == Acknowledged ==> w.log[i] in w.received)
    && (Replied(w) ==> forall e <- w.flight.value.batch :: e in w.received)
  }

  /** A batch under way is a stretch of the log; what overflowed since the snapshot left the buffer. */
  ghost predicate FlightOk<E>(w: World<E>) {
    w.flight.Some? ==>
      var f := w.flight.value;
      && |f.batch| <= MAX_BUFFER && f.from <= |w.fate|
      && f.from + |f.batch| <= |w.log| && f.batch == w.log[f.from..f.from + |f.batch|]
      && |w.fate| - f.from == (if |w.log| - f.from <= MAX_BUFFER then 0 else |w.log| - f.from - MAX_BUFFER)
      && forall i :: f.from <= i < |w.fate| ==> w.fate[i] == Overflowed
  }

  /** While saves succeed, the spool is the buffer, and as many events are marked overflowed as overflowed. */
  ghost predicate ExactOk<E>(w: World<E>) {
    w.reliable ==> w.dlo == |w.fate| && w.dhi == |w.log| && Overflowing(w.fate) == w.overflows
  }

  ghost predicate Inv<E>(w: World<E>) {
    BufferOk(w) && ReceivedOk(w) && FlightOk(w) && ExactOk(w)
  }

  lemma SaveKeeps<E>(w: World<E>, saved: bool)
    requires BufferOk(w) && ReceivedOk(w) && FlightOk(w) && (w.reliable ==> Overflowing(w.fate) == w.overflows)
    ensures Inv(Save(w, saved))
  {
  }

  lemma EmitReceived<E>(w: World<E>, e: E)
    requires BufferOk(w) && ReceivedOk(w)
    ensures ReceivedOk(EmitStep(w, e))
    ensures Overflowing(w.fate) == w.overflows ==> Overflowing(EmitStep(w, e).fate) == EmitStep(w, e).overflows
  {
    assert (w.fate + [Overflowed])[..|w.fate|] == w.fate;
  }

  lemma {:induction false} OverflowingConcat(a: seq<Fate>, b: seq<Fate>)
    ensures Overflowing(a + b) == Overflowing(a) + Overflowing(b)
  {
    if b == [] {
      assert a + b == a;
    } else {
      assert (a + b)[..|a + b| - 1] == a + b[..|b| - 1];
      OverflowingConcat(a, b[..|b| - 1]);
    }
  }

  lemma {:induction false} OverflowingSame(s: seq<Fate>, f: Fate)
    requires forall i :: 0 <= i < |s| ==> s[i] == f
    ensures Overflowing(s) == if f == Overflowed then |s| else 0
  {
    if s != [] {
      OverflowingSame(s[..|s| - 1], f);
    }
  }

  lemma MarkedCount(front: seq<Fate>, overflown: seq<Fate>, sent: seq<Fate>, lost: seq<Fate>)
    requires |overflown| == |lost|
    requires forall i :: 0 <= i < |overflown| ==> overflown[i] == Overflowed
    requires forall i :: 0 <= i < |sent| ==> sent[i] == Acknowledged
    requires forall i :: 0 <= i < |lost| ==> lost[i] == Overflowed
    ensures Overflowing(front + (sent + lost)) == Overflowing(front + overflown)
  {
    OverflowingConcat(front, overflown);
    OverflowingConcat(front, sent + lost);
    OverflowingConcat(sent, lost);
    OverflowingSame(overflown, Overflowed);
    OverflowingSame(sent, Acknowledged);
    OverflowingSame(lost, Overflowed);
  }

  /** Acknowledging marks as many events overflowed as it unmarks. */
  lemma RemoveCount<E>(w: World<E>)
    requires BufferOk(w) && FlightOk(w) && Replied(w)
    ensures Overflowing(RemoveStep(w).fate) == Overflowing(w.fate)
  {
    var v, from, n := RemoveStep(w).fate, w.flight.value.from, |w.flight.value.batch|;
    var sent, lost := v[from..from + n], v[from + n..];
    assert v == w.fate[..from] + (sent + lost);
    assert w.fate == w.fate[..from] + w.fate[from..];
    MarkedCount(w.fate[..from], w.fate[from..], sent, lost);
  }

  lemma CrashKeeps<E>(w: World<E>)
    requires Inv(w)
    ensures Inv(CrashStep(w))
  {
    var v := CrashStep(w);
    assert v.log[|v.fate|..] == w.spool == v.log[v.dlo..v.dhi];
    assert w.reliable ==> v.fate == w.fate;
  }

  lemma EmitKeeps<E>(w: World<E>, e: E, saved: bool)
    requires Inv(w)
    ensures Inv(Save(EmitStep(w, e), saved))
  {
    EmitReceived(w, e);
    SaveKeeps(EmitStep(w, e), saved);
  }

  lemma AcknowledgeKeeps<E>(w: World<E>, saved: bool)
    requires Inv(w) && Replied(w)
    ensures Inv(Save(RemoveStep(w), saved))
  {
    RemoveCount(w);
    SaveKeeps(RemoveStep(w), saved);
  }

  lemma LateKeeps<E>(w: World<E>, i: nat)
    requires Inv(w)
    ensures Inv(LateStep(w, i))
  {
  }

  lemma NextKeeps<E>(w: World<E>, s: Step<E>)
    requires Inv(w)
    ensures Inv(Next(w, s))
  {
    match s {
      case Emit(e, saved) => EmitKeeps(w, e, saved);
      case Acknowledge(saved) => if Replied(w) { AcknowledgeKeeps(w, saved); }
      case Crash => CrashKeeps(w);
      case Snapshot =>
      case GiveUp =>
      case Deliver =>
      case DeliverLate(i) => LateKeeps(w, i);
    }
  }

  lemma {:induction false} RunKeeps<E>(w: World<E>, steps: seq<Step<E>>)
    requires Inv(w)
    ensures Inv(Run(w, steps))
  {
    if steps != [] {
      RunKeeps(w, steps[..|steps| - 1]);
      NextKeeps(Run(w, steps[..|steps| - 1]), steps[|steps| - 1]);
    }
  }

  // ---- What it means ----

  lemma Accounted<E>(w: World<E>, i: nat)
    requires BufferOk(w) && ReceivedOk(w) && i < |w.log|
    ensures if i < |w.fate| then w.fate[i] == Acknowledged ==> w.log[i] in w.received
      else i - |w.fate| < |w.buffer| && w.buffer[i - |w.fate|] == w.log[i]
  {
  }

  /** In every run, whatever fails: each event on record either has left the buffer, acknowledged (and then received
      by the server) or dropped by the size bound, or stands in the buffer at its place. */
  lemma NothingElseLost<E>(steps: seq<Step<E>>, i: nat)
    requires i < |Run(Initial<E>(), steps).log|
    ensures var w := Run(Initial<E>(), steps);
      if i < |w.fate| then w.fate[i] == Acknowledged ==> w.log[i] in w.received
      else i - |w.fate| < |w.buffer| && w.buffer[i - |w.fate|] == w.log[i]
  {
    RunKeeps(Initial<E>(), steps);
    Accounted(Run(Initial<E>(), steps), i);
  }

  /** In every run in which saves succeed, the spool on disk is the buffer, no emitted event is off record, and
      emitted = buffered + acknowledged + overflows. */
  lemma Conservation<E>(steps: seq<Step<E>>)
    requires Run(Initial<E>(), steps).reliable
    ensures var w := Run(Initial<E>(), steps);
      && w.spool == w.buffer && w.log == Emitted(steps)
      && |w.log| == |w.buffer| + (|w.fate| - Overflowing(w.fate)) + w.overflows
  {
    RunKeeps(Initial<E>(), steps);
    ReliableLog(steps);
  }

  function Emitted<E>(steps: seq<Step<E>>): seq<E> {
    if steps == [] then []
    else
      var last := steps[|steps| - 1];
      Emitted(steps[..|steps| - 1]) + if last.Emit? then [last.e] else []
  }

  lemma {:induction false} ReliableLog<E>(steps: seq<Step<E>>)
    requires Run(Initial<E>(), steps).reliable
    ensures Run(Initial<E>(), steps).log == Emitted(steps)
  {
    if steps != [] {
      var front := steps[..|steps| - 1];
      ReliableLog(front);
      RunKeeps(Initial<E>(), front);
      LogAfter(Run(Initial<E>(), front), steps[|steps| - 1]);
    }
  }

  lemma LogAfter<E>(w: World<E>, s: Step<E>)
    requires Inv(w) && w.reliable
    ensures Next(w, s).log == w.log + if s.Emit? then [s.e] else []
  {
    assert w.log[..|w.log|] == w.log;
  }

  /** The batch the server processes in a step. */
  function Processed<E>(w: World<E>, s: Step<E>): seq<E> {
    if s.Deliver? && w.flight.Some? && !w.flight.value.reached then w.flight.value.batch
    else if s.DeliverLate? && s.i < |w.late| then w.late[s.i].batch
    else []
  }

  ghost predicate AllIn<E>(batch: seq<E>, events: seq<E>) {
    forall e <- batch :: e in events
  }

  ghost predicate OnlyEmitted<E>(w: World<E>, emitted: seq<E>) {
    AllIn(w.log, emitted) && AllIn(w.received, emitted) && forall i :: 0 <= i < |w.late| ==> AllIn(w.late[i].batch, emitted)
  }

  lemma StepReceives<E>(w: World<E>, s: Step<E>, emitted: seq<E>)
    requires Inv(w) && OnlyEmitted(w, emitted)
    ensures AllIn(Processed(w, s), emitted) && Next(w, s).received == w.received + Processed(w, s)
    ensures OnlyEmitted(Next(w, s), emitted + if s.Emit? then [s.e] else [])
  {
    assert emitted + [] == emitted;
    match s {
      case Emit(e, saved) =>
      case Deliver =>
      case DeliverLate(_) =>
      case _ =>
    }
  }

  /** Nothing reaches the server but what was emitted before, however late a post arrives. */
  lemma {:induction false} ReceivedWereEmitted<E>(steps: seq<Step<E>>)
    ensures OnlyEmitted(Run(Initial<E>(), steps), Emitted(steps))
    ensures steps != [] ==>
      var front := steps[..|steps| - 1];
      AllIn(Processed(Run(Initial<E>(), front), steps[|steps| - 1]), Emitted(front))
  {
    if steps != [] {
      var front := steps[..|steps| - 1];
      ReceivedWereEmitted(front);
      RunKeeps(Initial<E>(), front);
      StepReceives(Run(Initial<E>(), front), steps[|steps| - 1], Emitted(front));
    }
  }

  // ---- The client takes these steps ----

  /** Each critical section of the client, and each restart, is a step of the runs above. */
  method TakeStep<E>(client: TelemetryClient<E>, sent: nat, ghost w: World<E>, s: Step<E>) returns (after: TelemetryClient<E>)
    requires client.Valid() && client.buffer == w.buffer && client.spool == w.spool && FlightOk(w)
    requires s.Acknowledge? ==> Replied(w) && sent == |w.flight.value.batch|
    modifies client
    ensures after.Valid() && after.buffer == Next(w, s).buffer && after.spool == Next(w, s).spool
    ensures s.Crash? || after == client
  {
    after := client;
    match s {
      case Emit(e, saved) => client.Emit(e, saved);
      case Acknowledge(saved) => client.Remove(sent, saved);
      case Crash => after := new TelemetryClient<E>(client.spool);
      case Snapshot =>
      case Deliver =>
      case GiveUp =>
      case DeliverLate(_) =>
    }
  }
}
