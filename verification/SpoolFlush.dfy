/** What becomes of one flush in the runs of the spool (agent/silentguard_agent/telemetry.py:92-113). */
module SpoolFlush {
  import opened Text
  import opened Spool
  import opened SpoolRuns

  function Emits<E>(events: seq<E>, saved: bool): seq<Step<E>> {
    seq(|events|, i requires 0 <= i < |events| => Emit(events[i], saved))
  }

  lemma {:induction false} EmitsRun<E>(w: World<E>, events: seq<E>, saved: bool)
    ensures var v := Run(w, Emits(events, saved));
      && v.buffer == PushAll(w.buffer, events) && v.flight == w.flight && v.late == w.late && v.received == w.received
      && (saved && events != [] ==> v.spool == v.buffer)
  {
    if events != [] {
      var last := |events| - 1;
      EmitsRun(w, events[..last], saved);
      assert Emits(events, saved)[..last] == Emits(events[..last], saved);
    }
  }

  /** The world in which the batch is under way and these events were emitted since. */
  ghost function UnderWay<E>(w: World<E>, during: seq<E>, saved: bool): World<E> {
    Run(Next(w, Snapshot), Emits(during, saved))
  }

  lemma UnderWayReads<E>(w: World<E>, during: seq<E>, saved: bool)
    requires w.flight.None? && w.buffer != []
    ensures var v := UnderWay(w, during, saved);
      && v.flight.Some? && v.flight.value.batch == w.buffer && !v.flight.value.reached
      && v.buffer == PushAll(w.buffer, during) && v.late == w.late && v.received == w.received
  {
    EmitsRun(Next(w, Snapshot), during, saved);
  }

  /** A flush whose post and reply arrive: the server has processed the whole buffer of the snapshot, in order, and what is
      left of the events emitted since are the last ones for which 5000 events leave room. */
  lemma FlushCompletes<E>(w: World<E>, during: seq<E>, saved: bool)
    requires w.flight.None? && 0 < |w.buffer| <= 5000
    ensures var v := Next(Next(UnderWay(w, during, saved), Deliver), Acknowledge(saved));
      var room := 5000 - |w.buffer|;
      && v.received == w.received + w.buffer && v.late == w.late && v.flight.None?
      && v.buffer == during[if |during| <= room then 0 else |during| - room..]
      && (saved ==> v.spool == v.buffer)
  {
    UnderWayReads(w, during, saved);
    FlushLeaves(w.buffer, during);
  }

  /** One whose reply is lost: the server has processed the batch, and the agent keeps it. */
  lemma ReplyLost<E>(w: World<E>, during: seq<E>, saved: bool)
    requires w.flight.None? && w.buffer != []
    ensures var v := Next(Next(UnderWay(w, during, saved), Deliver), GiveUp);
      v.received == w.received + w.buffer && v.late == w.late && v.flight.None? && v.buffer == PushAll(w.buffer, during)
  {
    UnderWayReads(w, during, saved);
  }

  /** One that times out: the agent keeps the batch, and the post may still arrive, once. */
  lemma TimedOut<E>(w: World<E>, during: seq<E>, saved: bool)
    requires w.flight.None? && w.buffer != []
    ensures var v := Next(UnderWay(w, during, saved), GiveUp);
      && v.received == w.received && |v.late| == |w.late| + 1 && v.flight.None? && v.buffer == PushAll(w.buffer, during)
      && Next(v, DeliverLate(|w.late|)).received == w.received + w.buffer && Next(v, DeliverLate(|w.late|)).late == w.late
  {
    UnderWayReads(w, during, saved);
    var v := Next(UnderWay(w, during, saved), GiveUp);
    assert v.late[..|w.late|] + v.late[|w.late| + 1..] == w.late;
  }

  /** A restart buffers the newest events the spool holds, and leaves the file alone; a post under way may still arrive. */
  lemma Restarted<E>(w: World<E>)
    ensures var v := Next(w, Crash);
      && v.buffer == w.spool[if |w.spool| <= 5000 then 0 else |w.spool| - 5000..] && v.spool == w.spool
      && v.received == w.received && v.flight.None?
      && v.late == w.late + if w.flight.Some? && !w.flight.value.reached then [w.flight.value] else []
  {
  }
}
