/** The agent's bounded telemetry buffer and its on-disk spool
    (agent/silentguard_agent/telemetry.py:26-43, 77-113). */
module Spool {

  const MAX_BUFFER: nat := 5000

  function Min(a: int, b: int): int {
    if a <= b then a else b
  }

  function LastN<E>(s: seq<E>, n: nat): seq<E> {
    if |s| <= n then s else s[|s| - n..]
  }

  /** Appending to a `deque(maxlen=MAX_BUFFER)` pushes the oldest element out of a full one. */
  function Push<E>(buffer: seq<E>, e: E): seq<E> {
    LastN(buffer + [e], MAX_BUFFER)
  }

  function PushAll<E>(buffer: seq<E>, events: seq<E>): seq<E> {
    if events == [] then buffer else Push(PushAll(buffer, events[..|events| - 1]), events[|events| - 1])
  }

  function DropFirst<E>(buffer: seq<E>, n: nat): seq<E> {
    buffer[Min(n, |buffer|)..]
  }

  /** `saved` says whether writing the spool file succeeded; errors are swallowed. */
  class TelemetryClient<E> {
    var buffer: seq<E>
    var spool: seq<E>

    ghost predicate Valid()
      reads this
    {
      |buffer| <= MAX_BUFFER
    }

    /** Start-up: recover the newest events of the spool; the file itself is left alone. */
    constructor (spooled: seq<E>)
      ensures Valid() && buffer == LastN(spooled, MAX_BUFFER) && spool == spooled
    {
      buffer := LastN(spooled, MAX_BUFFER);
      spool := spooled;
    }

    method PersistLocked(saved: bool)
      modifies this`spool
      ensures spool == if saved then buffer else old(spool)
    {
      if saved {
        spool := buffer;
      }
    }

    method Emit(e: E, saved: bool)
      requires Valid()
      modifies this
      ensures Valid() && buffer == Push(old(buffer), e)
      ensures spool == if saved then buffer else old(spool)
    {
      buffer := Push(buffer, e);
      PersistLocked(saved);
    }

    /** The first critical section of a flush. Nothing is posted when the buffer is empty. */
    method Snapshot() returns (batch: seq<E>)
      ensures batch == buffer
    {
      batch := buffer;
    }

    /** The second critical section, after the server accepted a batch of `n` events. */
    method Remove(n: nat, saved: bool)
      requires Valid()
      modifies this
      ensures Valid() && buffer == DropFirst(old(buffer), n)
      ensures spool == if saved then buffer else old(spool)
    {
      var count := Min(n, |buffer|);
      for i := 0 to count
        invariant spool == old(spool) && buffer == old(buffer)[i..]
      {
        buffer := buffer[1..];
      }
      PersistLocked(saved);
    }

    /** A whole flush while other threads emit `during` between its two critical sections. */
    method Flush(posted: bool, during: seq<E>, saved: bool)
      requires Valid()
      modifies this
      ensures Valid()
      ensures posted && old(buffer) != [] ==> buffer == LastN(during, Min(|during|, MAX_BUFFER - |old(buffer)|))
      ensures !posted || old(buffer) == [] ==> buffer == PushAll(old(buffer), during)
      ensures saved && (during != [] || (posted && old(buffer) != [])) ==> spool == buffer
    {
      var batch := Snapshot();
      for i := 0 to |during|
        invariant Valid() && buffer == PushAll(old(buffer), during[..i])
        invariant spool == if saved && i > 0 then buffer else old(spool)
      {
        assert during[..i + 1][..i] == during[..i];
        Emit(during[i], saved);
      }
      assert during[..|during|] == during;
      if posted && batch != [] {
        FlushLeaves(batch, during);
        Remove(|batch|, saved);
      }
    }
  }

  lemma {:induction false} PushAllIsLast<E>(buffer: seq<E>, events: seq<E>)
    requires |buffer| <= MAX_BUFFER
    ensures PushAll(buffer, events) == LastN(buffer + events, MAX_BUFFER)
  {
    if events == [] {
      assert buffer + events == buffer;
    } else {
      var last := |events| - 1;
      PushAllIsLast(buffer, events[..last]);
      assert buffer + events == (buffer + events[..last]) + [events[last]];
    }
  }

  /** A flush of n events during which m are emitted leaves exactly the last min(m, MAX - n) of those. */
  lemma FlushLeaves<E>(batch: seq<E>, during: seq<E>)
    requires |batch| <= MAX_BUFFER
    ensures DropFirst(PushAll(batch, during), |batch|) == LastN(during, Min(|during|, MAX_BUFFER - |batch|))
  {
    PushAllIsLast(batch, during);
    var all := batch + during;
    var n, m := |batch|, |during|;
    var kept := LastN(all, MAX_BUFFER);
    var cut := |all| - |kept|;
    assert kept == all[cut..];
    assert DropFirst(kept, n) == all[cut + n..];
    assert all[n + cut..] == during[cut..];
  }

  /** So what a flush loses undelivered is the overflow n + m - MAX, and nothing when that is not positive. */
  lemma FlushLoses<E>(batch: seq<E>, during: seq<E>)
    requires |batch| <= MAX_BUFFER
    ensures var left := DropFirst(PushAll(batch, during), |batch|);
      |during| - |left| == if |batch| + |during| <= MAX_BUFFER then 0 else |batch| + |during| - MAX_BUFFER
  {
    FlushLeaves(batch, during);
  }
}
