/** What re-sending a batch does, after a lost reply or a failed request
    (agent/silentguard_agent/telemetry.py:93-113, server/app/routers/agents.py:85-121). */
module IngestResend {
  import opened Text
  import opened Ingest

  lemma {:induction false} AppendReads(b: seq<Event>, c: seq<Event>, q: string, k: int)
    ensures LastStop(b + c) == if LastStop(c).Some? then LastStop(c) else LastStop(b)
    ensures LastRestore(b + c, q) == if LastRestore(c, q).Some? then LastRestore(c, q) else LastRestore(b, q)
    ensures FirstReport(b + c, k) == if FirstReport(b, k).Some? then FirstReport(b, k) else FirstReport(c, k)
    ensures Creations(b + c, q) == Creations(b, q) + Creations(c, q)
  {
    if c == [] {
      assert b + c == b;
    } else {
      var last := |c| - 1;
      assert (b + c)[..|b + c| - 1] == b + c[..last];
      AppendReads(b, c[..last], q, k);
    }
  }

  const QUARANTINED := Event("quarantine", "quarantined", "q", None, None, "")
  const STOPPED := Event("agent", "stopped", "", None, None, "")
  const RESTORED := Event("quarantine", "restored", "q", None, None, "")

  // ---- A batch that was accepted ----

  /** Item `q`, not on record, is created in `b` and last reported restored in `b` or its continuation `c`. */
  predicate RestoreMissed(s: Server, b: seq<Event>, c: seq<Event>, q: string) {
    q !in s.items && Creations(b, q) > 0 && LastRestore(b + c, q) == Some(true)
  }

  lemma AgainAccepted(s: Server, b: seq<Event>, c: seq<Event>)
    requires Accepted(s, b + c)
    ensures Accepted(s, b) && Accepted(IngestBatch(s, b), b + c)
  {
    AcceptedExactly(s, b + c);
    forall q
      ensures Creations(b, q) <= Creations(b + c, q)
    {
      AppendReads(b, c, q, 0);
    }
    AcceptedExactly(s, b);
    forall q | q !in IngestBatch(s, b).items
      ensures Creations(b + c, q) <= 1
    {
      IngestReads(s, b, q, 0);
    }
    AcceptedExactly(IngestBatch(s, b), b + c);
  }

  lemma ResendAction(s: Server, b: seq<Event>, c: seq<Event>, k: int)
    requires Accepted(s, b + c)
    ensures var twice, once := IngestBatch(IngestBatch(s, b), b + c), IngestBatch(s, b + c);
      && twice.stopped == once.stopped && twice.actions.Keys == once.actions.Keys == s.actions.Keys
      && (k in s.actions ==> twice.actions[k] == once.actions[k])
  {
    AgainAccepted(s, b, c);
    AppendReads(b, c, "", k);
    IngestReads(s, b, "", k);
    IngestReads(IngestBatch(s, b), b + c, "", k);
    IngestReads(s, b + c, "", k);
  }

  lemma ResendItem(s: Server, b: seq<Event>, c: seq<Event>, q: string)
    requires Accepted(s, b + c)
    ensures var twice, once := IngestBatch(IngestBatch(s, b), b + c), IngestBatch(s, b + c);
      && (q in twice.items <==> q in once.items)
      && (RestoreMissed(s, b, c, q) ==> q in once.items)
      && (q in once.items ==> (twice.items[q] == once.items[q] <==> !RestoreMissed(s, b, c, q)))
  {
    AgainAccepted(s, b, c);
    AppendReads(b, c, q, 0);
    IngestReads(s, b, q, 0);
    IngestReads(IngestBatch(s, b), b + c, q, 0);
    IngestReads(s, b + c, q, 0);
  }

  lemma ResendAgrees(s: Server, b: seq<Event>, c: seq<Event>)
    requires Accepted(s, b + c)
    ensures var twice, once := IngestBatch(IngestBatch(s, b), b + c), IngestBatch(s, b + c);
      twice.stopped == once.stopped && twice.actions == once.actions
  {
    var twice, once := IngestBatch(IngestBatch(s, b), b + c), IngestBatch(s, b + c);
    forall k
      ensures twice.actions.Keys == once.actions.Keys == s.actions.Keys && twice.stopped == once.stopped
      ensures k in s.actions ==> twice.actions[k] == once.actions[k]
    {
      ResendAction(s, b, c, k);
    }
    ResendAction(s, b, c, 0);
  }

  lemma ResendItems(s: Server, b: seq<Event>, c: seq<Event>)
    requires Accepted(s, b + c)
    ensures var twice, once := IngestBatch(IngestBatch(s, b), b + c), IngestBatch(s, b + c);
      && twice.items.Keys == once.items.Keys
      && (twice.items == once.items <==> forall q :: !RestoreMissed(s, b, c, q))
  {
    var twice, once := IngestBatch(IngestBatch(s, b), b + c).items, IngestBatch(s, b + c).items;
    forall q
      ensures q in twice <==> q in once
      ensures q in once ==> (twice[q] == once[q] <==> !RestoreMissed(s, b, c, q))
      ensures RestoreMissed(s, b, c, q) ==> q in once
    {
      ResendItem(s, b, c, q);
    }
    assert twice.Keys == once.Keys;
  }

  /** If the long batch is acceptable, so are `b` and the repetition, and the second ingestion leaves the server as ingesting
      the long batch once would - except for the items whose creation hid their own restore the first time. */
  lemma AcceptedResend(s: Server, b: seq<Event>, c: seq<Event>)
    requires Accepted(s, b + c)
    ensures Accepted(s, b) && Accepted(IngestBatch(s, b), b + c)
    ensures IngestBatch(IngestBatch(s, b), b + c) == IngestBatch(s, b + c)
      <==> forall q :: !RestoreMissed(s, b, c, q)
    ensures var twice, once := IngestBatch(IngestBatch(s, b), b + c), IngestBatch(s, b + c);
      twice.stopped == once.stopped && twice.actions == once.actions && twice.items.Keys == once.items.Keys
  {
    AgainAccepted(s, b, c);
    ResendAgrees(s, b, c);
    ResendItems(s, b, c);
  }

  lemma ThreeEvents(x: Event, y: Event, z: Event, q: string)
    ensures Creations([x, y, z], q)
      == (if Creates(x, q) then 1 else 0) + (if Creates(y, q) then 1 else 0) + (if Creates(z, q) then 1 else 0)
    ensures LastRestore([x, y, z], q)
      == if RestoreOf(z, q).Some? then RestoreOf(z, q) else if RestoreOf(y, q).Some? then RestoreOf(y, q) else RestoreOf(x, q)
  {
    assert [x, y, z][..2] == [x, y] && [x, y][..1] == [x] && [x][..0] == [];
    assert Creations([x], q) == if Creates(x, q) then 1 else 0;
    assert LastRestore([x], q) == RestoreOf(x, q);
    assert LastRestore([x, y], q) == if RestoreOf(y, q).Some? then RestoreOf(y, q) else RestoreOf(x, q);
  }

  /** A report in between makes no difference: the new row still waits for the commit behind the batch. */
  lemma ReportDoesNotCommit(s: Server, k: int, info: string)
    requires "q" !in s.items
    ensures var batch := [QUARANTINED, Event("response", "result", "", Some(k), Some("ok"), info), RESTORED];
      && Accepted(s, batch) && RestoreMissed(s, batch, [], "q")
      && IngestBatch(s, batch).items.Keys == IngestBatch(IngestBatch(s, batch), batch).items.Keys == s.items.Keys + {"q"}
      && IngestBatch(s, batch).items["q"] == Quarantined
      && IngestBatch(IngestBatch(s, batch), batch).items["q"] == Restored
  {
    var batch := [QUARANTINED, Event("response", "result", "", Some(k), Some("ok"), info), RESTORED];
    assert batch + [] == batch;
    forall p
      ensures Creations(batch, p) == (if p == "q" then 1 else 0)
    {
      ThreeEvents(batch[0], batch[1], batch[2], p);
    }
    ThreeEvents(batch[0], batch[1], batch[2], "q");
    AcceptedExactly(s, batch);
    AgainAccepted(s, batch, []);
    var s1 := IngestBatch(s, batch);
    forall p
      ensures p in s1.items <==> p in s.items || p == "q"
      ensures p in IngestBatch(s1, batch).items <==> p in s1.items
    {
      IngestReads(s, batch, p, 0);
      IngestReads(s1, batch, p, 0);
    }
    IngestReads(s, batch, "q", 0);
    IngestReads(s1, batch, "q", 0);
  }

  /** If it is not, ingesting it once changes nothing, and twice at least what `b` did. */
  lemma RejectedResend(s: Server, b: seq<Event>, c: seq<Event>)
    requires !Accepted(s, b + c)
    ensures IngestBatch(s, b + c) == s
    ensures IngestBatch(IngestBatch(s, b), b + c) == s <==> IngestBatch(s, b) == s
  {
    var s1 := IngestBatch(s, b);
    AcceptedExactly(s, b + c);
    AcceptedExactly(s1, b + c);
    if s1 != s && Accepted(s1, b + c) {
      var q := ClashingItem(s, b + c);
      NewItemStays(s, b, b + c, q);
    }
  }

  lemma ClashingItem(s: Server, batch: seq<Event>) returns (q: string)
    requires !Accepted(s, batch)
    ensures q !in s.items && Creations(batch, q) > 1
  {
    AcceptedExactly(s, batch);
    q :| q !in s.items && Creations(batch, q) > 1;
  }

  lemma NewItemStays(s: Server, b: seq<Event>, batch: seq<Event>, q: string)
    requires q !in s.items && Creations(batch, q) > 1 && Accepted(IngestBatch(s, b), batch)
    ensures q in IngestBatch(IngestBatch(s, b), batch).items
  {
    AcceptedExactly(IngestBatch(s, b), batch);
    IngestReads(IngestBatch(s, b), batch, q, 0);
  }

  /** After a lost reply the agent re-sends `b` with what it captured since. For all batches: ingesting both leaves the server as
      ingesting the long one once, if and only if - the long one being acceptable - no new item of `b` is last reported
      restored, or - the long one being rejected - `b` changed nothing. */
  lemma ResendExactly(s: Server, b: seq<Event>, c: seq<Event>)
    ensures IngestBatch(IngestBatch(s, b), b + c) == IngestBatch(s, b + c) <==>
      if Accepted(s, b + c) then forall q :: !RestoreMissed(s, b, c, q) else IngestBatch(s, b) == s
  {
    if Accepted(s, b + c) {
      AcceptedResend(s, b, c);
    } else {
      RejectedResend(s, b, c);
    }
  }

  /** A flag in `b`, and an item created twice behind it: ingested as one batch the flag is lost, re-sent it is kept. */
  lemma RejectionCanLose(s: Server)
    requires !s.stopped && "q" !in s.items
    ensures var b, c := [STOPPED], [QUARANTINED, QUARANTINED];
      IngestBatch(IngestBatch(s, b), b + c).stopped && !IngestBatch(s, b + c).stopped && forall q :: !RestoreMissed(s, b, c, q)
  {
    var b, c := [STOPPED], [QUARANTINED, QUARANTINED];
    assert b[..0] == [];
    assert HandleAll(Open(s), b) == Session(s.(stopped := true), []);
    var s1 := IngestBatch(s, b);
    assert b + c == [STOPPED, QUARANTINED, QUARANTINED];
    ThreeEvents(STOPPED, QUARANTINED, QUARANTINED, "q");
    AcceptedExactly(s, b + c);
    AcceptedExactly(s1, b + c);
    forall q
      ensures !RestoreMissed(s, b, c, q)
    {
      ThreeEvents(STOPPED, QUARANTINED, QUARANTINED, q);
    }
  }

  /** The smallest difference: a file quarantined and, by an operator who knows the id from elsewhere, restored before the
      server has heard of it. */
  lemma ResendCanChange()
    ensures var s := Server(false, map[], map[]); var batch := [QUARANTINED, RESTORED];
      && IngestBatch(s, batch).items == map["q" := Quarantined]
      && IngestBatch(IngestBatch(s, batch), batch).items == map["q" := Restored]
  {
    var s, s1 := Server(false, map[], map[]), Server(false, map["q" := Quarantined], map[]);
    var batch := [QUARANTINED, RESTORED];
    assert batch[..1] == [QUARANTINED] && [QUARANTINED][..0] == [];
    assert HandleAll(Open(s), [QUARANTINED]) == Session(s, ["q"]);
    assert HandleAll(Open(s), batch) == Session(s, ["q"]);
    assert IngestBatch(s, batch) == s1;
    assert HandleAll(Open(s1), [QUARANTINED]) == Session(s1, []);
  }

  // ---- A batch that was rejected ----

  /** A rejected batch changes nothing, and is rejected again whatever the agent appends. The agent re-sends it until the bound
      of its buffer pushes the offending events out. */
  lemma RejectedForever(s: Server, b: seq<Event>, c: seq<Event>)
    requires !Accepted(s, b)
    ensures IngestBatch(s, b) == s && !Accepted(s, b + c) && IngestBatch(s, b + c) == s
  {
    AcceptedExactly(s, b);
    var q :| q !in s.items && Creations(b, q) > 1;
    AppendReads(b, c, q, 0);
    AcceptedExactly(s, b + c);
  }

  /** Creating one item twice is enough, and a report in between does not help. */
  lemma DoubleCreationRejected(s: Server, k: int, info: string, c: seq<Event>)
    requires "q" !in s.items
    ensures var batch := [QUARANTINED, Event("response", "result", "", Some(k), Some("ok"), info), QUARANTINED];
      !Accepted(s, batch + c) && IngestBatch(s, batch + c) == s
  {
    var batch := [QUARANTINED, Event("response", "result", "", Some(k), Some("ok"), info), QUARANTINED];
    ThreeEvents(batch[0], batch[1], batch[2], "q");
    AcceptedExactly(s, batch);
    RejectedForever(s, batch, c);
  }
}
