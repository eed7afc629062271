/** Telemetry ingestion on the server (server/app/routers/agents.py:17-44, 85-121 and
    server/app/services/response.py:106-113).

    A batch is one transaction, and the database session does not flush before it reads (server/app/database.py:14): an item
    added for an event is invisible to the later events of its batch. */
module Ingest {
  import opened Text

  /** What ingestion reads of a telemetry event: source, action, and the details `id`, `action_id`, `status`. */
  datatype Event = Event(source: string, action: string, id: string, actionId: Option<int>, status: Option<string>, info: string)

  datatype ItemStatus = Quarantined | RestoreRequested | Restored

  datatype ActionStatus = Queued | Completed | Failed

  /** `report` is the event whose details became the result. */
  datatype Action = Action(kind: string, status: ActionStatus, report: Option<Event>)

  datatype Server = Server(stopped: bool, items: map<string, ItemStatus>, actions: map<int, Action>)

  // ---- Handling one event ----

  /** What an event asks for. Events of other sources or actions are only stored. */
  datatype Kind = Stop(stopped: bool) | Creation(id: string) | Restoration(id: string, ok: bool) | Report(actionId: int) | Other

  function KindOf(ev: Event): Kind {
    if ev.source == "agent" then
      if ev.action == "stopped" then Stop(true) else if ev.action == "started" then Stop(false) else Other
    else if ev.source == "quarantine" || ev.source == "file_drop" then
      if ev.id == "" then Other
      else if ev.action == "quarantined" then Creation(ev.id)
      else if ev.action == "restored" then Restoration(ev.id, true)
      else if ev.action == "restore_failed" then Restoration(ev.id, false)
      else Other
    else if ev.source == "response" && ev.action == "result" && ev.actionId.Some? && ev.actionId.value != 0 then
      Report(ev.actionId.value)
    else Other
  }

  predicate Creates(ev: Event, q: string) {
    KindOf(ev) == Creation(q)
  }

  /** `Some(true)` for a restore of `q`, `Some(false)` for a failed one. */
  function RestoreOf(ev: Event, q: string): Option<bool> {
    match KindOf(ev)
    case Restoration(id, ok) => if id == q then Some(ok) else None
    case _ => None
  }

  function StopOf(ev: Event): Option<bool> {
    match KindOf(ev)
    case Stop(stopped) => Some(stopped)
    case _ => None
  }

  predicate Reports(ev: Event, k: int) {
    KindOf(ev) == Report(k)
  }

  function ItemAfter(restored: bool): ItemStatus {
    if restored then Restored else Quarantined
  }

  function Resolve(a: Action, ev: Event): Action {
    var status := if ev.status.Some? then ev.status.value else "ok";
    a.(status := if status == "ok" || status == "completed" || status == "success" then Completed else Failed,
       report := Some(ev))
  }

  // ---- A batch is one transaction ----

  /** A request's database session: the rows as it sees them, and the ids of items added but not yet written. */
  datatype Session = Session(now: Server, added: seq<string>)

  function Open(s: Server): Session {
    Session(s, [])
  }

  predicate IsQueued(actions: map<int, Action>, k: int) {
    k in actions && actions[k].status == Queued
  }

  function Handle(s: Session, ev: Event): Session {
    match KindOf(ev)
    case Stop(stopped) => s.(now := s.now.(stopped := stopped))
    case Creation(q) => if q in s.now.items then s else s.(added := s.added + [q])
    case Restoration(q, ok) => if q in s.now.items then s.(now := s.now.(items := s.now.items[q := ItemAfter(ok)])) else s
    case Report(k) =>
      if IsQueued(s.now.actions, k) then s.(now := s.now.(actions := s.now.actions[k := Resolve(s.now.actions[k], ev)])) else s
    case Other => s
  }

  function HandleAll(s: Session, batch: seq<Event>): Session {
    if batch == [] then s else Handle(HandleAll(s, batch[..|batch| - 1]), batch[|batch| - 1])
  }

  predicate Distinct(ids: seq<string>) {
    forall i, j :: 0 <= i < j < |ids| ==> ids[i] != ids[j]
  }

  /** Two new rows with one primary key make the commit fail. */
  predicate Accepted(s: Server, batch: seq<Event>) {
    Distinct(HandleAll(Open(s), batch).added)
  }

  function Written(s: Session): Server {
    s.now.(items := (map q | q in s.added :: Quarantined) + s.now.items)
  }

  /** A failed commit rolls the whole session back. */
  function IngestBatch(s: Server, batch: seq<Event>): Server {
    if Accepted(s, batch) then Written(HandleAll(Open(s), batch)) else s
  }

  method SyncQuarantine(s: Session, ev: Event) returns (s': Session)
    requires ev.source == "quarantine" || ev.source == "file_drop"
    ensures s' == Handle(s, ev)
  {
    s' := s;
    if ev.id == "" {
      return;
    }
    if ev.action == "quarantined" {
      if ev.id !in s.now.items {
        s' := s.(added := s.added + [ev.id]);
      }
    } else if ev.action == "restored" || ev.action == "restore_failed" {
      if ev.id in s.now.items {
        var status := Restored;
        if ev.action != "restored" {
          status := Quarantined;
        }
        s' := s.(now := s.now.(items := s.now.items[ev.id := status]));
      }
    }
  }

  method RecordResult(s: Session, actionId: int, ev: Event) returns (s': Session)
    requires Reports(ev, actionId)
    ensures s' == Handle(s, ev)
  {
    if actionId !in s.now.actions || s.now.actions[actionId].status != Queued {
      return s;
    }
    var status := if ev.status.Some? then ev.status.value else "ok";
    var outcome := if status in ["ok", "completed", "success"] then Completed else Failed;
    var action := s.now.actions[actionId].(status := outcome, report := Some(ev));
    s' := s.(now := s.now.(actions := s.now.actions[actionId := action]));
  }

  /** The ingestion loop, and the one commit behind it. */
  method Telemetry(s: Server, batch: seq<Event>) returns (s': Server, accepted: bool)
    ensures s' == IngestBatch(s, batch) && accepted == Accepted(s, batch)
  {
    var session := Open(s);
    for i := 0 to |batch|
      invariant session == HandleAll(Open(s), batch[..i])
    {
      var ev := batch[i];
      assert batch[..i + 1][..i] == batch[..i];
      if ev.source == "agent" && ev.action == "stopped" {
        session := session.(now := session.now.(stopped := true));
      } else if ev.source == "agent" && ev.action == "started" {
        session := session.(now := session.now.(stopped := false));
      }
      if ev.source == "quarantine" || ev.source == "file_drop" {
        session := SyncQuarantine(session, ev);
      }
      if ev.source == "response" && ev.action == "result" {
        if ev.actionId.Some? && ev.actionId.value != 0 {
          session := RecordResult(session, ev.actionId.value, ev);
        }
      }
    }
    assert batch[..|batch|] == batch;
    accepted := Distinct(session.added);
    s' := if accepted then Written(session) else s;
  }

  // ---- What a batch says about each item, action and flag ----

  function LastStop(batch: seq<Event>): Option<bool> {
    if batch == [] then None
    else
      var last := |batch| - 1;
      if StopOf(batch[last]).Some? then StopOf(batch[last]) else LastStop(batch[..last])
  }

  function LastRestore(batch: seq<Event>, q: string): Option<bool> {
    if batch == [] then None
    else
      var last := |batch| - 1;
      if RestoreOf(batch[last], q).Some? then RestoreOf(batch[last], q) else LastRestore(batch[..last], q)
  }

  function FirstReport(batch: seq<Event>, k: int): Option<Event> {
    if batch == [] then None
    else
      var last := |batch| - 1;
      if FirstReport(batch[..last], k).Some? then FirstReport(batch[..last], k)
      else if Reports(batch[last], k) then Some(batch[last])
      else None
  }

  /** How many events of the batch create item `q`. */
  function Creations(batch: seq<Event>, q: string): nat {
    if batch == [] then 0
    else
      var last := |batch| - 1;
      Creations(batch[..last], q) + if Creates(batch[last], q) then 1 else 0
  }

  function Count(ids: seq<string>, q: string): nat {
    if ids == [] then 0 else Count(ids[..|ids| - 1], q) + if ids[|ids| - 1] == q then 1 else 0
  }

  function StoppedNow(was: bool, batch: seq<Event>): bool {
    if LastStop(batch).Some? then LastStop(batch).value else was
  }

  function ItemNow(was: ItemStatus, batch: seq<Event>, q: string): ItemStatus {
    if LastRestore(batch, q).Some? then ItemAfter(LastRestore(batch, q).value) else was
  }

  function ActionNow(was: Action, batch: seq<Event>, k: int): Action {
    if was.status == Queued && FirstReport(batch, k).Some? then Resolve(was, FirstReport(batch, k).value) else was
  }

  lemma HandleItem(s: Session, ev: Event, q: string)
    ensures Handle(s, ev).now.items.Keys == s.now.items.Keys
    ensures q in s.now.items ==>
      Handle(s, ev).now.items[q] == if RestoreOf(ev, q).Some? then ItemAfter(RestoreOf(ev, q).value) else s.now.items[q]
    ensures Count(Handle(s, ev).added, q) == Count(s.added, q) + if q !in s.now.items && Creates(ev, q) then 1 else 0
  {
    if KindOf(ev).Creation? {
      assert (s.added + [KindOf(ev).id])[..|s.added|] == s.added;
    }
  }

  lemma HandleAction(s: Session, ev: Event, k: int)
    ensures Handle(s, ev).now.actions.Keys == s.now.actions.Keys
    ensures k in s.now.actions ==>
      var a := s.now.actions[k];
      Handle(s, ev).now.actions[k] == if a.status == Queued && Reports(ev, k) then Resolve(a, ev) else a
  {
  }

  // The session after a batch, read off the batch: the last word on every item and on the flag, the first on every action.

  lemma {:induction false} ItemAfterBatch(s: Session, batch: seq<Event>, q: string)
    ensures HandleAll(s, batch).now.items.Keys == s.now.items.Keys
    ensures q in s.now.items ==> HandleAll(s, batch).now.items[q] == ItemNow(s.now.items[q], batch, q)
    ensures Count(HandleAll(s, batch).added, q) == Count(s.added, q) + if q in s.now.items then 0 else Creations(batch, q)
  {
    if batch != [] {
      var last := |batch| - 1;
      ItemAfterBatch(s, batch[..last], q);
      HandleItem(HandleAll(s, batch[..last]), batch[last], q);
    }
  }

  lemma {:induction false} ActionAfterBatch(s: Session, batch: seq<Event>, k: int)
    ensures HandleAll(s, batch).now.actions.Keys == s.now.actions.Keys
    ensures k in s.now.actions ==> HandleAll(s, batch).now.actions[k] == ActionNow(s.now.actions[k], batch, k)
  {
    if batch != [] {
      var last := |batch| - 1;
      ActionAfterBatch(s, batch[..last], k);
      HandleAction(HandleAll(s, batch[..last]), batch[last], k);
    }
  }

  lemma {:induction false} StopAfterBatch(s: Session, batch: seq<Event>)
    ensures HandleAll(s, batch).now.stopped == StoppedNow(s.now.stopped, batch)
  {
    if batch != [] {
      StopAfterBatch(s, batch[..|batch| - 1]);
    }
  }

  lemma {:induction false} CountPositive(ids: seq<string>, q: string)
    ensures Count(ids, q) > 0 <==> q in ids
  {
    if ids != [] {
      assert ids == ids[..|ids| - 1] + [ids[|ids| - 1]];
      CountPositive(ids[..|ids| - 1], q);
    }
  }

  lemma DistinctFront(ids: seq<string>)
    requires Distinct(ids) && ids != []
    ensures Distinct(ids[..|ids| - 1]) && ids[|ids| - 1] !in ids[..|ids| - 1]
  {
  }

  lemma {:induction false} DistinctCounts(ids: seq<string>)
    ensures Distinct(ids) <==> forall q :: Count(ids, q) <= 1
  {
    if ids != [] {
      var front, last := ids[..|ids| - 1], ids[|ids| - 1];
      DistinctCounts(front);
      CountPositive(front, last);
      if Distinct(ids) {
        DistinctFront(ids);
        forall q
          ensures Count(ids, q) <= 1
        {
          assert Count(front, q) <= 1;
        }
      } else if Distinct(front) {
        assert last in front;
        assert Count(ids, last) == 2;
      } else {
        var q :| Count(front, q) > 1;
        assert Count(ids, q) > 1;
      }
    }
  }

  /** A batch is accepted exactly when it creates no item that is not on record twice; else it changes nothing. */
  lemma AcceptedExactly(s: Server, batch: seq<Event>)
    ensures Accepted(s, batch) <==> forall q :: q !in s.items ==> Creations(batch, q) <= 1
    ensures !Accepted(s, batch) ==> IngestBatch(s, batch) == s
  {
    var added := HandleAll(Open(s), batch).added;
    DistinctCounts(added);
    if Accepted(s, batch) {
      forall q | q !in s.items
        ensures Creations(batch, q) <= 1
      {
        ItemAfterBatch(Open(s), batch, q);
        assert Count(added, q) <= 1;
      }
    } else {
      var q :| Count(added, q) > 1;
      ItemAfterBatch(Open(s), batch, q);
    }
  }

  /** The server after an accepted batch. A new item is quarantined, whatever else the batch says about it. */
  lemma IngestReads(s: Server, batch: seq<Event>, q: string, k: int)
    requires Accepted(s, batch)
    ensures var t := IngestBatch(s, batch);
      && t.stopped == StoppedNow(s.stopped, batch)
      && t.actions.Keys == s.actions.Keys
      && (k in s.actions ==> t.actions[k] == ActionNow(s.actions[k], batch, k))
      && (q in t.items <==> q in s.items || Creations(batch, q) > 0)
      && (q in s.items ==> t.items[q] == ItemNow(s.items[q], batch, q))
      && (q !in s.items && q in t.items ==> t.items[q] == Quarantined)
  {
    ItemAfterBatch(Open(s), batch, q);
    ActionAfterBatch(Open(s), batch, k);
    StopAfterBatch(Open(s), batch);
    CountPositive(HandleAll(Open(s), batch).added, q);
  }
}
