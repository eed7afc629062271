/** What an accepted batch does to each item, action and flag, read off the fields of its events
    (server/app/routers/agents.py:17-44, 85-121, server/app/services/response.py:106-113). */
module IngestFields {
  import opened Text
  import opened Ingest

  /** A result of action `k`. An `action_id` that is zero is taken for none. */
  predicate IsResult(ev: Event, k: int) {
    ev.source == "response" && ev.action == "result" && ev.actionId == Some(k) && k != 0
  }

  /** A word on item `q`. */
  predicate IsQuarantine(ev: Event, action: string, q: string) {
    ev.source in {"quarantine", "file_drop"} && ev.action == action && ev.id == q && q != ""
  }

  predicate IsRestore(ev: Event, q: string) {
    IsQuarantine(ev, "restored", q) || IsQuarantine(ev, "restore_failed", q)
  }

  predicate IsStartOrStop(ev: Event) {
    ev.source == "agent" && ev.action in {"stopped", "started"}
  }

  // ---- Actions: the first result counts ----

  lemma {:induction false} FirstReportAt(batch: seq<Event>, k: int, i: nat)
    requires i < |batch| && IsResult(batch[i], k) && forall j :: 0 <= j < i ==> !IsResult(batch[j], k)
    ensures FirstReport(batch, k) == Some(batch[i])
  {
    var last := |batch| - 1;
    if i < last {
      FirstReportAt(batch[..last], k, i);
    } else {
      NoReport(batch[..last], k);
    }
  }

  lemma {:induction false} NoReport(batch: seq<Event>, k: int)
    requires forall j :: 0 <= j < |batch| ==> !IsResult(batch[j], k)
    ensures FirstReport(batch, k) == None
  {
    if batch != [] {
      NoReport(batch[..|batch| - 1], k);
    }
  }

  /** A queued action is decided by its first result: completed exactly when that says ok, completed or success, or nothing
      about a status, and failed otherwise. The event becomes its result. */
  lemma FirstResultDecides(s: Server, batch: seq<Event>, k: int, i: nat)
    requires Accepted(s, batch) && k in s.actions && s.actions[k].status == Queued
    requires i < |batch| && IsResult(batch[i], k) && forall j :: 0 <= j < i ==> !IsResult(batch[j], k)
    ensures k in IngestBatch(s, batch).actions
    ensures var a := IngestBatch(s, batch).actions[k];
      && a.status != Queued && a.kind == s.actions[k].kind && a.report == Some(batch[i])
      && (a.status == Completed <==> batch[i].status in {None, Some("ok"), Some("completed"), Some("success")})
  {
    FirstReportAt(batch, k, i);
    IngestReads(s, batch, "", k);
  }

  /** Every other action stays as it is: one that is not queued, and one without a result in the batch. */
  lemma OtherActionsStay(s: Server, batch: seq<Event>, k: int)
    requires Accepted(s, batch) && k in s.actions
    requires s.actions[k].status != Queued || forall j :: 0 <= j < |batch| ==> !IsResult(batch[j], k)
    ensures IngestBatch(s, batch).actions.Keys == s.actions.Keys
    ensures IngestBatch(s, batch).actions[k] == s.actions[k]
  {
    if s.actions[k].status == Queued {
      NoReport(batch, k);
    }
    IngestReads(s, batch, "", k);
  }

  // ---- Items: the last word counts, and a new item is quarantined ----

  lemma {:induction false} LastRestoreAt(batch: seq<Event>, q: string, i: nat)
    requires i < |batch| && IsRestore(batch[i], q) && forall j :: i < j < |batch| ==> !IsRestore(batch[j], q)
    ensures LastRestore(batch, q) == Some(batch[i].action == "restored")
  {
    var last := |batch| - 1;
    if i < last {
      assert !IsRestore(batch[last], q);
      LastRestoreAt(batch[..last], q, i);
    }
  }

  lemma {:induction false} NoRestore(batch: seq<Event>, q: string)
    requires forall j :: 0 <= j < |batch| ==> !IsRestore(batch[j], q)
    ensures LastRestore(batch, q) == None
  {
    if batch != [] {
      NoRestore(batch[..|batch| - 1], q);
    }
  }

  /** A known item ends up restored exactly when the last word on it is that it was; it is quarantined if that word is that
      restoring failed, and stays as it is without such a word. */
  lemma LastRestoreDecides(s: Server, batch: seq<Event>, q: string, i: nat)
    requires Accepted(s, batch) && q in s.items
    requires i < |batch| && IsRestore(batch[i], q) && forall j :: i < j < |batch| ==> !IsRestore(batch[j], q)
    ensures q in IngestBatch(s, batch).items
    ensures IngestBatch(s, batch).items[q] == if IsQuarantine(batch[i], "restored", q) then Restored else Quarantined
  {
    LastRestoreAt(batch, q, i);
    IngestReads(s, batch, q, 0);
  }

  lemma UnrestoredStays(s: Server, batch: seq<Event>, q: string)
    requires Accepted(s, batch) && q in s.items && forall j :: 0 <= j < |batch| ==> !IsRestore(batch[j], q)
    ensures q in IngestBatch(s, batch).items && IngestBatch(s, batch).items[q] == s.items[q]
  {
    NoRestore(batch, q);
    IngestReads(s, batch, q, 0);
  }

  lemma {:induction false} CreatedSome(batch: seq<Event>, q: string)
    ensures Creations(batch, q) > 0 <==> exists i :: 0 <= i < |batch| && IsQuarantine(batch[i], "quarantined", q)
  {
    if batch != [] {
      var last := |batch| - 1;
      CreatedSome(batch[..last], q);
      if i :| 0 <= i < last && IsQuarantine(batch[..last][i], "quarantined", q) {
        assert batch[i] == batch[..last][i];
      }
    }
  }

  lemma {:induction false} CreatedTwice(batch: seq<Event>, q: string)
    ensures Creations(batch, q) > 1
      <==> exists i, j :: 0 <= i < j < |batch| && IsQuarantine(batch[i], "quarantined", q) && IsQuarantine(batch[j], "quarantined", q)
  {
    if batch != [] {
      var last := |batch| - 1;
      CreatedTwice(batch[..last], q);
      CreatedSome(batch[..last], q);
      if i, j :| 0 <= i < j < last && IsQuarantine(batch[..last][i], "quarantined", q) && IsQuarantine(batch[..last][j], "quarantined", q) {
        assert batch[i] == batch[..last][i] && batch[j] == batch[..last][j];
      }
      if i :| 0 <= i < last && IsQuarantine(batch[..last][i], "quarantined", q) {
        assert batch[i] == batch[..last][i];
      }
    }
  }

  /** Two events quarantine one item that is not on record. */
  ghost predicate DuplicateRows(s: Server, batch: seq<Event>) {
    exists q, i, j :: q !in s.items && 0 <= i < j < |batch|
      && IsQuarantine(batch[i], "quarantined", q) && IsQuarantine(batch[j], "quarantined", q)
  }

  /** That alone makes a batch fail, and then it changes nothing. */
  lemma RejectedExactly(s: Server, batch: seq<Event>)
    ensures !Accepted(s, batch) <==> DuplicateRows(s, batch)
    ensures DuplicateRows(s, batch) ==> IngestBatch(s, batch) == s
  {
    AcceptedExactly(s, batch);
    if DuplicateRows(s, batch) {
      var q, i, j :| q !in s.items && 0 <= i < j < |batch|
        && IsQuarantine(batch[i], "quarantined", q) && IsQuarantine(batch[j], "quarantined", q);
      CreatedTwice(batch, q);
    } else if !Accepted(s, batch) {
      var q :| q !in s.items && Creations(batch, q) > 1;
      CreatedTwice(batch, q);
    }
  }

  /** An accepted batch puts exactly the items it quarantines on record; a new one is quarantined, whatever else it says. */
  lemma NewItems(s: Server, batch: seq<Event>, q: string)
    requires Accepted(s, batch) && q !in s.items
    ensures q in IngestBatch(s, batch).items <==> exists i :: 0 <= i < |batch| && IsQuarantine(batch[i], "quarantined", q)
    ensures q in IngestBatch(s, batch).items ==> IngestBatch(s, batch).items[q] == Quarantined
  {
    CreatedSome(batch, q);
    IngestReads(s, batch, q, 0);
  }

  // ---- The flag: the last word counts ----

  lemma {:induction false} LastStopAt(batch: seq<Event>, i: nat)
    requires i < |batch| && IsStartOrStop(batch[i]) && forall j :: i < j < |batch| ==> !IsStartOrStop(batch[j])
    ensures LastStop(batch) == Some(batch[i].action == "stopped")
  {
    var last := |batch| - 1;
    if i < last {
      assert !IsStartOrStop(batch[last]);
      LastStopAt(batch[..last], i);
    }
  }

  lemma {:induction false} NoStop(batch: seq<Event>)
    requires forall j :: 0 <= j < |batch| ==> !IsStartOrStop(batch[j])
    ensures LastStop(batch) == None
  {
    if batch != [] {
      NoStop(batch[..|batch| - 1]);
    }
  }

  /** The device counts as stopped exactly when the last of these events says so, and stays as it is without one. */
  lemma LastStopDecides(s: Server, batch: seq<Event>, i: nat)
    requires Accepted(s, batch)
    requires i < |batch| && IsStartOrStop(batch[i]) && forall j :: i < j < |batch| ==> !IsStartOrStop(batch[j])
    ensures IngestBatch(s, batch).stopped <==> batch[i].action == "stopped"
  {
    LastStopAt(batch, i);
    IngestReads(s, batch, "", 0);
  }

  lemma FlagStays(s: Server, batch: seq<Event>)
    requires Accepted(s, batch) && forall j :: 0 <= j < |batch| ==> !IsStartOrStop(batch[j])
    ensures IngestBatch(s, batch).stopped == s.stopped
  {
    NoStop(batch);
    IngestReads(s, batch, "", 0);
  }
}
