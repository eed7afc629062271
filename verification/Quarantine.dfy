/** Moving files into quarantine and back (agent/silentguard_agent/quarantine.py:58-139). */
module Quarantine {
  import opened Text

  type Path = string
  type Id = string
  type Content = string

  datatype Status = InQuarantine | Restored

  datatype Entry = Entry(id: Id, path: Path, digest: string, status: Status)

  /** The user's files, the quarantine directory (by id), and the manifest. */
  datatype Disk = Disk(files: map<Path, Content>, vault: map<Id, Content>, manifest: seq<Entry>)

  /** How far the file operations get: `chmod` on the moved file is part of the same attempt. */
  datatype Effort = NotMoved | MovedOnly | Complete

  class QuarantineManager {
    const dryRun: bool
    var disk: Disk

    constructor (dryRun: bool, disk: Disk)
      ensures this.dryRun == dryRun && this.disk == disk
    {
      this.dryRun, this.disk := dryRun, disk;
    }

    method Quarantine(path: Path, id: Id, digest: string, effort: Effort) returns (entry: Option<Entry>)
      modifies this
      ensures disk == Put(dryRun, old(disk), path, id, digest, effort)
      ensures entry == if dryRun || (path in old(disk).files && effort == Complete) then Some(Entry(id, path, digest, InQuarantine)) else None
    {
      var e := Entry(id, path, digest, InQuarantine);
      if dryRun {
        disk := disk.(manifest := disk.manifest + [e]);
        return Some(e);
      }
      if path !in disk.files || effort == NotMoved {
        return None;
      }
      disk := disk.(vault := disk.vault[id := disk.files[path]], files := disk.files - {path});
      if effort == MovedOnly {
        return None;
      }
      disk := disk.(manifest := disk.manifest + [e]);
      return Some(e);
    }

    /** `moved` says whether the file operations succeed when the stored file is there. */
    method Restore(id: Id, moved: bool) returns (entry: Option<Entry>)
      modifies this
      ensures disk == Take(dryRun, old(disk), id, moved)
      ensures entry.Some? <==> Restorable(dryRun, old(disk), id, moved)
      ensures entry.Some? ==> entry.value == old(disk).manifest[FirstHeld(old(disk).manifest, id)].(status := Restored)
    {
      var i := 0;
      while i < |disk.manifest|
        invariant 0 <= i <= |disk.manifest| && disk == old(disk)
        invariant forall j :: 0 <= j < i ==> !Held(disk.manifest[j], id)
      {
        var e := disk.manifest[i];
        if Held(e, id) {
          HeldFirst(disk.manifest, id, i);
          if !dryRun {
            if id !in disk.vault || !moved {
              return None;
            }
            disk := disk.(files := disk.files[e.path := disk.vault[id]], vault := disk.vault - {id});
          }
          disk := disk.(manifest := disk.manifest[i := e.(status := Restored)]);
          return Some(e.(status := Restored));
        }
        i := i + 1;
      }
      return None;
    }
  }

  predicate Held(e: Entry, id: Id) {
    e.id == id && e.status == InQuarantine
  }

  /** The first entry of the id that is still in quarantine. */
  function FirstHeld(manifest: seq<Entry>, id: Id): (i: nat)
    ensures i <= |manifest|
    ensures i < |manifest| ==> Held(manifest[i], id)
  {
    if manifest == [] || Held(manifest[0], id) then 0 else 1 + FirstHeld(manifest[1..], id)
  }

  lemma {:induction false} HeldFirst(manifest: seq<Entry>, id: Id, i: nat)
    requires i < |manifest| && Held(manifest[i], id) && forall j :: 0 <= j < i ==> !Held(manifest[j], id)
    ensures FirstHeld(manifest, id) == i
  {
    if i > 0 {
      HeldFirst(manifest[1..], id, i - 1);
    }
  }

  function Put(dryRun: bool, d: Disk, path: Path, id: Id, digest: string, effort: Effort): Disk {
    var listed := d.manifest + [Entry(id, path, digest, InQuarantine)];
    if dryRun then d.(manifest := listed)
    else if path !in d.files || effort == NotMoved then d
    else Disk(d.files - {path}, d.vault[id := d.files[path]], if effort == Complete then listed else d.manifest)
  }

  predicate Restorable(dryRun: bool, d: Disk, id: Id, moved: bool) {
    FirstHeld(d.manifest, id) < |d.manifest| && (dryRun || (id in d.vault && moved))
  }

  function Take(dryRun: bool, d: Disk, id: Id, moved: bool): Disk {
    if !Restorable(dryRun, d, id, moved) then d
    else
      var i := FirstHeld(d.manifest, id);
      var e := d.manifest[i];
      var done := d.manifest[i := e.(status := Restored)];
      if dryRun then d.(manifest := done)
      else Disk(d.files[e.path := d.vault[id]], d.vault - {id}, done)
  }

  // ---- Conservation: no content is made or lost ----

  ghost function Holding<K>(m: map<K, Content>, c: Content): set<K> {
    set k | k in m && m[k] == c
  }

  /** How many files, in place or in quarantine, have the content. */
  ghost function Copies(d: Disk, c: Content): nat {
    |Holding(d.files, c)| + |Holding(d.vault, c)|
  }

  lemma AddOne<K>(m: map<K, Content>, k: K, v: Content, c: Content)
    requires k !in m
    ensures |Holding(m[k := v], c)| == |Holding(m, c)| + if c == v then 1 else 0
  {
    assert Holding(m[k := v], c) == Holding(m, c) + if c == v then {k} else {};
  }

  lemma RemoveOne<K>(m: map<K, Content>, k: K, c: Content)
    requires k in m
    ensures |Holding(m, c)| == |Holding(m - {k}, c)| + if c == m[k] then 1 else 0
  {
    AddOne(m - {k}, k, m[k], c);
    assert (m - {k})[k := m[k]] == m;
  }

  /** Quarantining keeps the number of copies of every content, however far it gets. */
  lemma QuarantineConserves(dryRun: bool, d: Disk, path: Path, id: Id, digest: string, effort: Effort, c: Content)
    requires id !in d.vault
    ensures Copies(Put(dryRun, d, path, id, digest, effort), c) == Copies(d, c)
  {
    if !dryRun && path in d.files && effort != NotMoved {
      RemoveOne(d.files, path, c);
      AddOne(d.vault, id, d.files[path], c);
    }
  }

  lemma RestoreCopies(d: Disk, id: Id, c: Content)
    requires Restorable(false, d, id, true)
    ensures var path := d.manifest[FirstHeld(d.manifest, id)].path;
      Copies(d, c) == Copies(Take(false, d, id, true), c) + if path in d.files && d.files[path] == c then 1 else 0
  {
    var path := d.manifest[FirstHeld(d.manifest, id)].path;
    RemoveOne(d.vault, id, c);
    if path !in d.files {
      AddOne(d.files, path, d.vault[id], c);
    } else {
      RemoveOne(d.files, path, c);
      AddOne(d.files - {path}, path, d.vault[id], c);
      assert (d.files - {path})[path := d.vault[id]] == d.files[path := d.vault[id]];
    }
  }

  /** Restoring keeps them exactly when no file stands at the original path; else that file's copy is lost. */
  lemma RestoreConservesExactly(d: Disk, id: Id)
    requires Restorable(false, d, id, true)
    ensures (forall c :: Copies(Take(false, d, id, true), c) == Copies(d, c))
      <==> d.manifest[FirstHeld(d.manifest, id)].path !in d.files
  {
    var path := d.manifest[FirstHeld(d.manifest, id)].path;
    forall c
      ensures Copies(d, c) == Copies(Take(false, d, id, true), c) + if path in d.files && d.files[path] == c then 1 else 0
    {
      RestoreCopies(d, id, c);
    }
    if path in d.files {
      assert Copies(Take(false, d, id, true), d.files[path]) != Copies(d, d.files[path]);
    }
  }

  /** Restoring right after quarantining puts every file back where it was. */
  lemma RoundTrip(d: Disk, path: Path, id: Id, digest: string)
    requires path in d.files && id !in d.vault && forall e <- d.manifest :: e.id != id
    ensures var q := Put(false, d, path, id, digest, Complete); var r := Take(false, q, id, true);
      && r.files == d.files && r.vault == d.vault
      && r.manifest == d.manifest + [Entry(id, path, digest, Restored)]
  {
    var q := Put(false, d, path, id, digest, Complete);
    HeldFirst(q.manifest, id, |d.manifest|);
    assert q.manifest[|d.manifest|] == Entry(id, path, digest, InQuarantine);
    assert q.vault - {id} == d.vault;
  }

  /** Restoring takes the first entry of the id that is in quarantine: its file goes back to the path listed, in a dry run only
      the entry changes. It fails exactly when there is no such entry, or the file operations fail. */
  lemma RestoreExactly(dryRun: bool, d: Disk, id: Id, moved: bool, i: nat)
    requires i <= |d.manifest| && forall j :: 0 <= j < i ==> d.manifest[j].id != id || d.manifest[j].status == Restored
    requires i < |d.manifest| ==> d.manifest[i].id == id && d.manifest[i].status == InQuarantine
    ensures Restorable(dryRun, d, id, moved) <==> i < |d.manifest| && (dryRun || (id in d.vault && moved))
    ensures !Restorable(dryRun, d, id, moved) ==> Take(dryRun, d, id, moved) == d
    ensures Restorable(dryRun, d, id, moved) ==>
      var marked := d.manifest[i := d.manifest[i].(status := Restored)];
      Take(dryRun, d, id, moved) == if dryRun then Disk(d.files, d.vault, marked)
        else Disk(d.files[d.manifest[i].path := d.vault[id]], d.vault - {id}, marked)
  {
    if i < |d.manifest| {
      HeldFirst(d.manifest, id, i);
    }
  }

  /** A dry run of quarantining lists an entry, and moves nothing. */
  lemma DryRunOnlyLists(d: Disk, path: Path, id: Id, digest: string, effort: Effort)
    ensures Put(true, d, path, id, digest, effort) == Disk(d.files, d.vault, d.manifest + [Entry(id, path, digest, InQuarantine)])
  {
  }

  // ---- Runs without dry-run ----

  /** `given` is a digest the caller hands in; else it is taken from the file. */
  datatype Step =
    | DoQuarantine(path: Path, id: Id, given: Option<string>, effort: Effort)
    | DoRestore(id: Id, moved: bool)
    | UserWrites(path: Path, content: Content)
    | UserDeletes(path: Path)

  /** What was moved into quarantine under each id, from where, and the digest handed in. */
  datatype Taken = Taken(path: Path, content: Content, given: Option<string>)

  datatype Past = Past(disk: Disk, taken: map<Id, Taken>)

  function Digest(hash: Content -> string, t: Taken): string {
    if t.given.Some? && t.given.value != "" then t.given.value else hash(t.content)
  }

  /** Ids are fresh. */
  function Next(hash: Content -> string, p: Past, s: Step): Past {
    match s
    case DoQuarantine(path, id, given, effort) =>
      if id in p.taken || path !in p.disk.files || effort == NotMoved then p
      else
        var t := Taken(path, p.disk.files[path], given);
        Past(Put(false, p.disk, path, id, Digest(hash, t), effort), p.taken[id := t])
    case DoRestore(id, moved) => p.(disk := Take(false, p.disk, id, moved))
    case UserWrites(path, content) => p.(disk := p.disk.(files := p.disk.files[path := content]))
    case UserDeletes(path) => p.(disk := p.disk.(files := p.disk.files - {path}))
  }

  function Run(hash: Content -> string, p: Past, steps: seq<Step>): Past {
    if steps == [] then p else Next(hash, Run(hash, p, steps[..|steps| - 1]), steps[|steps| - 1])
  }

  function Start(files: map<Path, Content>): Past {
    Past(Disk(files, map[], []), map[])
  }

  predicate DistinctIds(manifest: seq<Entry>) {
    forall i, j :: 0 <= i < j < |manifest| ==> manifest[i].id != manifest[j].id
  }

  /** An entry still in quarantine has its file in the vault, unchanged; a restored one has none. */
  predicate EntryOk(hash: Content -> string, p: Past, e: Entry) {
    && e.id in p.taken && e.path == p.taken[e.id].path && e.digest == Digest(hash, p.taken[e.id])
    && (if e.status == InQuarantine then e.id in p.disk.vault && p.disk.vault[e.id] == p.taken[e.id].content
        else e.id !in p.disk.vault)
  }

  ghost predicate Inv(hash: Content -> string, p: Past) {
    && DistinctIds(p.disk.manifest)
    && forall i :: 0 <= i < |p.disk.manifest| ==> EntryOk(hash, p, p.disk.manifest[i])
  }

  lemma TakeKeeps(hash: Content -> string, p: Past, id: Id, moved: bool)
    requires Inv(hash, p)
    ensures Inv(hash, Next(hash, p, DoRestore(id, moved)))
  {
  }

  lemma PutKeeps(hash: Content -> string, p: Past, path: Path, id: Id, given: Option<string>, effort: Effort)
    requires Inv(hash, p)
    ensures Inv(hash, Next(hash, p, DoQuarantine(path, id, given, effort)))
  {
    var q := Next(hash, p, DoQuarantine(path, id, given, effort));
    if q != p {
      forall i | 0 <= i < |q.disk.manifest|
        ensures EntryOk(hash, q, q.disk.manifest[i])
      {
        assert i < |p.disk.manifest| ==> EntryOk(hash, p, p.disk.manifest[i]);
      }
    }
  }

  lemma UserKeeps(hash: Content -> string, p: Past, s: Step)
    requires Inv(hash, p) && (s.UserWrites? || s.UserDeletes?)
    ensures Inv(hash, Next(hash, p, s))
  {
    forall i | 0 <= i < |p.disk.manifest|
      ensures EntryOk(hash, Next(hash, p, s), p.disk.manifest[i])
    {
      assert EntryOk(hash, p, p.disk.manifest[i]);
    }
  }

  lemma NextKeeps(hash: Content -> string, p: Past, s: Step)
    requires Inv(hash, p)
    ensures Inv(hash, Next(hash, p, s))
  {
    match s {
      case DoQuarantine(path, id, given, effort) => PutKeeps(hash, p, path, id, given, effort);
      case DoRestore(id, moved) => TakeKeeps(hash, p, id, moved);
      case _ => UserKeeps(hash, p, s);
    }
  }

  lemma {:induction false} RunKeeps(hash: Content -> string, p: Past, steps: seq<Step>)
    requires Inv(hash, p)
    ensures Inv(hash, Run(hash, p, steps))
  {
    if steps != [] {
      RunKeeps(hash, p, steps[..|steps| - 1]);
      NextKeeps(hash, Run(hash, p, steps[..|steps| - 1]), steps[|steps| - 1]);
    }
  }

  /** Step `k` moved the file at the path, with this content, into quarantine. */
  predicate MovedAt(hash: Content -> string, files: map<Path, Content>, steps: seq<Step>, k: nat, id: Id, t: Taken) {
    && k < |steps| && steps[k].DoQuarantine? && steps[k].effort != NotMoved
    && steps[k].path == t.path && steps[k].id == id && steps[k].given == t.given
    && var before := Run(hash, Start(files), steps[..k]).disk.files; t.path in before && before[t.path] == t.content
  }

  lemma {:induction false} TakenWasMoved(hash: Content -> string, files: map<Path, Content>, steps: seq<Step>, id: Id)
    returns (k: nat)
    requires id in Run(hash, Start(files), steps).taken
    ensures MovedAt(hash, files, steps, k, id, Run(hash, Start(files), steps).taken[id])
  {
    var last := |steps| - 1;
    if id in Run(hash, Start(files), steps[..last]).taken {
      k := TakenWasMoved(hash, files, steps[..last], id);
      assert steps[..last][..k] == steps[..k];
    } else {
      k := last;
    }
  }

  /** In every run a listed file that is still in quarantine was moved there by some step, and can be restored to where that step
      found it, once, with the content it had then. The digest listed is the one handed in, or else that of the content. */
  lemma QuarantinedIsRestorable(hash: Content -> string, files: map<Path, Content>, steps: seq<Step>, i: nat) returns (k: nat)
    requires i < |Run(hash, Start(files), steps).disk.manifest|
    requires Run(hash, Start(files), steps).disk.manifest[i].status == InQuarantine
    ensures var p := Run(hash, Start(files), steps); var e := p.disk.manifest[i]; var d := Take(false, p.disk, e.id, true);
      && Restorable(false, p.disk, e.id, true) && !Restorable(false, d, e.id, true) && e.path in d.files
      && k < |steps| && steps[k].DoQuarantine? && MovedAt(hash, files, steps, k, e.id, Taken(e.path, d.files[e.path], steps[k].given))
      && e.digest == if steps[k].given in {None, Some("")} then hash(d.files[e.path]) else steps[k].given.value
  {
    var p := Run(hash, Start(files), steps);
    RunKeeps(hash, Start(files), steps);
    RestoresListed(hash, p, i);
    assert EntryOk(hash, p, p.disk.manifest[i]);
    k := TakenWasMoved(hash, files, steps, p.disk.manifest[i].id);
  }

  lemma RestoresListed(hash: Content -> string, p: Past, i: nat)
    requires Inv(hash, p) && i < |p.disk.manifest| && p.disk.manifest[i].status == InQuarantine
    ensures var e := p.disk.manifest[i]; var d := Take(false, p.disk, e.id, true);
      && Restorable(false, p.disk, e.id, true)
      && e.path in d.files && d.files[e.path] == p.taken[e.id].content && !Restorable(false, d, e.id, true)
  {
    var e := p.disk.manifest[i];
    assert EntryOk(hash, p, e);
    HeldFirst(p.disk.manifest, e.id, i);
  }

  // ---- A file that was moved, and an attempt that then failed ----

  /** The file lies in the vault, and no entry tells so. */
  predicate Orphan(p: Past, id: Id, content: Content) {
    && id in p.taken && id in p.disk.vault && p.disk.vault[id] == content
    && forall e <- p.disk.manifest :: e.id != id
  }

  predicate Listed(p: Past, id: Id, content: Content) {
    && id in p.taken && id in p.disk.vault && p.disk.vault[id] == content
    && exists i :: 0 <= i < |p.disk.manifest| && Held(p.disk.manifest[i], id)
  }

  /** No run ever restores it, and it lies there for good. */
  lemma {:induction false} OrphanForever(hash: Content -> string, p: Past, steps: seq<Step>, id: Id, content: Content)
    requires Orphan(p, id, content)
    ensures var q := Run(hash, p, steps); Orphan(q, id, content) && !Restorable(false, q.disk, id, true)
  {
    if steps != [] {
      OrphanForever(hash, p, steps[..|steps| - 1], id, content);
    }
  }

  lemma ListedStays(hash: Content -> string, p: Past, s: Step, id: Id, content: Content)
    requires Listed(p, id, content) && s != DoRestore(id, true)
    ensures Listed(Next(hash, p, s), id, content)
  {
    var i :| 0 <= i < |p.disk.manifest| && Held(p.disk.manifest[i], id);
    assert Held(Next(hash, p, s).disk.manifest[i], id);
  }

  /** No step restores the id with file operations that succeed. */
  predicate NeverRestored(steps: seq<Step>, id: Id) {
    forall i :: 0 <= i < |steps| ==> steps[i] != DoRestore(id, true)
  }

  lemma {:induction false} ListedRestorable(hash: Content -> string, p: Past, steps: seq<Step>, id: Id, content: Content)
    requires Listed(p, id, content) && NeverRestored(steps, id)
    ensures var q := Run(hash, p, steps); Listed(q, id, content) && Restorable(false, q.disk, id, true)
  {
    if steps != [] {
      ListedRestorable(hash, p, steps[..|steps| - 1], id, content);
      ListedStays(hash, Run(hash, p, steps[..|steps| - 1]), steps[|steps| - 1], id, content);
    }
    var q := Run(hash, p, steps);
    var i :| 0 <= i < |q.disk.manifest| && Held(q.disk.manifest[i], id);
    HeldAtMost(q.disk.manifest, id, i);
  }

  lemma {:induction false} HeldAtMost(manifest: seq<Entry>, id: Id, i: nat)
    requires i < |manifest| && Held(manifest[i], id)
    ensures FirstHeld(manifest, id) <= i
  {
    if i > 0 && !Held(manifest[0], id) {
      HeldAtMost(manifest[1..], id, i - 1);
    }
  }

  /** In every run a file that was moved lies in the vault, unchanged, until it is restored - and can be restored if and only if
      the attempt went through. An attempt that fails behind the move leaves it out of reach. */
  lemma MovedRestorableExactly(hash: Content -> string, files: map<Path, Content>, steps: seq<Step>, path: Path, id: Id,
                               given: Option<string>, effort: Effort, more: seq<Step>)
    requires var p := Run(hash, Start(files), steps); id !in p.taken && path in p.disk.files
    requires effort != NotMoved && NeverRestored(more, id)
    ensures var p := Run(hash, Start(files), steps); var q := Run(hash, Next(hash, p, DoQuarantine(path, id, given, effort)), more);
      && id in q.disk.vault && q.disk.vault[id] == p.disk.files[path]
      && (Restorable(false, q.disk, id, true) <==> effort == Complete)
  {
    var p := Run(hash, Start(files), steps);
    var moved := Next(hash, p, DoQuarantine(path, id, given, effort));
    RunKeeps(hash, Start(files), steps);
    if effort == Complete {
      assert Held(moved.disk.manifest[|p.disk.manifest|], id);
      ListedRestorable(hash, moved, more, id, p.disk.files[path]);
    } else {
      forall e | e in moved.disk.manifest
        ensures e.id != id
      {
        assert EntryOk(hash, p, e);
      }
      OrphanForever(hash, moved, more, id, p.disk.files[path]);
    }
  }

  /** Quarantine a file, let the user save another one in its place, and restore: the user's file is gone. */
  lemma RestoreOverwrites(hash: Content -> string, path: Path, id: Id, before: Content, written: Content)
    requires before != written
    ensures var p := Start(map[path := before]);
      var steps := [DoQuarantine(path, id, None, Complete), UserWrites(path, written), DoRestore(id, true)];
      && Copies(Run(hash, p, steps[..2]).disk, written) == 1 && Copies(Run(hash, p, steps).disk, written) == 0
      && Run(hash, p, steps).disk.files == map[path := before]
  {
    var p := Start(map[path := before]);
    var steps := [DoQuarantine(path, id, None, Complete), UserWrites(path, written), DoRestore(id, true)];
    assert steps[..2][..1] == steps[..1] && steps[..1][..0] == [];
    var e := Entry(id, path, hash(before), InQuarantine);
    assert Run(hash, p, steps[..1]) == Next(hash, p, steps[0]);
    assert Run(hash, p, steps[..1]).disk == Disk(map[], map[id := before], [e]);
    var saved := Disk(map[path := written], map[id := before], [e]);
    assert Run(hash, p, steps[..2]).disk == saved;
    assert Holding(saved.files, written) == {path} && Holding(saved.vault, written) == {};
    HeldFirst([e], id, 0);
    var after := Run(hash, p, steps).disk;
    assert after.files == map[path := before] && after.vault == map[];
    assert Holding(after.files, written) == {} && Holding(after.vault, written) == {};
  }
}
