/** Building the process forest of a device (server/app/services/analytics.py:136-155). */
module ProcessTree {
  import opened Text

  /** What the function reads of an event row. */
  datatype Row = Row(pid: Option<int>, ppid: Option<int>, name: string)

  datatype Node = Node(ppid: Option<int>, name: string)

  /** The nodes, and their pids in insertion order, as in a dictionary. */
  datatype Table = Table(order: seq<int>, nodes: map<int, Node>)

  function AddRow(t: Table, r: Row): Table {
    if r.pid.None? then t
    else
      var pid := r.pid.value;
      if pid !in t.nodes then Table(t.order + [pid], t.nodes[pid := Node(r.ppid, r.name)])
      else if r.ppid.Some? && t.nodes[pid].ppid.None? then t.(nodes := t.nodes[pid := t.nodes[pid].(ppid := r.ppid)])
      else t
  }

  function Collect(rows: seq<Row>): Table {
    if rows == [] then Table([], map[]) else AddRow(Collect(rows[..|rows| - 1]), rows[|rows| - 1])
  }

  predicate Distinct(s: seq<int>) {
    forall i, j :: 0 <= i < j < |s| ==> s[i] != s[j]
  }

  ghost predicate TableOk(t: Table) {
    Distinct(t.order) && forall p :: p in t.order <==> p in t.nodes
  }

  /** The parent a node is hung under: a recorded one other than itself. */
  function Parent(t: Table, pid: int): Option<int> {
    if pid in t.nodes && t.nodes[pid].ppid.Some? && t.nodes[pid].ppid.value in t.nodes && t.nodes[pid].ppid.value != pid
    then t.nodes[pid].ppid else None
  }

  function RootsOf(t: Table, order: seq<int>): seq<int> {
    if order == [] then []
    else
      var last := |order| - 1;
      RootsOf(t, order[..last]) + if Parent(t, order[last]).None? then [order[last]] else []
  }

  function ChildrenOf(t: Table, order: seq<int>, p: int): seq<int> {
    if order == [] then []
    else
      var last := |order| - 1;
      ChildrenOf(t, order[..last], p) + if Parent(t, order[last]) == Some(p) then [order[last]] else []
  }

  lemma LinkStep(t: Table, i: nat)
    requires i < |t.order|
    ensures var pid := t.order[i];
      && RootsOf(t, t.order[..i + 1]) == RootsOf(t, t.order[..i]) + (if Parent(t, pid).None? then [pid] else [])
      && forall p :: ChildrenOf(t, t.order[..i + 1], p)
                  == ChildrenOf(t, t.order[..i], p) + if Parent(t, pid) == Some(p) then [pid] else []
  {
    assert t.order[..i + 1][..i] == t.order[..i];
  }

  /** The second loop: linking each node to its parent, or to the roots. */
  method Link(t: Table) returns (roots: seq<int>, children: map<int, seq<int>>)
    requires TableOk(t)
    ensures roots == RootsOf(t, t.order)
    ensures children.Keys == t.nodes.Keys && forall p :: p in children ==> children[p] == ChildrenOf(t, t.order, p)
  {
    roots, children := [], map p | p in t.nodes :: [];
    for i := 0 to |t.order|
      invariant roots == RootsOf(t, t.order[..i])
      invariant children.Keys == t.nodes.Keys
      invariant forall p :: p in children ==> children[p] == ChildrenOf(t, t.order[..i], p)
    {
      LinkStep(t, i);
      var pid := t.order[i];
      assert pid in t.order;
      var ppid := t.nodes[pid].ppid;
      if ppid.Some? && ppid.value in t.nodes && ppid.value != pid {
        children := children[ppid.value := children[ppid.value] + [pid]];
      } else {
        roots := roots + [pid];
      }
    }
    assert t.order[..|t.order|] == t.order;
  }

  // ---- What the rows say, without table and links ----

  predicate Mentions(rows: seq<Row>, x: int) {
    exists i :: 0 <= i < |rows| && rows[i].pid == Some(x)
  }

  /** Row `i` is the first one about `x` that reports a parent, and reports `p`. */
  predicate ReportsParentAt(rows: seq<Row>, x: int, p: int, i: nat) {
    && i < |rows| && rows[i].pid == Some(x) && rows[i].ppid == Some(p)
    && forall j :: 0 <= j < i && rows[j].pid == Some(x) ==> rows[j].ppid.None?
  }

  /** `x` belongs under `p`: the first parent reported for it is another process that some row mentions. */
  ghost predicate BelongsUnder(rows: seq<Row>, x: int, p: int) {
    p != x && Mentions(rows, p) && exists i: nat :: ReportsParentAt(rows, x, p, i)
  }

  /** The list names each process once, in the order in which the rows first mention them. */
  ghost predicate ByFirstMention(rows: seq<Row>, ps: seq<int>) {
    && Distinct(ps)
    && forall a, b, j :: 0 <= a < b < |ps| && 0 <= j < |rows| && rows[j].pid == Some(ps[b]) ==>
         exists i :: 0 <= i < j && rows[i].pid == Some(ps[a])
  }

  /** The whole function: collecting the nodes, then linking them. Each process the rows mention stands in the list of the one it
      belongs under, or among the roots if there is none; every list is in the order of the rows. */
  method ProcessForest(rows: seq<Row>) returns (t: Table, roots: seq<int>, children: map<int, seq<int>>)
    ensures forall p :: p in children <==> Mentions(rows, p)
    ensures forall x, p :: p in children ==> (x in children[p] <==> BelongsUnder(rows, x, p))
    ensures forall x :: x in roots <==> Mentions(rows, x) && forall p :: !BelongsUnder(rows, x, p)
    ensures ByFirstMention(rows, roots) && forall p :: p in children ==> ByFirstMention(rows, children[p])
    ensures t == Collect(rows) && TableOk(t)
    ensures roots == RootsOf(t, t.order)
    ensures children.Keys == t.nodes.Keys && forall p :: p in children ==> children[p] == ChildrenOf(t, t.order, p)
  {
    t := Table([], map[]);
    for i := 0 to |rows|
      invariant t == Collect(rows[..i])
    {
      assert rows[..i + 1][..i] == rows[..i];
      t := AddRow(t, rows[i]);
    }
    assert rows[..|rows|] == rows;
    CollectOk(rows);
    roots, children := Link(t);
    PlacedByRows(rows, t, roots, children);
  }

  lemma PlacedByRows(rows: seq<Row>, t: Table, roots: seq<int>, children: map<int, seq<int>>)
    requires t == Collect(rows) && TableOk(t) && roots == RootsOf(t, t.order)
    requires children.Keys == t.nodes.Keys && forall p :: p in children ==> children[p] == ChildrenOf(t, t.order, p)
    ensures forall p :: p in children <==> Mentions(rows, p)
    ensures forall x, p :: p in children ==> (x in children[p] <==> BelongsUnder(rows, x, p))
    ensures forall x :: x in roots <==> Mentions(rows, x) && forall p :: !BelongsUnder(rows, x, p)
    ensures ByFirstMention(rows, roots) && forall p :: p in children ==> ByFirstMention(rows, children[p])
  {
    forall p
      ensures p in children <==> Mentions(rows, p)
    {
      CollectReads(rows, p);
    }
    forall x, p
      ensures x in ChildrenOf(t, t.order, p) <==> BelongsUnder(rows, x, p)
    {
      ParentByRows(rows, x, p);
      PlacedMembers(t, t.order, x, p);
    }
    forall x
      ensures x in roots <==> x in t.nodes && forall p :: !BelongsUnder(rows, x, p)
    {
      RootByRows(rows, x);
    }
    OrderByRows(rows);
    forall p
      ensures ByFirstMention(rows, RootsOf(t, t.order)) && ByFirstMention(rows, ChildrenOf(t, t.order, p))
    {
      PlacedOrder(rows, t, t.order, p);
    }
  }

  lemma RootByRows(rows: seq<Row>, x: int)
    ensures var t := Collect(rows);
      TableOk(t) && (x in RootsOf(t, t.order) <==> x in t.nodes && forall p :: !BelongsUnder(rows, x, p))
  {
    var t := Collect(rows);
    CollectOk(rows);
    PlacedMembers(t, t.order, x, 0);
    forall p
      ensures Parent(t, x) == Some(p) <==> BelongsUnder(rows, x, p)
    {
      ParentByRows(rows, x, p);
    }
    assert Parent(t, x).Some? ==> BelongsUnder(rows, x, Parent(t, x).value);
  }

  lemma ParentByRows(rows: seq<Row>, x: int, p: int)
    ensures Parent(Collect(rows), x) == Some(p) <==> BelongsUnder(rows, x, p)
  {
    CollectReads(rows, x);
    CollectReads(rows, p);
    FirstParentByRows(rows, x, p);
  }

  lemma {:induction false} FirstParentByRows(rows: seq<Row>, x: int, p: int)
    ensures FirstParent(rows, x) == Some(p) <==> exists i: nat :: ReportsParentAt(rows, x, p, i)
  {
    if rows != [] {
      var last := |rows| - 1;
      var front := rows[..last];
      FirstParentByRows(front, x, p);
      FirstParentNone(front, x);
      assert forall i: nat :: i < last ==> ReportsParentAt(front, x, p, i) == ReportsParentAt(rows, x, p, i);
      if FirstParent(rows, x) == Some(p) && FirstParent(front, x).None? {
        assert ReportsParentAt(rows, x, p, last);
      }
    }
  }

  lemma {:induction false} FirstParentNone(rows: seq<Row>, x: int)
    ensures FirstParent(rows, x).None? <==> forall i :: 0 <= i < |rows| && rows[i].pid == Some(x) ==> rows[i].ppid.None?
  {
    if rows != [] {
      FirstParentNone(rows[..|rows| - 1], x);
    }
  }

  lemma {:induction false} PlacedMembers(t: Table, order: seq<int>, x: int, p: int)
    ensures x in ChildrenOf(t, order, p) <==> x in order && Parent(t, x) == Some(p)
    ensures x in RootsOf(t, order) <==> x in order && Parent(t, x).None?
  {
    if order != [] {
      var last := |order| - 1;
      PlacedMembers(t, order[..last], x, p);
      assert order == order[..last] + [order[last]];
    }
  }

  lemma {:induction false} OrderByRows(rows: seq<Row>)
    ensures ByFirstMention(rows, Collect(rows).order)
  {
    if rows != [] {
      var last := |rows| - 1;
      var front := rows[..last];
      OrderByRows(front);
      CollectOk(front);
      CollectOk(rows);
      var was, now := Collect(front).order, Collect(rows).order;
      forall a, b, j | 0 <= a < b < |now| && 0 <= j < |rows| && rows[j].pid == Some(now[b])
        ensures exists i :: 0 <= i < j && rows[i].pid == Some(now[a])
      {
        FirstMentions(rows, a, b, j);
      }
    }
  }

  lemma FirstMentions(rows: seq<Row>, a: nat, b: nat, j: nat)
    requires rows != [] && ByFirstMention(rows[..|rows| - 1], Collect(rows[..|rows| - 1]).order)
    requires a < b < |Collect(rows).order| && j < |rows| && rows[j].pid == Some(Collect(rows).order[b])
    ensures exists i :: 0 <= i < j && rows[i].pid == Some(Collect(rows).order[a])
  {
    var last := |rows| - 1;
    var front := rows[..last];
    CollectOk(front);
    if j < last {
      CollectReads(front, Collect(rows).order[b]);
      assert front[j] == rows[j];
      EarlierMention(rows, Collect(front).order, a, b, j);
    } else {
      MentionedBefore(rows, Collect(rows).order[a]);
    }
  }

  lemma EarlierMention(rows: seq<Row>, order: seq<int>, a: nat, b: nat, j: nat)
    requires rows != [] && ByFirstMention(rows[..|rows| - 1], order)
    requires a < b < |order| && j < |rows| - 1 && rows[j].pid == Some(order[b])
    ensures exists i :: 0 <= i < j && rows[i].pid == Some(order[a])
  {
    var front := rows[..|rows| - 1];
    assert front[j].pid == Some(order[b]);
    var i :| 0 <= i < j && front[i].pid == Some(order[a]);
    assert rows[i].pid == Some(order[a]);
  }

  lemma MentionedBefore(rows: seq<Row>, x: int)
    requires rows != [] && x in Collect(rows[..|rows| - 1]).nodes
    ensures exists i :: 0 <= i < |rows| - 1 && rows[i].pid == Some(x)
  {
    CollectReads(rows[..|rows| - 1], x);
    var i :| 0 <= i < |rows| - 1 && rows[..|rows| - 1][i].pid == Some(x);
    assert rows[i].pid == Some(x);
  }

  /** Both lists keep the order of the table. */
  lemma {:induction false} PlacedOrder(rows: seq<Row>, t: Table, order: seq<int>, p: int)
    requires ByFirstMention(rows, order)
    ensures ByFirstMention(rows, RootsOf(t, order)) && ByFirstMention(rows, ChildrenOf(t, order, p))
  {
    if order != [] {
      var last := |order| - 1;
      PlacedOrder(rows, t, order[..last], p);
      AppendOrder(rows, order, t, RootsOf(t, order[..last]), p);
      AppendOrder(rows, order, t, ChildrenOf(t, order[..last], p), p);
    }
  }

  lemma AppendOrder(rows: seq<Row>, order: seq<int>, t: Table, ps: seq<int>, p: int)
    requires ByFirstMention(rows, order) && order != [] && ByFirstMention(rows, ps)
    requires ps == RootsOf(t, order[..|order| - 1]) || ps == ChildrenOf(t, order[..|order| - 1], p)
    ensures ByFirstMention(rows, ps + [order[|order| - 1]])
  {
    var last := |order| - 1;
    forall a | 0 <= a < |ps|
      ensures exists k :: 0 <= k < last && order[k] == ps[a]
    {
      PlacedMembers(t, order[..last], ps[a], p);
      assert ps[a] in ps;
      assert ps[a] in order[..last];
    }
  }

  lemma {:induction false} CollectOk(rows: seq<Row>)
    ensures TableOk(Collect(rows))
  {
    if rows != [] {
      CollectOk(rows[..|rows| - 1]);
    }
  }

  // ---- Each pid is recorded once, with the first parent reported for it ----

  function FirstParent(rows: seq<Row>, pid: int): Option<int> {
    if rows == [] then None
    else
      var last := |rows| - 1;
      if FirstParent(rows[..last], pid).Some? then FirstParent(rows[..last], pid)
      else if rows[last].pid == Some(pid) then rows[last].ppid
      else None
  }

  lemma {:induction false} CollectReads(rows: seq<Row>, pid: int)
    ensures pid in Collect(rows).nodes <==> exists i :: 0 <= i < |rows| && rows[i].pid == Some(pid)
    ensures pid in Collect(rows).nodes ==> Collect(rows).nodes[pid].ppid == FirstParent(rows, pid)
    ensures pid !in Collect(rows).nodes ==> FirstParent(rows, pid) == None
  {
    if rows != [] {
      var last := |rows| - 1;
      CollectReads(rows[..last], pid);
      assert forall i :: 0 <= i < last ==> rows[..last][i] == rows[i];
    }
  }

  /** A node is named after the first row that mentions its pid. */
  lemma {:induction false} CollectNames(rows: seq<Row>, i: nat)
    requires i < |rows| && rows[i].pid.Some? && forall j :: 0 <= j < i ==> rows[j].pid != rows[i].pid
    ensures rows[i].pid.value in Collect(rows).nodes && Collect(rows).nodes[rows[i].pid.value].name == rows[i].name
  {
    var last := |rows| - 1;
    if i < last {
      CollectNames(rows[..last], i);
    } else {
      CollectReads(rows[..last], rows[i].pid.value);
    }
  }

  // ---- Placement: every pid in exactly one list, once ----

  function Count(s: seq<int>, x: int): nat {
    if s == [] then 0 else Count(s[..|s| - 1], x) + if s[|s| - 1] == x then 1 else 0
  }

  lemma {:induction false} CountConcat(a: seq<int>, b: seq<int>, x: int)
    ensures Count(a + b, x) == Count(a, x) + Count(b, x)
  {
    if b == [] {
      assert a + b == a;
    } else {
      assert (a + b)[..|a + b| - 1] == a + b[..|b| - 1];
      CountConcat(a, b[..|b| - 1], x);
    }
  }

  lemma {:induction false} CountDistinct(s: seq<int>, x: int)
    requires Distinct(s)
    ensures Count(s, x) == if x in s then 1 else 0
  {
    if s != [] {
      assert s == s[..|s| - 1] + [s[|s| - 1]];
      CountDistinct(s[..|s| - 1], x);
    }
  }

  lemma {:induction false} CountPlaced(t: Table, order: seq<int>, p: int, x: int)
    ensures Count(RootsOf(t, order), x) == if Parent(t, x).None? then Count(order, x) else 0
    ensures Count(ChildrenOf(t, order, p), x) == if Parent(t, x) == Some(p) then Count(order, x) else 0
  {
    if order != [] {
      var last := |order| - 1;
      CountPlaced(t, order[..last], p, x);
      CountConcat(RootsOf(t, order[..last]), if Parent(t, order[last]).None? then [order[last]] else [], x);
      CountConcat(ChildrenOf(t, order[..last], p), if Parent(t, order[last]) == Some(p) then [order[last]] else [], x);
      assert Count([order[last]], x) == if order[last] == x then 1 else 0 by {
        assert [order[last]][..0] == [];
      }
    }
  }

  /** Each recorded pid stands once among the roots and in no children list, or once in the list of its parent only. */
  lemma PlacedOnce(rows: seq<Row>, x: int, p: int)
    requires x in Collect(rows).nodes
    ensures var t := Collect(rows);
      && Count(RootsOf(t, t.order), x) == (if Parent(t, x).None? then 1 else 0)
      && Count(ChildrenOf(t, t.order, p), x) == (if Parent(t, x) == Some(p) then 1 else 0)
  {
    var t := Collect(rows);
    CollectOk(rows);
    CountPlaced(t, t.order, p, x);
    CountDistinct(t.order, x);
  }

  // ---- What hangs under the roots ----

  /** The k-th ancestor of a pid, if there is one. */
  function Up(t: Table, x: int, k: nat): Option<int> {
    if k == 0 then Some(x)
    else if Up(t, x, k - 1).None? then None
    else Parent(t, Up(t, x, k - 1).value)
  }

  /** The subtree of `p`, down to depth `fuel`, as a reader of the nested lists meets it. */
  function Flatten(t: Table, p: int, fuel: nat): seq<int>
    decreases fuel, 1, 0
  {
    [p] + if fuel == 0 then [] else FlattenAll(t, ChildrenOf(t, t.order, p), fuel - 1)
  }

  function FlattenAll(t: Table, ps: seq<int>, fuel: nat): seq<int>
    decreases fuel, 2, |ps|
  {
    if ps == [] then [] else FlattenAll(t, ps[..|ps| - 1], fuel) + Flatten(t, ps[|ps| - 1], fuel)
  }

  /** In how many of the first `fuel` generations `x` descends from a member of `ps`. */
  function Descends(t: Table, x: int, ps: seq<int>, fuel: nat): nat {
    (if fuel == 0 then 0 else Descends(t, x, ps, fuel - 1))
    + if Up(t, x, fuel).Some? then Count(ps, Up(t, x, fuel).value) else 0
  }

  lemma {:induction false} DescendsConcat(t: Table, x: int, a: seq<int>, b: seq<int>, fuel: nat)
    ensures Descends(t, x, a + b, fuel) == Descends(t, x, a, fuel) + Descends(t, x, b, fuel)
  {
    if Up(t, x, fuel).Some? {
      CountConcat(a, b, Up(t, x, fuel).value);
    }
    if fuel > 0 {
      DescendsConcat(t, x, a, b, fuel - 1);
    }
  }

  lemma {:induction false} DescendsNone(t: Table, x: int, fuel: nat)
    ensures Descends(t, x, [], fuel) == 0
  {
    if fuel > 0 {
      DescendsNone(t, x, fuel - 1);
    }
  }

  lemma CountOne(p: int, y: int)
    ensures Count([p], y) == if p == y then 1 else 0
  {
    assert [p][..0] == [];
  }

  /** `x` descends from `p` in no generation, or from one of its children a generation earlier. */
  lemma {:induction false} DescendsChildren(t: Table, x: int, p: int, fuel: nat)
    requires TableOk(t) && x in t.nodes
    ensures Descends(t, x, [p], fuel) ==
      (if x == p then 1 else 0) + if fuel == 0 then 0 else Descends(t, x, ChildrenOf(t, t.order, p), fuel - 1)
  {
    if fuel == 0 {
      CountOne(p, x);
    } else {
      DescendsChildren(t, x, p, fuel - 1);
      if Up(t, x, fuel - 1).Some? {
        var y := Up(t, x, fuel - 1).value;
        CountPlaced(t, t.order, p, y);
        CountDistinct(t.order, y);
      }
      if Up(t, x, fuel).Some? {
        CountOne(p, Up(t, x, fuel).value);
      }
    }
  }

  /** A pid is met in a subtree as often as it descends from its top. */
  lemma {:induction false} FlattenCounts(t: Table, x: int, ps: seq<int>, fuel: nat)
    requires TableOk(t) && x in t.nodes
    ensures Count(FlattenAll(t, ps, fuel), x) == Descends(t, x, ps, fuel)
    decreases fuel, |ps|
  {
    if ps == [] {
      DescendsNone(t, x, fuel);
    } else {
      FlattenCounts(t, x, ps[..|ps| - 1], fuel);
      if fuel > 0 {
        FlattenCounts(t, x, ChildrenOf(t, t.order, ps[|ps| - 1]), fuel - 1);
      }
      SubtreeCounts(t, x, ps[|ps| - 1], fuel);
      LastCounts(t, x, ps, fuel);
    }
  }

  lemma SubtreeCounts(t: Table, x: int, p: int, fuel: nat)
    requires TableOk(t) && x in t.nodes
    requires fuel > 0 ==>
      var children := ChildrenOf(t, t.order, p);
      Count(FlattenAll(t, children, fuel - 1), x) == Descends(t, x, children, fuel - 1)
    ensures Count(Flatten(t, p, fuel), x) == Descends(t, x, [p], fuel)
  {
    DescendsChildren(t, x, p, fuel);
    CountOne(p, x);
    if fuel > 0 {
      CountConcat([p], FlattenAll(t, ChildrenOf(t, t.order, p), fuel - 1), x);
    }
  }

  lemma LastCounts(t: Table, x: int, ps: seq<int>, fuel: nat)
    requires ps != []
    requires var front := ps[..|ps| - 1]; Count(FlattenAll(t, front, fuel), x) == Descends(t, x, front, fuel)
    requires var p := ps[|ps| - 1]; Count(Flatten(t, p, fuel), x) == Descends(t, x, [p], fuel)
    ensures Count(FlattenAll(t, ps, fuel), x) == Descends(t, x, ps, fuel)
  {
    var front, p := ps[..|ps| - 1], ps[|ps| - 1];
    CountConcat(FlattenAll(t, front, fuel), Flatten(t, p, fuel), x);
    DescendsConcat(t, x, front, [p], fuel);
    assert ps == front + [p];
  }

  // ---- Chains that end and chains that do not ----

  /** The ancestor chain of `x` comes back to a pid it has passed. */
  ghost predicate EntersCycle(t: Table, x: int) {
    exists i: nat, j: nat :: i < j && Up(t, x, i).Some? && Up(t, x, i) == Up(t, x, j)
  }

  lemma {:induction false} UpEnds(t: Table, x: int, k: nat, n: nat)
    requires k <= n && Up(t, x, k).None?
    ensures Up(t, x, n).None?
  {
    if k < n {
      UpEnds(t, x, k, n - 1);
    }
  }

  lemma {:induction false} UpShift(t: Table, x: int, i: nat, j: nat, d: nat)
    requires Up(t, x, i) == Up(t, x, j)
    ensures Up(t, x, i + d) == Up(t, x, j + d)
  {
    if d > 0 {
      UpShift(t, x, i, j, d - 1);
    }
  }

  /** A chain in a cycle never ends. */
  lemma {:induction false} CycleNeverEnds(t: Table, x: int, i: nat, j: nat, n: nat)
    requires i < j && Up(t, x, i).Some? && Up(t, x, i) == Up(t, x, j)
    ensures Up(t, x, n).Some?
  {
    if n <= j {
      if Up(t, x, n).None? {
        UpEnds(t, x, n, j);
      }
    } else {
      CycleNeverEnds(t, x, i, j, n - (j - i));
      UpShift(t, x, i, j, n - j);
    }
  }

  lemma DistinctSize(s: seq<int>, all: set<int>)
    requires Distinct(s) && forall x <- s :: x in all
    ensures |s| <= |all|
  {
    if s != [] {
      var last := s[|s| - 1];
      assert s == s[..|s| - 1] + [last];
      DistinctSize(s[..|s| - 1], all - {last});
    }
  }

  /** A chain longer than there are pids enters a cycle. */
  lemma LongChainCycles(t: Table, x: int)
    requires TableOk(t) && x in t.nodes && Up(t, x, |t.order|).Some?
    ensures EntersCycle(t, x)
  {
    var n := |t.order|;
    var chain := seq(n + 1, i requires 0 <= i => if Up(t, x, i).Some? then Up(t, x, i).value else 0);
    forall i | 0 <= i <= n
      ensures Up(t, x, i).Some? && chain[i] in t.nodes
    {
      if Up(t, x, i).None? {
        UpEnds(t, x, i, n);
      }
    }
    if Distinct(chain) {
      OrderSize(t.order);
      DistinctSize(chain, set y | y in t.order);
    } else {
      var i, j :| 0 <= i < j < |chain| && chain[i] == chain[j];
      assert Up(t, x, i) == Up(t, x, j);
    }
  }

  lemma OrderSize(s: seq<int>)
    ensures |set y | y in s| <= |s|
  {
    if s != [] {
      var front, last := s[..|s| - 1], s[|s| - 1];
      OrderSize(front);
      assert s == front + [last];
      assert (set y | y in s) == (set y | y in front) + {last};
    }
  }

  /** How often `x` descends from the roots: once if its chain has ended by then, else not yet. */
  lemma {:induction false} DescendsFromRoots(t: Table, x: int, fuel: nat)
    requires TableOk(t) && x in t.nodes
    ensures Descends(t, x, RootsOf(t, t.order), fuel) == if Up(t, x, fuel + 1).None? then 1 else 0
  {
    if Up(t, x, fuel).Some? {
      var y := Up(t, x, fuel).value;
      CountPlaced(t, t.order, 0, y);
      CountDistinct(t.order, y);
    }
    if fuel > 0 {
      DescendsFromRoots(t, x, fuel - 1);
    }
  }

  /** A chain still going after as many steps as there are pids is one that enters a cycle. */
  lemma LongExactlyCycles(t: Table, x: int, n: nat)
    requires TableOk(t) && x in t.nodes && n >= |t.order|
    ensures Up(t, x, n).Some? <==> EntersCycle(t, x)
  {
    if EntersCycle(t, x) {
      var i: nat, j: nat :| i < j && Up(t, x, i).Some? && Up(t, x, i) == Up(t, x, j);
      CycleNeverEnds(t, x, i, j, n);
    } else if Up(t, x, |t.order|).Some? {
      LongChainCycles(t, x);
    } else {
      UpEnds(t, x, |t.order|, n);
    }
  }

  /** Reading the returned forest, as deep as it goes, meets each recorded pid once - except those whose ancestor chain
      enters a cycle, which are missing. Without such cycles the forest shows every pid exactly once. */
  lemma ForestComplete(rows: seq<Row>, x: int, depth: nat)
    requires x in Collect(rows).nodes && depth >= |Collect(rows).order|
    ensures var t := Collect(rows);
      Count(FlattenAll(t, RootsOf(t, t.order), depth), x) == if EntersCycle(t, x) then 0 else 1
  {
    var t := Collect(rows);
    CollectOk(rows);
    FlattenCounts(t, x, RootsOf(t, t.order), depth);
    DescendsFromRoots(t, x, depth);
    LongExactlyCycles(t, x, depth + 1);
  }
}
