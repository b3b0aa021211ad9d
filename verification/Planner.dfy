/** Choosing nodes and slots for the copies of every block (the planning half of
    filesystem_distributeBlocksToNodes). */
module Planner {
  import opened NodeBitmap
  import opened Placement
  import opened NodeTable
  import opened Bytes

  ghost predicate DistinctIds(nodes: seq<Node>) {
    forall i, j :: 0 <= i < j < |nodes| ==> nodes[i].id != nodes[j].id
  }

  /** A list of node objects with distinct ids and well-formed bitmaps. */
  ghost predicate GoodList(nodes: seq<Node>)
    reads set x | x in nodes
  {
    DistinctIds(nodes) && forall x :: x in nodes ==> WellSized(x.Doc())
  }

  function FreeCount(x: Node): nat
    requires WellSized(x.Doc())
    reads x
  {
    |FreeSlots(x.Doc())|
  }

  ghost predicate SortedByFree(nodes: seq<Node>)
    requires forall x :: x in nodes ==> WellSized(x.Doc())
    reads set x | x in nodes
  {
    forall i, j :: 0 <= i < j < |nodes| ==> FreeCount(nodes[j]) <= FreeCount(nodes[i])
  }

  /** list_sort with the comparator that puts the node with more free blocks first; how it orders nodes with equal
      counts does not matter below. */
  method SortByBlocksFree(nodes: seq<Node>) returns (sorted: seq<Node>)
    requires GoodList(nodes)
    ensures |sorted| == |nodes| && forall x :: x in sorted <==> x in nodes
    ensures GoodList(sorted) && SortedByFree(sorted)
  {
    sorted := [];
    var k := 0;
    while k < |nodes|
      invariant 0 <= k <= |nodes| && |sorted| == k
      invariant forall x :: x in sorted <==> x in nodes[..k]
      invariant GoodList(sorted) && SortedByFree(sorted)
    {
      assert forall y :: y in sorted ==> y != nodes[k] && y.id != nodes[k].id;
      sorted := InsertByBlocksFree(sorted, nodes[k]);
      k := k + 1;
    }
  }

  method InsertByBlocksFree(sorted: seq<Node>, x: Node) returns (r: seq<Node>)
    requires GoodList(sorted) && SortedByFree(sorted)
    requires WellSized(x.Doc()) && forall y :: y in sorted ==> y != x && y.id != x.id
    ensures |r| == |sorted| + 1 && forall y :: y in r <==> y == x || y in sorted
    ensures GoodList(r) && SortedByFree(r)
  {
    var count := x.GetBlocksFreeCount();
    var i := 0;
    while i < |sorted|
      invariant 0 <= i <= |sorted|
      invariant forall j :: 0 <= j < i ==> count <= FreeCount(sorted[j])
    {
      var other := sorted[i].GetBlocksFreeCount();
      if count > other {
        break;
      }
      i := i + 1;
    }
    r := sorted[..i] + [x] + sorted[i..];
    Inserted(sorted, i, x, r);
    InsertedInOrder(sorted, i, x, r);
  }

  lemma Inserted(sorted: seq<Node>, i: nat, x: Node, r: seq<Node>)
    requires GoodList(sorted) && i <= |sorted| && r == sorted[..i] + [x] + sorted[i..]
    requires WellSized(x.Doc()) && forall y :: y in sorted ==> y != x && y.id != x.id
    ensures forall y :: y in r <==> y == x || y in sorted
    ensures GoodList(r)
  {
    hide WellSized;
    assert forall j :: 0 <= j < |r| ==> r[j] == if j < i then sorted[j] else if j == i then x else sorted[j - 1];
    assert r[i] == x;
    forall y | y in sorted ensures y in r {
      var j :| 0 <= j < |sorted| && sorted[j] == y;
      assert r[if j < i then j else j + 1] == y;
    }
  }

  lemma InsertedInOrder(sorted: seq<Node>, i: nat, x: Node, r: seq<Node>)
    requires GoodList(sorted) && SortedByFree(sorted) && i <= |sorted| && r == sorted[..i] + [x] + sorted[i..]
    requires GoodList(r)
    requires forall j :: 0 <= j < i ==> FreeCount(x) <= FreeCount(sorted[j])
    requires i < |sorted| ==> FreeCount(sorted[i]) <= FreeCount(x)
    ensures SortedByFree(r)
  {
    hide FreeCount;
    assert forall j :: 0 <= j < |r| ==> r[j] == if j < i then sorted[j] else if j == i then x else sorted[j - 1];
  }

  function Docs(nodes: seq<Node>): (t: Table)
    requires GoodList(nodes)
    reads set x | x in nodes
    ensures GoodTable(t)
    ensures forall x :: x in nodes ==> x.id in t && t[x.id] == x.Doc()
    ensures forall id :: id in t ==> exists x :: x in nodes && x.id == id
  {
    map i | 0 <= i < |nodes| :: nodes[i].id := nodes[i].Doc()
  }

  ghost function Elements<T>(s: seq<T>): set<T> {
    set x | x in s
  }

  ghost function Members<T>(a: seq<T>, chosen: set<T>): (r: Row)
    ensures |r| == |a|
  {
    seq(|a|, i requires 0 <= i < |a| => a[i] in chosen)
  }

  lemma {:induction false} CountMembers<T>(a: seq<T>, chosen: set<T>)
    requires Distinct(a)
    ensures Ones(Members(a, chosen)) == |chosen * Elements(a)|
  {
    if a == [] {
      assert chosen * Elements(a) == {};
    } else {
      CountMembers(a[1..], chosen);
      assert Members(a, chosen)[1..] == Members(a[1..], chosen);
      FirstElement(a);
      hide Elements, Distinct;
      if a[0] in chosen {
        assert chosen * Elements(a) == chosen * Elements(a[1..]) + {a[0]};
      } else {
        assert chosen * Elements(a) == chosen * Elements(a[1..]);
      }
    }
  }

  lemma FirstElement<T>(a: seq<T>)
    requires Distinct(a) && a != []
    ensures Elements(a) == Elements(a[1..]) + {a[0]} && a[0] !in Elements(a[1..]) && Distinct(a[1..])
  {
  }

  lemma {:induction false} DistinctSize<T>(a: seq<T>)
    requires Distinct(a)
    ensures |Elements(a)| == |a|
  {
    if a != [] {
      DistinctSize(a[1..]);
      FirstElement(a);
    }
  }

  ghost function Ids(nodes: seq<Node>): (r: seq<NodeId>)
    ensures |r| == |nodes|
  {
    seq(|nodes|, i requires 0 <= i < |nodes| => nodes[i].id)
  }

  /** The free counts of the listed nodes, as the placement argument sees them. */
  ghost function Counts(t: Table, ids: seq<NodeId>): (r: seq<nat>)
    requires GoodTable(t) && forall i :: 0 <= i < |ids| ==> ids[i] in t
    ensures |r| == |ids|
  {
    seq(|ids|, i requires 0 <= i < |ids| => |FreeSlots(t[ids[i]])|)
  }

  ghost predicate Listed(t: Table, ids: seq<NodeId>) {
    GoodTable(t) && Distinct(ids) && forall i :: 0 <= i < |ids| ==> ids[i] in t
  }

  ghost predicate SortedIds(t: Table, ids: seq<NodeId>, sorted: seq<NodeId>)
    requires Listed(t, ids)
  {
    && Listed(t, sorted)
    && (forall id :: id in ids <==> id in sorted)
    && forall i, j :: 0 <= i < j < |sorted| ==> |FreeSlots(t[sorted[j]])| <= |FreeSlots(t[sorted[i]])|
  }

  /** Taking the first free slot on each of the first nodes of the sorted list. */
  ghost predicate TakesFirst(t: Table, sorted: seq<NodeId>, copies: seq<Copy>)
    requires Listed(t, sorted)
  {
    && |copies| <= |sorted|
    && forall i :: 0 <= i < |copies| ==> copies[i].nodeId == sorted[i] && IsFirstFree(t[sorted[i]], copies[i].slot)
  }

  /** Takes the first free block of one node of the list. */
  method TakeFirstFree(sorted: seq<Node>, i: nat) returns (index: int)
    requires GoodList(sorted) && i < |sorted|
    modifies sorted[i]
    ensures GoodList(sorted) && index >= -1
    ensures index == -1 <==> FreeSlots(old(Docs(sorted))[sorted[i].id]) == {}
    ensures index >= 0 ==> IsFirstFree(old(Docs(sorted))[sorted[i].id], index)
    ensures index >= 0 ==> Docs(sorted) == MarkCopy(old(Docs(sorted)), Copy(sorted[i].id, index), true)
  {
    var selected := sorted[i];
    index := selected.GetFirstFreeBlock();
    if index != -1 {
      selected.SetBlockUsed(index);
    }
  }

  /** Copies on the first nodes of the list leave the next node's bitmap as it was. */
  lemma NextNodeUntouched(t: Table, sorted: seq<NodeId>, copies: seq<Copy>)
    requires Listed(t, sorted) && TakesFirst(t, sorted, copies) && |copies| < |sorted|
    requires AllKnown(t, copies)
    ensures MarkAll(t, copies, true)[sorted[|copies|]] == t[sorted[|copies|]]
  {
    assert OnDistinctNodes(copies);
    MarkAllOnDistinctNodes(t, copies, true, sorted[|copies|]);
  }

  /** The copies of one block: the first free slot of each of the three first nodes of the sorted list. */
  method PlaceBlock(sorted: seq<Node>) returns (ok: bool, copies: seq<Copy>)
    requires GoodList(sorted)
    modifies set x | x in sorted
    ensures GoodList(sorted) && |copies| <= |sorted|
    ensures ok ==> |copies| == COPIES && TakesFirst(old(Docs(sorted)), Ids(sorted), copies)
    ensures ok ==> AllKnown(old(Docs(sorted)), copies) && Docs(sorted) == MarkAll(old(Docs(sorted)), copies, true)
    ensures !ok ==> |copies| < COPIES
    ensures !ok && |copies| < |sorted| ==> FreeSlots(old(Docs(sorted))[sorted[|copies|].id]) == {}
  {
    hide MarkAll, MarkCopy, Docs, FreeSlots, WellSized, IsFirstFree;
    ghost var t, ids := Docs(sorted), Ids(sorted);
    copies := [];
    MarkNone(t, true);
    var i := 0;
    while i < COPIES
      invariant 0 <= i <= COPIES && |copies| == i <= |sorted|
      invariant GoodList(sorted)
      invariant TakesFirst(t, ids, copies) && AllKnown(t, copies)
      invariant Docs(sorted) == MarkAll(t, copies, true)
    {
      if i >= |sorted| {
        return false, copies;
      }
      NextNodeUntouched(t, ids, copies);
      var index := TakeFirstFree(sorted, i);
      if index == -1 {
        return false, copies;
      }
      var copy := Copy(sorted[i].id, index);
      MarkOneMore(t, copies, copy, true);
      copies := copies + [copy];
      i := i + 1;
    }
    ok := true;
  }

  ghost function RowOf(ids: seq<NodeId>, sorted: seq<NodeId>): Row
    requires |sorted| >= COPIES
  {
    Members(ids, Elements(sorted[..COPIES]))
  }

  /** The first k nodes of a reordering of the list, as a row over the list. */
  lemma FirstNodes(ids: seq<NodeId>, sorted: seq<NodeId>, k: nat)
    requires Distinct(ids) && Distinct(sorted) && k <= |sorted|
    requires forall x :: x in sorted <==> x in ids
    ensures Ones(Members(ids, Elements(sorted[..k]))) == k
  {
    var chosen := Elements(sorted[..k]);
    CountMembers(ids, chosen);
    DistinctSize(sorted[..k]);
    assert chosen * Elements(ids) == chosen;
  }

  lemma FirstThreeAreMostFree(t: Table, ids: seq<NodeId>, sorted: seq<NodeId>, copies: seq<Copy>)
    requires Listed(t, ids) && SortedIds(t, ids, sorted) && TakesFirst(t, sorted, copies) && |copies| == COPIES
    ensures MostFree(Counts(t, ids), RowOf(ids, sorted))
  {
    var row := RowOf(ids, sorted);
    FirstNodes(ids, sorted, COPIES);
    forall i | 0 <= i < |ids| && row[i] ensures Counts(t, ids)[i] > 0 {
      var k :| 0 <= k < COPIES && sorted[k] == ids[i];
      assert copies[k].slot in FreeSlots(t[ids[i]]);
    }
    forall i, j | 0 <= i < |row| && 0 <= j < |row| && row[i] && !row[j]
      ensures Counts(t, ids)[j] <= Counts(t, ids)[i]
    {
      var k :| 0 <= k < COPIES && sorted[k] == ids[i];
      assert ids[j] in sorted;
      var l :| 0 <= l < |sorted| && sorted[l] == ids[j];
      assert forall q :: 0 <= q < COPIES ==> sorted[..COPIES][q] == sorted[q];
    }
  }

  lemma MarkedCounts(t: Table, ids: seq<NodeId>, sorted: seq<NodeId>, copies: seq<Copy>)
    requires Listed(t, ids) && SortedIds(t, ids, sorted) && TakesFirst(t, sorted, copies) && |copies| == COPIES
    requires AllKnown(t, copies) && OnDistinctNodes(copies)
    requires Fits(Counts(t, ids), RowOf(ids, sorted))
    ensures Counts(MarkAll(t, copies, true), ids) == Take(Counts(t, ids), RowOf(ids, sorted))
  {
    hide MarkAll, MarkCopy, OnDistinctNodes, AllKnown, PaddedBits;
    var row := RowOf(ids, sorted);
    var t1 := MarkAll(t, copies, true);
    forall i | 0 <= i < |ids| ensures Counts(t1, ids)[i] == Take(Counts(t, ids), row)[i] {
      MarkAllOnDistinctNodes(t, copies, true, ids[i]);
      if row[i] {
        var k :| 0 <= k < COPIES && sorted[k] == ids[i];
        assert FreeSlots(t1[ids[i]]) == FreeSlots(t[ids[i]]) - {copies[k].slot};
      } else {
        forall k | 0 <= k < COPIES ensures copies[k].nodeId != ids[i] {
          assert sorted[..COPIES][k] == sorted[k];
        }
      }
    }
  }

  lemma OthersAreFull(t: Table, ids: seq<NodeId>, sorted: seq<NodeId>, k: nat)
    requires Listed(t, ids) && SortedIds(t, ids, sorted) && k <= |sorted|
    requires k < |sorted| ==> FreeSlots(t[sorted[k]]) == {}
    ensures forall i :: 0 <= i < |ids| && NonFull(Counts(t, ids))[i] ==> Members(ids, Elements(sorted[..k]))[i]
  {
    forall i | 0 <= i < |ids| && NonFull(Counts(t, ids))[i] ensures Members(ids, Elements(sorted[..k]))[i] {
      assert ids[i] in sorted;
      var l :| 0 <= l < |sorted| && sorted[l] == ids[i];
      assert l < k;
      assert sorted[..k][l] == ids[i];
    }
  }

  /** When the block cannot be placed, fewer than three nodes have a free slot, so there was no room. */
  lemma NoThirdNode(t: Table, ids: seq<NodeId>, sorted: seq<NodeId>, k: nat, m: nat)
    requires Listed(t, ids) && SortedIds(t, ids, sorted) && k <= |sorted| && k < COPIES && m > 0
    requires k < |sorted| ==> FreeSlots(t[sorted[k]]) == {}
    ensures !Room(Counts(t, ids), m)
  {
    FirstNodes(ids, sorted, k);
    OthersAreFull(t, ids, sorted, k);
    hide FreeSlots, NonFull, Counts, Members, Elements, Capacity, Ones;
    var c := Counts(t, ids);
    OnesMonotone(NonFull(c), Members(ids, Elements(sorted[..k])));
    RoomNeedsNodes(c, m);
    ProductGrows(Ones(NonFull(c)), 2, m);
  }

  /** What a successful plan for m blocks is: three copies of each on distinct nodes, every copy in a slot of its own
      that was free, and exactly those slots taken. */
  ghost predicate IsPlan(t: Table, plan: seq<seq<Copy>>)
    requires GoodTable(t)
  {
    && (forall b :: 0 <= b < |plan| ==> |plan[b]| == COPIES && OnDistinctNodes(plan[b]))
    && AllInRange(t, Flatten(plan)) && Distinct(Flatten(plan))
    && forall c :: c in Flatten(plan) ==> !IsUsed(t, c)
  }

  /** Copies put in slots that are free in t1, which is t with the plan's slots taken, extend the plan. */
  lemma ExtendPlan(t: Table, plan: seq<seq<Copy>>, t1: Table, copies: seq<Copy>)
    requires Planned(t, plan, t1) && GoodTable(t1)
    requires |copies| == COPIES && OnDistinctNodes(copies) && AllInRange(t1, copies)
    requires forall c :: c in copies ==> !IsUsed(t1, c)
    ensures Planned(t, plan + [copies], MarkAll(t1, copies, true))
  {
    hide MarkAll, MarkCopy, WellSized, IsUsed;
    FlattenAppend(plan, [copies]);
    assert Flatten([copies]) == copies;
    UsedAfterMarkAll(t, Flatten(plan), true);
    ExtendCopies(t, Flatten(plan), t1, copies);
    MarkAllAppend(t, Flatten(plan), copies, true);
    assert forall b :: 0 <= b < |plan| ==> (plan + [copies])[b] == plan[b];
  }

  lemma ExtendCopies(t: Table, flat: seq<Copy>, t1: Table, copies: seq<Copy>)
    requires GoodTable(t) && GoodTable(t1) && AllInRange(t, flat) && AllInRange(t1, copies)
    requires t1.Keys == t.Keys && forall id :: id in t ==> t1[id].count == t[id].count
    requires forall c :: IsUsed(t1, c) <==> c in flat || IsUsed(t, c)
    requires forall c :: c in flat ==> !IsUsed(t, c)
    requires Distinct(flat) && OnDistinctNodes(copies)
    requires forall c :: c in copies ==> !IsUsed(t1, c)
    ensures AllInRange(t, flat + copies) && Distinct(flat + copies)
    ensures forall c :: c in flat + copies ==> !IsUsed(t, c)
  {
    forall i | 0 <= i < |copies| ensures copies[i] !in flat && !IsUsed(t, copies[i]) {
      assert copies[i] in copies;
    }
    assert Distinct(copies);
  }

  lemma TakesFirstIsFree(t: Table, sorted: seq<NodeId>, copies: seq<Copy>)
    requires Listed(t, sorted) && TakesFirst(t, sorted, copies)
    ensures OnDistinctNodes(copies) && AllInRange(t, copies)
    ensures forall c :: c in copies ==> !IsUsed(t, c)
  {
  }

  /** A difference of at most d between the fullest and the emptiest node is never exceeded, for d at least one. */
  ghost predicate BalanceKept(before: seq<nat>, after: seq<nat>) {
    forall d: nat :: d >= 1 && Balanced(before, d) ==> Balanced(after, d)
  }

  /** How the free counts stand with rest of m blocks to go. */
  ghost predicate CountsState(c: seq<nat>, m: nat, now: seq<nat>, rest: nat) {
    (Room(c, m) <==> Room(now, rest)) && BalanceKept(c, now)
  }

  lemma CountsStep(c: seq<nat>, m: nat, now: seq<nat>, rest: nat, row: Row)
    requires CountsState(c, m, now, rest) && rest > 0 && MostFree(now, row)
    ensures CountsState(c, m, Take(now, row), rest - 1)
  {
    MostFreeKeepsRoom(now, row, rest);
    forall d: nat | d >= 1 && Balanced(c, d) ensures Balanced(Take(now, row), d) {
      MostFreeKeepsBalance(now, row, d);
    }
  }

  lemma PlacedCounts(c: seq<nat>, m: nat, t1: Table, ids: seq<NodeId>, sorted: seq<NodeId>, copies: seq<Copy>,
                     rest: nat)
    requires Listed(t1, ids) && SortedIds(t1, ids, sorted) && TakesFirst(t1, sorted, copies) && |copies| == COPIES
    requires AllKnown(t1, copies) && CountsState(c, m, Counts(t1, ids), rest) && rest > 0
    ensures CountsState(c, m, Counts(MarkAll(t1, copies, true), ids), rest - 1)
  {
    FirstThreeAreMostFree(t1, ids, sorted, copies);
    TakesFirstIsFree(t1, sorted, copies);
    MarkedCounts(t1, ids, sorted, copies);
    CountsStep(c, m, Counts(t1, ids), rest, RowOf(ids, sorted));
  }

  /** t1 is t with exactly the slots of the plan taken. */
  ghost predicate Planned(t: Table, plan: seq<seq<Copy>>, t1: Table) {
    GoodTable(t) && IsPlan(t, plan) && t1 == MarkAll(t, Flatten(plan), true)
  }

  /** t1 is what planning the blocks of the plan has made of t, with rest of m blocks to go. */
  ghost predicate PlanState(t: Table, plan: seq<seq<Copy>>, c: seq<nat>, m: nat, t1: Table, ids: seq<NodeId>,
                            rest: nat)
  {
    Planned(t, plan, t1) && Listed(t1, ids) && CountsState(c, m, Counts(t1, ids), rest)
  }

  lemma StartOfPlan(nodes: seq<Node>, m: nat) returns (c: seq<nat>)
    requires GoodList(nodes)
    ensures c == Counts(Docs(nodes), Ids(nodes))
    ensures PlanState(Docs(nodes), [], c, m, Docs(nodes), Ids(nodes), m)
  {
    c := Counts(Docs(nodes), Ids(nodes));
  }

  ghost predicate SortedInto(t: Table, ids: seq<NodeId>, sorted: seq<NodeId>) {
    Listed(t, ids) && Listed(t, sorted) && SortedIds(t, ids, sorted)
  }

  lemma BlockPlaced(t: Table, plan: seq<seq<Copy>>, c: seq<nat>, m: nat, t1: Table, ids: seq<NodeId>,
                    sorted: seq<NodeId>,
                    copies: seq<Copy>, rest: nat)
    requires PlanState(t, plan, c, m, t1, ids, rest) && rest > 0
    requires SortedInto(t1, ids, sorted) && TakesFirst(t1, sorted, copies) && |copies| == COPIES && AllKnown(t1, copies)
    ensures PlanState(t, plan + [copies], c, m, MarkAll(t1, copies, true), ids, rest - 1)
  {
    hide MarkAll, MarkCopy, Planned, CountsState, Counts, SortedIds, TakesFirst, IsUsed, WellSized;
    PlacedCounts(c, m, t1, ids, sorted, copies, rest);
    TakesFirstIsFree(t1, sorted, copies);
    ExtendPlan(t, plan, t1, copies);
  }

  lemma BlockNotPlaced(t: Table, plan: seq<seq<Copy>>, c: seq<nat>, m: nat, t1: Table, ids: seq<NodeId>,
                       sorted: seq<NodeId>, k: nat, rest: nat)
    requires PlanState(t, plan, c, m, t1, ids, rest) && rest > 0
    requires SortedInto(t1, ids, sorted) && k <= |sorted| && k < COPIES
    requires k < |sorted| ==> FreeSlots(t1[sorted[k]]) == {}
    ensures !Room(c, m)
  {
    hide Planned, Counts, SortedIds, Room, BalanceKept;
    NoThirdNode(t1, ids, sorted, k, rest);
  }

  lemma RoomIsCapacity(c: seq<nat>, m: nat)
    ensures Room(c, m) <==> Capacity(c, m) >= 3 * m
  {
  }

  lemma ThreeOfEach(t: Table, plan: seq<seq<Copy>>, t1: Table)
    requires Planned(t, plan, t1)
    ensures forall b :: 0 <= b < |plan| ==> |plan[b]| == 3 && OnDistinctNodes(plan[b])
  {
  }

  lemma EndOfPlan(t: Table, plan: seq<seq<Copy>>, c: seq<nat>, m: nat, t1: Table, ids: seq<NodeId>)
    requires PlanState(t, plan, c, m, t1, ids, 0)
    ensures Listed(t1, ids)
    ensures Room(c, m) && BalanceKept(c, Counts(t1, ids)) && Planned(t, plan, t1)
  {
  }

  /** One block: the list is sorted anew and the first free slots of its first three nodes are taken. */
  method PlaceNext(nodes: seq<Node>, list: seq<Node>) returns (ok: bool, sorted: seq<Node>, copies: seq<Copy>)
    requires GoodList(nodes) && GoodList(list) && forall x :: x in list <==> x in nodes
    modifies set x | x in nodes
    ensures GoodList(nodes) && GoodList(sorted) && forall x :: x in sorted <==> x in nodes
    ensures SortedInto(old(Docs(nodes)), Ids(nodes), Ids(sorted)) && |copies| <= |sorted|
    ensures ok ==> |copies| == COPIES && TakesFirst(old(Docs(nodes)), Ids(sorted), copies)
    ensures ok ==> AllKnown(old(Docs(nodes)), copies) && Docs(nodes) == MarkAll(old(Docs(nodes)), copies, true)
    ensures !ok ==> |copies| < COPIES
    ensures !ok && |copies| < |sorted| ==> FreeSlots(old(Docs(nodes))[Ids(sorted)[|copies|]]) == {}
  {
    hide MarkAll, TakesFirst, FreeSlots, WellSized, Docs;
    sorted := SortByBlocksFree(list);
    SortedListIsSortedIds(nodes, sorted);
    ok, copies := PlaceBlock(sorted);
    SameDocs(nodes, sorted);
  }

  method PlanBlocks(nodes: seq<Node>, m: nat) returns (success: bool, plan: seq<seq<Copy>>)
    requires GoodList(nodes)
    modifies set x | x in nodes
    ensures GoodList(nodes)
    ensures success <==> Room(Counts(old(Docs(nodes)), Ids(nodes)), m)
    ensures success <==> Capacity(Counts(old(Docs(nodes)), Ids(nodes)), m) >= 3 * m
    ensures success ==> forall b :: 0 <= b < |plan| ==> |plan[b]| == 3 && OnDistinctNodes(plan[b])
    ensures success ==> |plan| == m && Planned(old(Docs(nodes)), plan, Docs(nodes))
    ensures success ==> BalanceKept(Counts(old(Docs(nodes)), Ids(nodes)), Counts(Docs(nodes), Ids(nodes)))
  {
    hide MarkAll, Planned, PlanState, SortedInto, Counts, TakesFirst, Room, BalanceKept, Docs, FreeSlots, WellSized,
      Capacity;
    plan := [];
    var list := nodes;
    ghost var t, ids := Docs(nodes), Ids(nodes);
    ghost var c := StartOfPlan(nodes, m);
    var k := 0;
    while k < m
      invariant 0 <= k <= m && |plan| == k
      invariant GoodList(nodes) && GoodList(list)
      invariant forall x :: x in list <==> x in nodes
      invariant PlanState(t, plan, c, m, Docs(nodes), ids, m - k)
    {
      ghost var t1 := Docs(nodes);
      var ok, copies;
      ok, list, copies := PlaceNext(nodes, list);
      if !ok {
        BlockNotPlaced(t, plan, c, m, t1, ids, Ids(list), |copies|, m - k);
        RoomIsCapacity(c, m);
        return false, plan;
      }
      BlockPlaced(t, plan, c, m, t1, ids, Ids(list), copies, m - k);
      plan := plan + [copies];
      k := k + 1;
    }
    EndOfPlan(t, plan, c, m, Docs(nodes), ids);
    RoomIsCapacity(c, m);
    ThreeOfEach(t, plan, Docs(nodes));
    success := true;
  }

  lemma SameDocs(nodes: seq<Node>, list: seq<Node>)
    requires GoodList(nodes) && GoodList(list) && forall x :: x in list <==> x in nodes
    ensures Docs(nodes) == Docs(list)
  {
  }

  lemma SortedListIsSortedIds(nodes: seq<Node>, list: seq<Node>)
    requires GoodList(nodes) && GoodList(list) && SortedByFree(list) && forall x :: x in list <==> x in nodes
    ensures Docs(nodes) == Docs(list)
    ensures SortedInto(Docs(nodes), Ids(nodes), Ids(list))
  {
    SameDocs(nodes, list);
    IdsOf(nodes);
    IdsOf(list);
  }

  lemma IdsOf(nodes: seq<Node>)
    ensures forall id :: id in Ids(nodes) <==> exists x :: x in nodes && x.id == id
  {
    forall x | x in nodes ensures x.id in Ids(nodes) {
      var i :| 0 <= i < |nodes| && nodes[i] == x;
      assert Ids(nodes)[i] == x.id;
    }
  }
}
