/** Why "most free space first" places three copies of every block whenever that is possible at all. Nodes are
    positions of a list and only their free counts matter here. */
module Placement {
  import opened Bytes

  const COPIES := 3

  /** Which nodes receive a copy of one block. */
  type Row = seq<bool>

  function Ones(row: Row): nat {
    if row == [] then 0 else (if row[0] then 1 else 0) + Ones(row[1..])
  }

  predicate Fits(free: seq<nat>, row: Row) {
    |row| == |free| && forall i :: 0 <= i < |row| && row[i] ==> free[i] > 0
  }

  function Take(free: seq<nat>, row: Row): (r: seq<nat>)
    requires Fits(free, row)
    ensures |r| == |free|
  {
    seq(|free|, i requires 0 <= i < |free| => if row[i] then free[i] - 1 else free[i])
  }

  /** A placement of one block after another, three distinct nodes each, never on a full node. */
  ghost predicate Placeable(free: seq<nat>, rows: seq<Row>)
    decreases |rows|
  {
    rows == [] || (Fits(free, rows[0]) && Ones(rows[0]) == COPIES && Placeable(Take(free, rows[0]), rows[1..]))
  }

  /** No node left out has more free slots than a chosen one. */
  ghost predicate MostFree(free: seq<nat>, row: Row) {
    && Fits(free, row) && Ones(row) == COPIES
    && forall i, j :: 0 <= i < |row| && 0 <= j < |row| && row[i] && !row[j] ==> free[j] <= free[i]
  }

  /** The copies that m blocks can put on these nodes when no node may hold two copies of one block. */
  function Capacity(free: seq<nat>, m: nat): nat {
    if free == [] then 0 else Min(free[0], m) + Capacity(free[1..], m)
  }

  /** There is room for three copies of each of m blocks. */
  predicate Room(free: seq<nat>, m: nat) {
    Capacity(free, m) >= COPIES * m
  }

  function Enlarged(free: seq<nat>, row: Row, m: nat): (r: Row)
    requires |row| == |free|
    ensures |r| == |row|
  {
    seq(|row|, i requires 0 <= i < |row| => row[i] || free[i] >= m)
  }

  lemma {:induction false} CapacityDrop(free: seq<nat>, row: Row, m: nat)
    requires Fits(free, row) && m > 0
    ensures Capacity(Take(free, row), m - 1) + Ones(Enlarged(free, row, m)) == Capacity(free, m)
  {
    if free != [] {
      CapacityDrop(free[1..], row[1..], m);
      assert Take(free, row)[1..] == Take(free[1..], row[1..]);
      assert Enlarged(free, row, m)[1..] == Enlarged(free[1..], row[1..], m);
    }
  }

  lemma {:induction false} OnesMonotone(a: Row, b: Row)
    requires |a| == |b| && forall i :: 0 <= i < |a| && a[i] ==> b[i]
    ensures Ones(a) <= Ones(b)
  {
    if a != [] {
      OnesMonotone(a[1..], b[1..]);
    }
  }

  lemma {:induction false} FullNodesSuffice(free: seq<nat>, row: Row, m: nat)
    requires |row| == |free|
    requires forall i :: 0 <= i < |row| && row[i] ==> free[i] >= m
    ensures Capacity(free, m) >= m * Ones(row)
  {
    if free != [] {
      FullNodesSuffice(free[1..], row[1..], m);
    }
  }

  /** One block placed by the rule leaves enough room for the rest exactly when there was enough room before. */
  lemma MostFreeKeepsRoom(free: seq<nat>, row: Row, m: nat)
    requires MostFree(free, row) && m > 0
    ensures Room(free, m) <==> Room(Take(free, row), m - 1)
  {
    CapacityDrop(free, row, m);
    OnesMonotone(row, Enlarged(free, row, m));
    if exists j :: 0 <= j < |row| && !row[j] && free[j] >= m {
      FullNodesSuffice(Take(free, row), row, m - 1);
    } else {
      assert Enlarged(free, row, m) == row;
    }
  }

  /** No placement whatever can exceed the capacity. */
  lemma {:induction false} PlaceableNeedsRoom(free: seq<nat>, rows: seq<Row>)
    requires Placeable(free, rows)
    ensures Room(free, |rows|)
    decreases |rows|
  {
    if rows != [] {
      PlaceableNeedsRoom(Take(free, rows[0]), rows[1..]);
      CapacityDrop(free, rows[0], |rows|);
      OnesMonotone(rows[0], Enlarged(free, rows[0], |rows|));
    }
  }

  function NonFull(free: seq<nat>): (r: Row)
    ensures |r| == |free|
  {
    seq(|free|, i requires 0 <= i < |free| => free[i] > 0)
  }

  lemma {:induction false} RoomNeedsNodes(free: seq<nat>, m: nat)
    ensures Capacity(free, m) <= m * Ones(NonFull(free))
  {
    if free != [] {
      RoomNeedsNodes(free[1..], m);
      assert NonFull(free)[1..] == NonFull(free[1..]);
      var ones := Ones(NonFull(free[1..]));
      assert m * (1 + ones) == m + m * ones;
    }
  }

  /** The free counts of any two nodes differ by at most d. */
  predicate Balanced(free: seq<nat>, d: nat) {
    forall i, j :: 0 <= i < |free| && 0 <= j < |free| ==> free[i] <= free[j] + d
  }

  lemma MostFreeKeepsBalance(free: seq<nat>, row: Row, d: nat)
    requires MostFree(free, row) && Balanced(free, d) && d >= 1
    ensures Balanced(Take(free, row), d)
  {
  }
}
