/** The node collection as a table of bitmaps, and block copies as references to slots. */
module NodeTable {
  import opened Bytes
  import opened NodeBitmap

  datatype Copy = Copy(nodeId: NodeId, slot: nat)

  type Table = map<NodeId, NodeDoc>

  predicate GoodTable(t: Table) {
    forall id :: id in t ==> WellSized(t[id])
  }

  predicate InRange(t: Table, c: Copy) {
    c.nodeId in t && c.slot < t[c.nodeId].count
  }

  predicate AllKnown(t: Table, copies: seq<Copy>) {
    forall i :: 0 <= i < |copies| ==> copies[i].nodeId in t
  }

  predicate AllInRange(t: Table, copies: seq<Copy>) {
    forall i :: 0 <= i < |copies| ==> InRange(t, copies[i])
  }

  predicate IsUsed(t: Table, c: Copy)
    requires GoodTable(t)
  {
    InRange(t, c) && t[c.nodeId].bits[c.slot]
  }

  function MarkCopy(t: Table, c: Copy, used: bool): (r: Table)
    requires GoodTable(t) && c.nodeId in t
    ensures GoodTable(r) && r.Keys == t.Keys && forall id :: id in t ==> r[id].count == t[id].count
  {
    t[c.nodeId := Mark(t[c.nodeId], c.slot, used)]
  }

  /** Marking the slots of a list of copies one after another. */
  function MarkAll(t: Table, copies: seq<Copy>, used: bool): (r: Table)
    requires GoodTable(t) && AllKnown(t, copies)
    ensures GoodTable(r) && r.Keys == t.Keys && forall id :: id in t ==> r[id].count == t[id].count
  {
    if copies == [] then t else MarkAll(MarkCopy(t, copies[0], used), copies[1..], used)
  }

  lemma {:induction false} MarkAllAppend(t: Table, a: seq<Copy>, b: seq<Copy>, used: bool)
    requires GoodTable(t) && AllKnown(t, a) && AllKnown(t, b)
    ensures MarkAll(t, a + b, used) == MarkAll(MarkAll(t, a, used), b, used)
  {
    if a == [] {
      assert a + b == b;
    } else {
      var t1 := MarkCopy(t, a[0], used);
      assert (a + b)[1..] == a[1..] + b && (a + b)[0] == a[0];
      MarkAllAppend(t1, a[1..], b, used);
    }
  }

  lemma MarkNone(t: Table, used: bool)
    requires GoodTable(t)
    ensures MarkAll(t, [], used) == t
  {
  }

  lemma MarkOneMore(t: Table, copies: seq<Copy>, c: Copy, used: bool)
    requires GoodTable(t) && AllKnown(t, copies) && c.nodeId in t
    ensures AllKnown(t, copies + [c])
    ensures MarkAll(t, copies + [c], used) == MarkCopy(MarkAll(t, copies, used), c, used)
  {
    MarkAllAppend(t, copies, [c], used);
  }

  predicate OnDistinctNodes(copies: seq<Copy>) {
    forall i, j :: 0 <= i < j < |copies| ==> copies[i].nodeId != copies[j].nodeId
  }

  lemma {:induction false} MarkAllOnDistinctNodes(t: Table, copies: seq<Copy>, used: bool, id: NodeId)
    requires GoodTable(t) && AllKnown(t, copies) && OnDistinctNodes(copies) && id in t
    ensures forall i :: 0 <= i < |copies| && copies[i].nodeId == id ==>
      MarkAll(t, copies, used)[id] == Mark(t[id], copies[i].slot, used)
    ensures (forall i :: 0 <= i < |copies| ==> copies[i].nodeId != id) ==> MarkAll(t, copies, used)[id] == t[id]
  {
    if copies != [] {
      MarkAllOnDistinctNodes(MarkCopy(t, copies[0], used), copies[1..], used, id);
      assert forall i :: 1 <= i < |copies| ==> copies[i] == copies[1..][i - 1];
    }
  }

  lemma {:induction false} BitAfterMarkAll(t: Table, copies: seq<Copy>, used: bool, id: NodeId, s: nat)
    requires GoodTable(t) && AllInRange(t, copies) && id in t && s < |t[id].bits|
    ensures MarkAll(t, copies, used)[id].bits[s] == if Copy(id, s) in copies then used else t[id].bits[s]
  {
    if copies != [] {
      BitAfterMarkAll(MarkCopy(t, copies[0], used), copies[1..], used, id, s);
    }
  }

  /** Exactly the marked slots change. */
  lemma UsedAfterMarkAll(t: Table, copies: seq<Copy>, used: bool)
    requires GoodTable(t) && AllInRange(t, copies)
    ensures forall c :: IsUsed(MarkAll(t, copies, used), c) <==> if c in copies then used else IsUsed(t, c)
  {
    forall c ensures IsUsed(MarkAll(t, copies, used), c) <==> if c in copies then used else IsUsed(t, c) {
      if InRange(t, c) {
        BitAfterMarkAll(t, copies, used, c.nodeId, c.slot);
        assert c == Copy(c.nodeId, c.slot);
      }
    }
  }

  /** Freeing slots that were free before they were taken restores the very same table. */
  lemma FreeingUndoesTaking(t: Table, copies: seq<Copy>)
    requires GoodTable(t) && AllInRange(t, copies)
    requires forall c :: c in copies ==> !IsUsed(t, c)
    ensures MarkAll(MarkAll(t, copies, true), copies, false) == t
  {
    var t1 := MarkAll(t, copies, true);
    var t2 := MarkAll(t1, copies, false);
    forall id | id in t ensures t2[id] == t[id] {
      forall s: nat | s < |t[id].bits| ensures t2[id].bits[s] == t[id].bits[s] {
        BitAfterMarkAll(t, copies, true, id, s);
        BitAfterMarkAll(t1, copies, false, id, s);
        if Copy(id, s) in copies {
          assert !IsUsed(t, Copy(id, s));
        }
      }
      assert t2[id].bits == t[id].bits;
    }
  }

  /** Marking works node by node: tables that agree on a node still agree on it afterwards. */
  lemma {:induction false} MarkAllAgrees(t: Table, u: Table, copies: seq<Copy>, used: bool, id: NodeId)
    requires GoodTable(t) && GoodTable(u) && AllKnown(t, copies) && AllKnown(u, copies)
    requires id in t && id in u && t[id] == u[id]
    ensures MarkAll(t, copies, used)[id] == MarkAll(u, copies, used)[id]
  {
    if copies != [] {
      MarkAllAgrees(MarkCopy(t, copies[0], used), MarkCopy(u, copies[0], used), copies[1..], used, id);
    }
  }

  lemma {:induction false} MarkAllElsewhere(t: Table, copies: seq<Copy>, used: bool, id: NodeId)
    requires GoodTable(t) && AllKnown(t, copies) && id in t
    requires forall i :: 0 <= i < |copies| ==> copies[i].nodeId != id
    ensures MarkAll(t, copies, used)[id] == t[id]
  {
    if copies != [] {
      MarkAllElsewhere(MarkCopy(t, copies[0], used), copies[1..], used, id);
    }
  }

  /** The table t with the documents of the nodes of some copies replaced by those of u. */
  function WithNodesOf(t: Table, u: Table, copies: seq<Copy>): (r: Table)
    requires u.Keys == t.Keys
    ensures r.Keys == t.Keys
  {
    map id | id in t :: if exists i :: 0 <= i < |copies| && copies[i].nodeId == id then u[id] else t[id]
  }

  /** Marking changes no node that has none of the copies. */
  lemma MarkAllIsLocal(t: Table, copies: seq<Copy>, used: bool)
    requires GoodTable(t) && AllKnown(t, copies)
    ensures WithNodesOf(t, MarkAll(t, copies, used), copies) == MarkAll(t, copies, used)
  {
    forall id | id in t && forall i :: 0 <= i < |copies| ==> copies[i].nodeId != id
      ensures MarkAll(t, copies, used)[id] == t[id]
    {
      MarkAllElsewhere(t, copies, used, id);
    }
  }
}
