/** Which slots the stored files use, and what every change of the node and file collections keeps. */
module Allocation {
  import opened Bytes
  import opened NodeBitmap
  import opened NodeTable

  import opened DirTree

  type FileId = string

  /** The document kept in the file collection: for every block, its copies. */
  datatype File = File(name: string, parentId: DirId, size: nat, blocks: seq<seq<Copy>>)

  type Files = map<FileId, File>

  datatype BlockRef = BlockRef(file: FileId, index: nat)

  predicate IsBlock(files: Files, r: BlockRef) {
    r.file in files && r.index < |files[r.file].blocks|
  }

  predicate Holds(files: Files, r: BlockRef, c: Copy) {
    IsBlock(files, r) && c in files[r.file].blocks[r.index]
  }

  /** Every copy refers to a slot in range that is marked used, every used slot is referred to by exactly one copy,
      and the copies of a block are on different nodes. */
  ghost predicate Consistent(nodes: Table, files: Files) {
    && GoodTable(nodes)
    && (forall r, c :: Holds(files, r, c) ==> IsUsed(nodes, c))
    && (forall r, q, c :: Holds(files, r, c) && Holds(files, q, c) ==> r == q)
    && (forall c :: IsUsed(nodes, c) ==> exists r :: Holds(files, r, c))
    && forall r :: IsBlock(files, r) ==> OnDistinctNodes(files[r.file].blocks[r.index])
  }

  lemma {:induction false} DistinctParts<T>(parts: seq<seq<T>>, x: T, b: nat, d: nat)
    requires Distinct(Flatten(parts)) && b < |parts| && d < |parts| && x in parts[b] && x in parts[d]
    ensures b == d
  {
    var rest := parts[1..];
    DistinctSplit(parts[0], Flatten(rest));
    InFlatten(rest, x);
    if b > 0 && d > 0 {
      DistinctParts(rest, x, b - 1, d - 1);
    } else {
      assert forall e :: 0 < e < |parts| ==> rest[e - 1] == parts[e];
    }
  }

  lemma HoldsFlatten(files: Files, id: FileId, c: Copy)
    requires id in files
    ensures c in Flatten(files[id].blocks) <==> exists b: nat :: Holds(files, BlockRef(id, b), c)
  {
    InFlatten(files[id].blocks, c);
    if c in Flatten(files[id].blocks) {
      var b :| 0 <= b < |files[id].blocks| && c in files[id].blocks[b];
      assert Holds(files, BlockRef(id, b), c);
    }
  }

  /** All copies of a file refer to slots in range. */
  lemma FileInRange(nodes: Table, files: Files, id: FileId)
    requires Consistent(nodes, files) && id in files
    ensures AllInRange(nodes, Flatten(files[id].blocks))
  {
    var flat := Flatten(files[id].blocks);
    forall i | 0 <= i < |flat| ensures InRange(nodes, flat[i]) {
      HoldsFlatten(files, id, flat[i]);
    }
  }

  lemma AddFile(nodes: Table, files: Files, id: FileId, file: File)
    requires Consistent(nodes, files) && id !in files
    requires AllInRange(nodes, Flatten(file.blocks)) && Distinct(Flatten(file.blocks))
    requires forall c :: c in Flatten(file.blocks) ==> !IsUsed(nodes, c)
    requires forall b :: 0 <= b < |file.blocks| ==> OnDistinctNodes(file.blocks[b])
    ensures Consistent(MarkAll(nodes, Flatten(file.blocks), true), files[id := file])
  {
    hide MarkAll, IsUsed;
    var flat := Flatten(file.blocks);
    var nodes', files' := MarkAll(nodes, flat, true), files[id := file];
    UsedAfterMarkAll(nodes, flat, true);
    forall r, c | Holds(files', r, c)
      ensures IsUsed(nodes', c) && (r.file == id <==> c in flat) && (r.file != id ==> Holds(files, r, c))
    {
      HoldsFlatten(files', id, c);
      if r.file == id {
        assert r == BlockRef(id, r.index);
      } else {
        assert Holds(files, r, c);
      }
    }
    forall r, q, c | Holds(files', r, c) && Holds(files', q, c) ensures r == q {
      if r.file == id {
        DistinctParts(file.blocks, c, r.index, q.index);
      }
    }
    forall c | IsUsed(nodes', c) ensures exists r :: Holds(files', r, c) {
      if c in flat {
        HoldsFlatten(files', id, c);
      } else {
        var r :| Holds(files, r, c);
        assert Holds(files', r, c);
      }
    }
  }

  lemma RemoveFile(nodes: Table, files: Files, id: FileId)
    requires Consistent(nodes, files) && id in files
    ensures AllInRange(nodes, Flatten(files[id].blocks))
    ensures Consistent(MarkAll(nodes, Flatten(files[id].blocks), false), files - {id})
  {
    FileInRange(nodes, files, id);
    hide MarkAll, IsUsed;
    var flat := Flatten(files[id].blocks);
    var nodes', files' := MarkAll(nodes, flat, false), files - {id};
    UsedAfterMarkAll(nodes, flat, false);
    forall r, c | Holds(files', r, c) ensures Holds(files, r, c) && IsUsed(nodes', c) {
      HoldsFlatten(files, id, c);
    }
    forall c | IsUsed(nodes', c) ensures exists r :: Holds(files', r, c) {
      var r :| Holds(files, r, c);
      HoldsFlatten(files, id, c);
      assert Holds(files', r, c);
    }
  }

  function WithBlock(files: Files, r: BlockRef, copies: seq<Copy>): (files': Files)
    requires IsBlock(files, r)
    ensures files'.Keys == files.Keys
    ensures forall q :: IsBlock(files', q) <==> IsBlock(files, q)
    ensures forall q, c :: Holds(files', q, c) <==> if q == r then c in copies else Holds(files, q, c)
  {
    files[r.file := files[r.file].(blocks := files[r.file].blocks[r.index := copies])]
  }

  lemma HoldsAdded(files: Files, r: BlockRef, c: Copy)
    requires IsBlock(files, r)
    ensures var files' := WithBlock(files, r, files[r.file].blocks[r.index] + [c]);
      forall q, d :: Holds(files', q, d) <==> Holds(files, q, d) || (q == r && d == c)
  {
    var kept := files[r.file].blocks[r.index];
    assert forall d :: d in kept + [c] <==> d in kept || d == c;
    hide WithBlock;
  }

  lemma StillDistinct(files: Files, r: BlockRef, copies: seq<Copy>)
    requires IsBlock(files, r) && OnDistinctNodes(copies)
    requires forall q :: IsBlock(files, q) ==> OnDistinctNodes(files[q.file].blocks[q.index])
    ensures var files' := WithBlock(files, r, copies);
      forall q :: IsBlock(files', q) ==> OnDistinctNodes(files'[q.file].blocks[q.index])
  {
    var files' := WithBlock(files, r, copies);
    forall q | IsBlock(files', q) ensures OnDistinctNodes(files'[q.file].blocks[q.index]) {
      assert IsBlock(files, q);
      assert files'[q.file].blocks[q.index] == if q == r then copies else files[q.file].blocks[q.index];
    }
  }

  lemma AddCopy(nodes: Table, files: Files, r: BlockRef, c: Copy)
    requires Consistent(nodes, files) && IsBlock(files, r)
    requires InRange(nodes, c) && !IsUsed(nodes, c)
    requires forall d :: d in files[r.file].blocks[r.index] ==> d.nodeId != c.nodeId
    ensures Consistent(MarkCopy(nodes, c, true), WithBlock(files, r, files[r.file].blocks[r.index] + [c]))
  {
    var copies := files[r.file].blocks[r.index] + [c];
    var nodes', files' := MarkCopy(nodes, c, true), WithBlock(files, r, copies);
    assert nodes' == MarkAll(nodes, [c], true);
    UsedAfterMarkAll(nodes, [c], true);
    assert forall d :: IsUsed(nodes', d) <==> d == c || IsUsed(nodes, d);
    HoldsAdded(files, r, c);
    StillDistinct(files, r, copies);
    hide WithBlock, MarkAll, MarkCopy, IsUsed, Holds, IsBlock, OnDistinctNodes;
    forall q | Holds(files', q, c) ensures q == r {
      assert !Holds(files, q, c);
    }
    forall d | IsUsed(nodes', d) ensures exists q :: Holds(files', q, d) {
      if d == c {
        assert Holds(files', r, d);
      } else {
        var q :| Holds(files, q, d);
        assert Holds(files', q, d);
      }
    }
  }

  /** A list of copies without some of them. */
  function Without(copies: seq<Copy>, gone: set<Copy>): (r: seq<Copy>)
    ensures forall d :: d in r <==> d in copies && d !in gone
    ensures OnDistinctNodes(copies) ==> OnDistinctNodes(r)
  {
    if copies == [] then [] else
    var rest := Without(copies[1..], gone);
    assert OnDistinctNodes(copies) ==> OnDistinctNodes(copies[1..]);
    assert OnDistinctNodes(copies) ==> forall d :: d in copies[1..] ==> d.nodeId != copies[0].nodeId;
    assert copies == [copies[0]] + copies[1..];
    if copies[0] in gone then rest else [copies[0]] + rest
  }

  lemma {:induction false} WithoutTwice(copies: seq<Copy>, a: set<Copy>, b: set<Copy>)
    ensures Without(Without(copies, a), b) == Without(copies, a + b)
  {
    if copies != [] {
      WithoutTwice(copies[1..], a, b);
      var rest := Without(copies[1..], a);
      assert ([copies[0]] + rest)[1..] == rest;
    }
  }

  lemma {:induction false} WithoutNone(copies: seq<Copy>, gone: set<Copy>)
    requires forall c :: c in copies ==> c !in gone
    ensures Without(copies, gone) == copies
  {
    if copies != [] {
      WithoutNone(copies[1..], gone);
    }
  }

  /** What $pull leaves of a list of copies. */
  function Pull(copies: seq<Copy>, c: Copy): (r: seq<Copy>)
    ensures forall d :: d in r <==> d in copies && d != c
    ensures OnDistinctNodes(copies) ==> OnDistinctNodes(r)
  {
    Without(copies, {c})
  }

  lemma RemoveCopy(nodes: Table, files: Files, r: BlockRef, c: Copy)
    requires Consistent(nodes, files) && Holds(files, r, c)
    ensures Consistent(MarkCopy(nodes, c, false), WithBlock(files, r, Pull(files[r.file].blocks[r.index], c)))
  {
    var copies := Pull(files[r.file].blocks[r.index], c);
    var nodes', files' := MarkCopy(nodes, c, false), WithBlock(files, r, copies);
    assert nodes' == MarkAll(nodes, [c], false);
    UsedAfterMarkAll(nodes, [c], false);
    assert forall d :: IsUsed(nodes', d) <==> d != c && IsUsed(nodes, d);
    StillDistinct(files, r, copies);
    assert forall q, d :: Holds(files', q, d) <==> Holds(files, q, d) && !(q == r && d == c);
    hide WithBlock, MarkAll, MarkCopy, IsUsed, Holds, IsBlock, OnDistinctNodes;
    forall d | IsUsed(nodes', d) ensures exists q :: Holds(files', q, d) {
      var q :| Holds(files, q, d);
      assert Holds(files', q, d);
    }
  }

  function DropNodeCopies(copies: seq<Copy>, id: NodeId): (r: seq<Copy>)
    ensures forall d :: d in r <==> d in copies && d.nodeId != id
    ensures OnDistinctNodes(copies) ==> OnDistinctNodes(r)
  {
    Without(copies, OnNode(copies, id))
  }

  function OnNode(copies: seq<Copy>, id: NodeId): set<Copy> {
    set c | c in copies && c.nodeId == id
  }

  lemma OneOnNode(copies: seq<Copy>, k: nat, id: NodeId)
    requires k < |copies|
    ensures OnNode(copies[..k + 1], id) == OnNode(copies[..k], id) + if copies[k].nodeId == id then {copies[k]} else {}
  {
    assert copies[..k + 1] == copies[..k] + [copies[k]];
  }

  /** Pulling, one after another, every copy on the node. */
  method PullNodeCopies(copies: seq<Copy>, id: NodeId) returns (left: seq<Copy>)
    ensures left == DropNodeCopies(copies, id)
  {
    left := copies;
    ghost var gone: set<Copy> := {};
    WithoutNone(copies, {});
    var k := 0;
    hide Without;
    while k < |copies|
      invariant 0 <= k <= |copies|
      invariant gone == OnNode(copies[..k], id)
      invariant left == Without(copies, gone)
    {
      OneOnNode(copies, k, id);
      if copies[k].nodeId == id {
        WithoutTwice(copies, gone, {copies[k]});
        left := Pull(left, copies[k]);
        gone := gone + {copies[k]};
      }
      k := k + 1;
    }
    assert copies[..k] == copies;
  }

  method PullNodeBlocks(blocks: seq<seq<Copy>>, id: NodeId) returns (left: seq<seq<Copy>>)
    ensures left == DropNodeBlocks(blocks, id)
  {
    left := [];
    var b := 0;
    while b < |blocks|
      invariant 0 <= b <= |blocks|
      invariant left == DropNodeBlocks(blocks[..b], id)
    {
      var copies := PullNodeCopies(blocks[b], id);
      left := left + [copies];
      b := b + 1;
    }
    assert blocks[..b] == blocks;
  }

  function DropNodeBlocks(blocks: seq<seq<Copy>>, id: NodeId): (r: seq<seq<Copy>>)
    ensures |r| == |blocks|
  {
    seq(|blocks|, i requires 0 <= i < |blocks| => DropNodeCopies(blocks[i], id))
  }

  /** The file collection after every copy on one node is pulled. */
  function DropNode(files: Files, id: NodeId): (r: Files)
    ensures forall q, c :: Holds(r, q, c) <==> Holds(files, q, c) && c.nodeId != id
  {
    map f | f in files :: files[f].(blocks := DropNodeBlocks(files[f].blocks, id))
  }

  /** A known node that says it is new loses its copies and gets an empty bitmap of the announced size. */
  lemma FormatNode(nodes: Table, files: Files, id: NodeId, count: nat)
    requires Consistent(nodes, files)
    ensures Consistent(nodes[id := FreshDoc(count)], DropNode(files, id))
  {
    var nodes', files' := nodes[id := FreshDoc(count)], DropNode(files, id);
    forall c ensures IsUsed(nodes', c) <==> IsUsed(nodes, c) && c.nodeId != id {
      if c.nodeId == id && InRange(nodes', c) {
        assert c.slot !in UsedSlots(nodes'[id]);
      }
    }
    forall c | IsUsed(nodes', c) ensures exists r :: Holds(files', r, c) {
      var r :| Holds(files, r, c);
      assert Holds(files', r, c);
    }
  }

  lemma NewNode(nodes: Table, files: Files, id: NodeId, count: nat)
    requires Consistent(nodes, files) && id !in nodes
    ensures Consistent(nodes[id := FreshDoc(count)], files)
  {
    var nodes' := nodes[id := FreshDoc(count)];
    forall c ensures IsUsed(nodes', c) <==> IsUsed(nodes, c) {
      if c.nodeId == id && InRange(nodes', c) {
        assert c.slot !in UsedSlots(nodes'[id]);
      }
    }
  }

  function Formatted(nodes: Table): Table {
    map id | id in nodes :: FreshDoc(nodes[id].count)
  }

  lemma FormatAll(nodes: Table)
    ensures Consistent(Formatted(nodes), map[])
  {
    forall c ensures !IsUsed(Formatted(nodes), c) {
      if InRange(nodes, c) {
        assert c.slot !in UsedSlots(FreshDoc(nodes[c.nodeId].count));
      }
    }
  }

  function UsedSet(nodes: Table): (r: set<Copy>)
    requires GoodTable(nodes)
    ensures forall c :: c in r <==> IsUsed(nodes, c)
  {
    set id, s | id in nodes && s in UsedSlots(nodes[id]) :: Copy(id, s)
  }

  ghost function PickFile(files: Files): (id: FileId)
    requires files != map[]
    ensures id in files
  {
    var id :| id in files; id
  }

  lemma SmallerWithout(files: Files, id: FileId)
    requires id in files
    ensures |files - {id}| == |files| - 1
  {
    assert (files - {id}).Keys == files.Keys - {id};
  }

  /** The number of block copies listed in the whole file collection. */
  ghost function TotalCopies(files: Files): nat
    decreases |files|
  {
    if files == map[] then 0 else
    var id := PickFile(files);
    SmallerWithout(files, id);
    |Flatten(files[id].blocks)| + TotalCopies(files - {id})
  }

  lemma {:induction false} FlatDistinct(parts: seq<seq<Copy>>)
    requires forall b :: 0 <= b < |parts| ==> OnDistinctNodes(parts[b])
    requires forall b, d, c :: 0 <= b < |parts| && 0 <= d < |parts| && c in parts[b] && c in parts[d] ==> b == d
    ensures Distinct(Flatten(parts))
  {
    if parts != [] {
      var rest := parts[1..];
      forall b, d, c | 0 <= b < |rest| && 0 <= d < |rest| && c in rest[b] && c in rest[d] ensures b == d {
        assert c in parts[b + 1] && c in parts[d + 1];
      }
      FlatDistinct(rest);
      forall c | c in parts[0] ensures c !in Flatten(rest) {
        InFlatten(rest, c);
        assert forall b :: 0 <= b < |rest| ==> rest[b] == parts[b + 1];
      }
      assert OnDistinctNodes(parts[0]) && Distinct(parts[0]);
      DistinctAppend(parts[0], Flatten(rest));
    }
  }

  lemma {:induction false} DistinctSet<T>(a: seq<T>)
    requires Distinct(a)
    ensures |set x | x in a| == |a|
  {
    if a != [] {
      DistinctSet(a[1..]);
      assert (set x | x in a) == (set x | x in a[1..]) + {a[0]};
    }
  }

  lemma FileDistinct(nodes: Table, files: Files, id: FileId)
    requires Consistent(nodes, files) && id in files
    ensures Distinct(Flatten(files[id].blocks))
  {
    var parts := files[id].blocks;
    forall b, d, c | 0 <= b < |parts| && 0 <= d < |parts| && c in parts[b] && c in parts[d] ensures b == d {
      assert Holds(files, BlockRef(id, b), c) && Holds(files, BlockRef(id, d), c);
    }
    forall b | 0 <= b < |parts| ensures OnDistinctNodes(parts[b]) {
      assert IsBlock(files, BlockRef(id, b));
    }
    FlatDistinct(parts);
  }

  /** As many slots are marked used as there are block copies. */
  lemma {:induction false} UsedSlotsEqualCopies(nodes: Table, files: Files)
    requires Consistent(nodes, files)
    ensures |UsedSet(nodes)| == TotalCopies(files)
    decreases |files|
  {
    hide IsUsed, MarkAll, Distinct, UsedSet;
    if files == map[] {
      assert UsedSet(nodes) == {};
    } else {
      var id := PickFile(files);
      var flat := Flatten(files[id].blocks);
      RemoveFile(nodes, files, id);
      var nodes' := MarkAll(nodes, flat, false);
      UsedAfterMarkAll(nodes, flat, false);
      SmallerWithout(files, id);
      UsedSlotsEqualCopies(nodes', files - {id});
      FileDistinct(nodes, files, id);
      DistinctSet(flat);
      forall c | c in flat ensures IsUsed(nodes, c) {
        HoldsFlatten(files, id, c);
      }
      UsedSplit(nodes, nodes', flat);
    }
  }

  lemma UsedSplit(nodes: Table, nodes': Table, flat: seq<Copy>)
    requires GoodTable(nodes) && GoodTable(nodes') && forall c :: c in flat ==> IsUsed(nodes, c)
    requires forall c :: IsUsed(nodes', c) <==> if c in flat then false else IsUsed(nodes, c)
    ensures |UsedSet(nodes)| == |UsedSet(nodes')| + |set c | c in flat|
  {
    hide IsUsed, UsedSet;
    var copies := set c | c in flat;
    assert UsedSet(nodes) == UsedSet(nodes') + copies;
    assert UsedSet(nodes') !! copies;
  }
}
