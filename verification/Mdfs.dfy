/** The file system process: files cut into blocks, copies on nodes, and the two document collections that say where
    everything is (FileSystem/src/filesystem/filesystem.c). */
module Mdfs {
  import opened Bytes
  import opened NodeBitmap
  import opened NodeTable
  import opened Placement
  import opened Planner
  import opened Allocation
  import opened SlotStore
  import opened Disks
  import opened DirTree
  import Splitter

  datatype LocalFile = Missing | Content(text: Text)

  /** The return codes 1, -1, -2, -3 and -4 of filesystem_copyFileFromFS, and the call that never returns because the
      splitter hangs. */
  datatype CopyResult = Done | NameTaken | NoLocalFile | NotPlaced | NotSaved | NeverReturns

  /** The return codes 1, -1, -2 and -3 of filesystem_makeNewFileBlockCopy; Garbled stands for a read that runs off a
      slot without terminator. */
  datatype BlockCopyResult = Copied | BadBlockIndex | AllDown | NoCandidate | Garbled

  datatype FileContent = Complete(text: Text) | Unavailable | GarbledFile

  /** No copy reads more than was stored for its block, and those of the intact files read exactly that. */
  ghost predicate Faithful(n: nat, files: Files, disks: Disks, stored: map<FileId, seq<Text>>, intact: set<FileId>) {
    && stored.Keys == files.Keys && intact <= files.Keys
    && (forall id :: id in files ==> |stored[id]| == |files[id].blocks|)
    && forall r, c :: Holds(files, r, c) ==> ReadsAs(ReadCopy(n, disks, c), stored[r.file][r.index], r.file in intact)
  }

  predicate ReadsAs(read: Read, text: Text, exactly: bool) {
    if exactly then read == Found(text) else read.Found? ==> |read.text| <= |text|
  }

  /** The files with a copy behind a slot that has been filled, if there is a text to lose. */
  ghost function Spoiled(n: nat, files: Files, disks: Disks, full: seq<Copy>): set<FileId> {
    set f | f in files && exists r, c ::
      Holds(files, r, c) && r.file == f && Behind(full, c) && ReadCopy(n, disks, c) != Found([])
  }

  /** The copies of a file read as before. */
  ghost predicate SameReads(n: nat, files: Files, before: Disks, after: Disks, f: FileId) {
    forall r, c :: Holds(files, r, c) && r.file == f ==> ReadCopy(n, after, c) == ReadCopy(n, before, c)
  }

  predicate HasLiveCopy(copies: seq<Copy>, live: set<NodeId>) {
    exists i :: 0 <= i < |copies| && copies[i].nodeId in live
  }

  /** Every block has a copy on one of the live nodes. */
  predicate Available(blocks: seq<seq<Copy>>, live: set<NodeId>) {
    forall b :: 0 <= b < |blocks| ==> HasLiveCopy(blocks[b], live)
  }

  /** The holders that do not answer. */
  function Silent(copies: seq<Copy>, answering: set<NodeId>): set<NodeId> {
    set c | c in copies && c.nodeId !in answering :: c.nodeId
  }

  predicate NameFree(dirs: Dirs, files: Files, name: string, parentId: DirId) {
    && (forall id :: id in dirs ==> !(dirs[id].name == name && dirs[id].parentId == parentId))
    && forall id :: id in files ==> !(files[id].name == name && files[id].parentId == parentId)
  }

  /** A list that names each of the given nodes once. */
  ghost predicate IsOrder(order: seq<NodeId>, ids: set<NodeId>) {
    Distinct(order) && forall id :: id in order <==> id in ids
  }

  class FileSystem {
    const n: nat
    var nodes: Table
    var files: Files
    var dirs: Dirs
    /** Nodes take part once the console activates them; a node that connects or is deactivated waits in standby. */
    var active: set<NodeId>
    var standby: set<NodeId>
    var disks: Disks
    /** The text of every block of every file, as it was stored. */
    ghost var stored: map<FileId, seq<Text>>
    /** The files whose copies all read as they were stored. */
    ghost var intact: set<FileId>

    ghost predicate Valid()
      reads this
    {
      && 2 <= n
      && Consistent(nodes, files)
      && GoodDisks(n, nodes, disks)
      && active <= nodes.Keys && standby <= nodes.Keys && active !! standby && stored.Keys == files.Keys
      && Faithful(n, files, disks, stored, intact)
    }

    constructor (n: nat)
      requires 2 <= n
      ensures Valid() && this.n == n && files == map[] && nodes == map[] && stored == map[] && intact == {}
    {
      this.n := n;
      nodes, files, dirs, active, standby, disks := map[], map[], map[], {}, {}, map[];
      stored, intact := map[], {};
    }

    /** The node objects of the active nodes, made from the collection. */
    method GetAllActivatedNodes() returns (list: seq<Node>)
      requires Valid()
      ensures GoodList(list) && fresh(set x | x in list)
      ensures IsOrder(Ids(list), active)
      ensures Docs(list).Keys == active && forall id :: id in active ==> Docs(list)[id] == nodes[id]
    {
      list := [];
      var rest := active;
      while rest != {}
        invariant rest <= active
        invariant GoodList(list) && fresh(set x | x in list)
        invariant forall x :: x in list ==> x.id in active - rest && x.Doc() == nodes[x.id]
        invariant forall id :: id in active - rest ==> id in Ids(list)
      {
        var id :| id in rest;
        var x := new Node.FromDoc(id, nodes[id]);
        ghost var before := Ids(list);
        list := list + [x];
        assert Ids(list) == before + [id];
        rest := rest - {id};
      }
      IdsOf(list);
    }

    /** Frees the slots of the copies of one block, one node document at a time. */
    method FreeBlockCopies(copies: seq<Copy>)
      requires GoodTable(nodes) && AllKnown(nodes, copies)
      modifies this`nodes
      ensures GoodTable(nodes) && nodes == MarkAll(old(nodes), copies, false)
    {
      hide MarkAll, WellSized, Mark;
      var k := 0;
      MarkNone(nodes, false);
      while k < |copies|
        invariant 0 <= k <= |copies|
        invariant GoodTable(nodes) && nodes == MarkAll(old(nodes), copies[..k], false)
      {
        var copy := copies[k];
        MarkOneMore(old(nodes), copies[..k], copy, false);
        assert copies[..k] + [copy] == copies[..k + 1];
        assert WellSized(nodes[copy.nodeId]);
        var node := new Node.FromDoc(copy.nodeId, nodes[copy.nodeId]);
        node.SetBlockFree(copy.slot);
        nodes := nodes[copy.nodeId := node.Doc()];
        k := k + 1;
      }
      assert copies[..k] == copies;
    }

    method FreeCopies(blocks: seq<seq<Copy>>)
      requires GoodTable(nodes) && AllKnown(nodes, Flatten(blocks))
      modifies this`nodes
      ensures GoodTable(nodes) && nodes == MarkAll(old(nodes), Flatten(blocks), false)
    {
      hide MarkAll, WellSized;
      var b := 0;
      MarkNone(nodes, false);
      assert blocks[..|blocks|] == blocks;
      while b < |blocks|
        invariant 0 <= b <= |blocks|
        invariant AllKnown(old(nodes), Flatten(blocks[..b]))
        invariant GoodTable(nodes) && nodes == MarkAll(old(nodes), Flatten(blocks[..b]), false)
      {
        FlattenPrefix(blocks, b);
        KnownPart(old(nodes), blocks, b);
        MarkAllAppend(old(nodes), Flatten(blocks[..b]), blocks[b], false);
        FreeBlockCopies(blocks[b]);
        b := b + 1;
      }
    }

    /** Sends one block to the nodes of its copies. */
    method SendCopies(copies: seq<Copy>, packet: Text, net: Copy -> Outcome) returns (failed: bool)
      modifies this`disks, this`active
      ensures disks == SendBlock(n, old(disks), copies, packet, net)
      ensures active <= old(active) && (!failed ==> active == old(active))
      ensures !failed ==> forall c :: c in copies ==> net(c).Delivered?
      ensures (forall c :: net(c).Delivered?) ==> !failed
    {
      failed := false;
      ghost var goal := SendBlock(n, disks, copies, packet, net);
      var k := 0;
      while k < |copies|
        invariant 0 <= k <= |copies| && active <= old(active)
        invariant SendBlock(n, disks, copies[k..], packet, net) == goal
        invariant !failed ==> forall c :: c in copies[..k] ==> net(c).Delivered?
        invariant (forall c :: net(c).Delivered?) ==> !failed
        invariant !failed ==> active == old(active)
      {
        var copy := copies[k];
        assert copies[k..][1..] == copies[k + 1..];
        disks := SendOne(n, disks, copy, packet, net(copy));
        if !net(copy).Delivered? {
          failed := true;
          if net(copy).IsBroken() {
            active := active - {copy.nodeId};
          }
        }
        k := k + 1;
      }
    }

    /** Sends every block to the nodes of its copies. Transfers run in parallel, each to a slot of its own, and may
        be skipped once another one failed, so every outcome is left to the network. */
    method SendBlocks(plan: seq<seq<Copy>>, blocks: seq<Text>, net: Copy -> Outcome) returns (failed: bool)
      requires |plan| == |blocks|
      modifies this`disks, this`active
      ensures disks == SendPlan(n, old(disks), plan, blocks, net)
      ensures active <= old(active) && (!failed ==> active == old(active))
      ensures !failed ==> forall b, c :: 0 <= b < |plan| && c in plan[b] ==> net(c).Delivered?
      ensures (forall c :: net(c).Delivered?) ==> !failed
    {
      failed := false;
      ghost var goal := SendPlan(n, disks, plan, blocks, net);
      var b := 0;
      while b < |plan|
        invariant 0 <= b <= |plan| && active <= old(active)
        invariant SendPlan(n, disks, plan[b..], blocks[b..], net) == goal
        invariant !failed ==> forall d, c :: 0 <= d < b && c in plan[d] ==> net(c).Delivered?
        invariant (forall c :: net(c).Delivered?) ==> !failed
        invariant !failed ==> active == old(active)
      {
        assert plan[b..][1..] == plan[b + 1..] && blocks[b..][1..] == blocks[b + 1..];
        var blockFailed := SendCopies(plan[b], CString(blocks[b]), net);
        failed := failed || blockFailed;
        b := b + 1;
      }
    }

    /** Writes back the in-memory bitmaps of the nodes that took part in the plan. */
    method UpdateNodes(planned: Table, copies: seq<Copy>)
      requires GoodTable(nodes) && AllKnown(nodes, copies) && AllKnown(planned, copies)
      requires forall id :: id in planned && id in nodes ==> planned[id] == MarkAll(nodes, copies, true)[id]
      modifies this`nodes
      ensures nodes == MarkAll(old(nodes), copies, true)
    {
      hide MarkAll, WellSized;
      ghost var goal := MarkAll(nodes, copies, true);
      MarkAllIsLocal(nodes, copies, true);
      var i := 0;
      while i < |copies|
        invariant 0 <= i <= |copies|
        invariant nodes == WithNodesOf(old(nodes), goal, copies[..i])
      {
        var id := copies[i].nodeId;
        nodes := nodes[id := planned[id]];
        assert forall j :: 0 <= j < i ==> copies[..i + 1][j] == copies[..i][j];
        i := i + 1;
      }
      assert copies[..i] == copies;
    }

    /** The planning phase: nothing is saved yet, only the in-memory node objects hold the planned bitmaps. */
    method PlanOnActiveNodes(m: nat)
      returns (success: bool, plan: seq<seq<Copy>>, planned: Table, ghost order: seq<NodeId>)
      requires Valid()
      ensures IsOrder(order, active) && Listed(nodes, order)
      ensures success <==> Room(Counts(nodes, order), m)
      ensures success ==> |plan| == m && IsPlan(nodes, plan) && AllKnown(nodes, Flatten(plan))
      ensures success ==> planned.Keys == active && AllKnown(planned, Flatten(plan))
      ensures success ==> forall id :: id in active ==> planned[id] == MarkAll(nodes, Flatten(plan), true)[id]
    {
      var list := GetAllActivatedNodes();
      order := Ids(list);
      ghost var t0 := Docs(list);
      hide MarkAll, WellSized, Room, Consistent;
      success, plan := PlanBlocks(list, m);
      CountsTransfer(t0, nodes, order);
      planned := Docs(list);
      if success {
        PlanTransfers(t0, nodes, plan, planned);
      }
    }

    /** Plans the copies of every block, sends them, and records the slots as used only when everything was sent.
        order is the order in which the active nodes were listed. */
    method DistributeBlocksToNodes(blocks: seq<Text>, net: Copy -> Outcome)
      returns (success: bool, plan: seq<seq<Copy>>, ghost order: seq<NodeId>)
      requires Valid() && AllFit(n, blocks)
      modifies this`nodes, this`disks, this`active
      ensures IsOrder(order, old(active)) && active <= old(active)
      ensures success ==> |plan| == |blocks| && Planned(old(nodes), plan, nodes) && active == old(active)
      ensures success ==> forall c :: c in Flatten(plan) ==> c.nodeId in active
      ensures !success ==> nodes == old(nodes)
      ensures success ==> Room(Counts(old(nodes), order), |blocks|)
      ensures Room(Counts(old(nodes), order), |blocks|) && (forall c :: net(c).Delivered?) ==> success
      ensures GoodDisks(n, nodes, disks) && GoodDisks(n, old(nodes), disks)
      ensures forall c :: c in Flatten(plan) ==> !IsUsed(old(nodes), c)
      ensures ReadsKept(n, old(nodes), old(disks), disks, FullCopies(n, plan, blocks))
      ensures success ==> NextEmpty(n, old(nodes), disks, FullCopies(n, plan, blocks))
      ensures success ==> PlanReads(n, disks, plan, blocks, FullCopies(n, plan, blocks))
    {
      hide MarkAll, SendPlan, WellSized, Room, IsUsed, Consistent, Counts, ReadsKept, NextEmpty, PlanReads, AllFit,
        Faithful;
      var planned;
      success, plan, planned, order := PlanOnActiveNodes(|blocks|);
      if !success {
        plan := [];
        NothingChanged(n, nodes, disks);
        return;
      }
      PlanIsSent(n, nodes, disks, plan, blocks, net);
      var failed := SendBlocks(plan, blocks, net);
      if !failed {
        UpdateNodes(planned, Flatten(plan));
      }
      success := !failed;
    }

    /** Frees the slots of a stored file and removes it. */
    method DeleteFile(id: FileId)
      requires Valid() && id in files
      modifies this`nodes, this`files, this`stored, this`intact
      ensures Valid()
      ensures files == old(files) - {id} && stored == old(stored) - {id} && intact == old(intact) * stored.Keys
      ensures AllInRange(old(nodes), Flatten(old(files)[id].blocks))
      ensures nodes == MarkAll(old(nodes), Flatten(old(files)[id].blocks), false)
    {
      hide MarkAll, Consistent, GoodDisks, Faithful;
      TableIsGood(n, nodes, disks);
      RemoveFile(nodes, files, id);
      IntactStored(n, files, disks, stored, intact);
      FileGone(n, files, disks, stored, intact, id);
      StillGood(n, nodes, disks, Flatten(files[id].blocks), false);
      FreeCopies(files[id].blocks);
      files := files - {id};
      stored, intact := stored - {id}, intact - {id};
    }

    /** The second half of filesystem_copyFileFromFS: places and sends the blocks and inserts the file document. saved
        tells whether that insertion succeeds. order is the order in which the active nodes were listed, plan where the
        blocks went. A block that fills its slot empties the slot behind, and the files that lose a text there are no
        longer intact. */
    method StoreBlocks(blocks: seq<Text>, id: FileId, name: string, parentId: DirId, size: nat, net: Copy -> Outcome,
                       saved: bool)
      returns (r: CopyResult, plan: seq<seq<Copy>>, ghost order: seq<NodeId>)
      requires Valid() && id !in files && AllFit(n, blocks)
      modifies this`nodes, this`files, this`disks, this`active, this`stored, this`intact
      ensures Valid() && r in {Done, NotPlaced, NotSaved} && IsOrder(order, old(active))
      ensures r != Done ==> nodes == old(nodes) && files == old(files) && stored == old(stored)
      ensures r != NotPlaced ==> Room(Counts(old(nodes), order), |blocks|) && (r == Done <==> saved)
      ensures r == NotPlaced && (forall c :: net(c).Delivered?) ==> !Room(Counts(old(nodes), order), |blocks|)
      ensures r == Done ==> id in files && files == old(files)[id := files[id]] && |files[id].blocks| == |blocks|
      ensures r == Done ==> files[id] == File(name, parentId, size, plan)
      ensures r == Done ==> Planned(old(nodes), files[id].blocks, nodes) && active == old(active)
      ensures r == Done ==> forall c :: c in Flatten(files[id].blocks) ==> c.nodeId in active
      ensures r == Done ==> stored == old(stored)[id := Stored(blocks)]
      ensures forall c :: c in Flatten(plan) ==> !IsUsed(old(nodes), c)
      ensures intact == old(intact) - Spoiled(n, old(files), old(disks), FullCopies(n, plan, blocks)) +
        (if r == Done && AllShort(n, blocks) then {id} else {})
      ensures r != NotPlaced ==> forall f :: f in old(intact) ==>
        (f in intact <==> SameReads(n, old(files), old(disks), disks, f))
    {
      hide MarkAll, ReadCopy, IsUsed, Room, Counts, WellSized, AllShort, AllFit, Faithful, ReadsKept, NextEmpty,
        PlanReads;
      hide Consistent, CString, GoodDisks;
      hide SameReads, Spoiled, FullCopies;
      IntactStored(n, files, disks, stored, intact);
      var success;
      success, plan, order := DistributeBlocksToNodes(blocks, net);
      ghost var full := FullCopies(n, plan, blocks);
      FaithfulKept(n, old(nodes), files, old(disks), disks, stored, intact, full);
      intact := intact - Spoiled(n, files, old(disks), full);
      if !success {
        return NotPlaced, plan, order;
      }
      SpoiledExactly(n, old(nodes), files, old(disks), disks, full);
      if !saved {
        FreeCopies(plan);
        FreeingUndoesTaking(old(nodes), Flatten(plan));
        return NotSaved, plan, order;
      }
      var file := File(name, parentId, size, plan);
      AddFile(old(nodes), files, id, file);
      FaithfulGrows(n, files, disks, stored, id, file, blocks, intact, full);
      files := files[id := file];
      stored := stored[id := Stored(blocks)];
      intact := intact + if AllShort(n, blocks) then {id} else {};
      return Done, plan, order;
    }

    /** Copies a local file into the file system; id is the identifier generated for its document. */
    method CopyFileFromFS(content: LocalFile, id: FileId, name: string, parentId: DirId, net: Copy -> Outcome,
                          saved: bool)
      returns (r: CopyResult, ghost blocks: seq<Text>, ghost plan: seq<seq<Copy>>, ghost order: seq<NodeId>)
      requires Valid() && id !in files
      modifies this`nodes, this`files, this`disks, this`active, this`stored, this`intact
      ensures Valid()
      ensures r != Done ==> nodes == old(nodes) && files == old(files) && stored == old(stored)
      ensures r == NameTaken <==>
        (exists d :: d in dirs && dirs[d].name == name && dirs[d].parentId == parentId) ||
        exists f :: f in old(files) && old(files)[f].name == name && old(files)[f].parentId == parentId
      ensures r == NoLocalFile <==> r != NameTaken && content.Missing?
      ensures r == NeverReturns <==> r !in {NameTaken, NoLocalFile} && !SplitterEnds(content.text, n)
      ensures r in {Done, NotPlaced, NotSaved} ==>
        Splitter.IsCut(content.text, n, blocks) && IsOrder(order, old(active))
      ensures r in {Done, NotPlaced, NotSaved} ==> Splitter.StartsReached(content.text, n, blocks)
      ensures r in {Done, NotSaved} ==> Room(Counts(old(nodes), order), |blocks|) && (r == Done <==> saved)
      ensures r == NotPlaced && (forall c :: net(c).Delivered?) ==> !Room(Counts(old(nodes), order), |blocks|)
      ensures r == Done ==> id in files && files == old(files)[id := files[id]]
      ensures r == Done ==> files[id] == File(name, parentId, |content.text|, plan)
      ensures r == Done ==> Planned(old(nodes), files[id].blocks, nodes) && active == old(active)
      ensures r == Done ==> forall c :: c in Flatten(files[id].blocks) ==> c.nodeId in active
      ensures r == Done ==> stored == old(stored)[id := Stored(blocks)] && |files[id].blocks| == |blocks|
      ensures r == Done && NUL !in content.text ==> Flatten(stored[id]) == content.text
      ensures r == Done ==> (id in intact <==> ShortText(n, content.text))
      ensures r == Done ==> (FullCount(n, stored[id]) == 0 <==> ShortText(n, content.text))
      ensures forall c :: c in Flatten(plan) ==> !IsUsed(old(nodes), c)
      ensures r in {Done, NotPlaced, NotSaved} ==>
        intact - {id} == old(intact) - Spoiled(n, old(files), old(disks), FullCopies(n, plan, blocks))
      ensures r in {Done, NotSaved} ==> forall f :: f in old(intact) ==>
        (f in intact <==> SameReads(n, old(files), old(disks), disks, f))
      ensures r !in {Done, NotPlaced, NotSaved} || ShortText(n, content.text) ==> intact - {id} == old(intact)
    {
      hide MarkAll, ReadCopy, IsUsed, Room, Counts, WellSized, AllShort, Consistent, GoodDisks, Faithful, Planned,
        ShortText;
      hide SameReads, Spoiled, FullCopies, FullCount;
      blocks, plan, order := [], [], [];
      IntactKnown(files, stored, intact, id, n, disks);
      if !NameFree(dirs, files, name, parentId) {
        return NameTaken, blocks, plan, order;
      }
      if content.Missing? {
        return NoLocalFile, blocks, plan, order;
      }
      var cut := Splitter.GetBlocksFromStr(content.text, n);
      if cut.Hangs? {
        return NeverReturns, blocks, plan, order;
      }
      blocks := cut.blocks;
      StoredText(blocks);
      CutIsShort(n, content.text, blocks);
      CutFits(n, content.text, blocks);
      CountFull(n, blocks);
      r, plan, order := StoreBlocks(cut.blocks, id, name, parentId, |content.text|, net, saved);
      if ShortText(n, content.text) {
        NoneSpoiled(n, old(files), old(disks), plan, blocks);
      }
    }

    /** The first copy, in the order listed, on an active node that answers. Active nodes asked before it, which did
        not, are dropped. */
    method GetBlock(copies: seq<Copy>, answering: set<NodeId>) returns (found: bool, block: Read, ghost k: nat)
      modifies this`active
      ensures k <= |copies| && active == old(active) - Silent(copies[..k], answering)
      ensures forall i :: 0 <= i < k ==> copies[i].nodeId !in active && copies[i].nodeId !in old(active) * answering
      ensures forall x :: x in old(active) && (forall i :: 0 <= i < k ==> copies[i].nodeId != x) ==> x in active
      ensures found <==> HasLiveCopy(copies, old(active) * answering)
      ensures found ==>
        k < |copies| && copies[k].nodeId in old(active) * answering && block == ReadCopy(n, disks, copies[k])
      ensures !found ==> k == |copies|
    {
      var i := 0;
      while i < |copies|
        invariant 0 <= i <= |copies| && active == old(active) - Silent(copies[..i], answering)
        invariant forall j :: 0 <= j < i ==> copies[j].nodeId !in old(active) * answering
      {
        assert copies[..i + 1] == copies[..i] + [copies[i]];
        if copies[i].nodeId in active {
          if copies[i].nodeId in answering {
            return true, ReadCopy(n, disks, copies[i]), i;
          }
          active := active - {copies[i].nodeId};
        }
        i := i + 1;
      }
      return false, Overrun, |copies|;
    }

    /** answering are the nodes that answer during this call; active ones that are asked and do not are dropped. A file
        that has a block without room for its terminator never reads whole again. */
    method GetAllFileContent(id: FileId, answering: set<NodeId>) returns (r: FileContent)
      requires Valid() && id in files
      modifies this`active
      ensures Valid() && active * answering == old(active) * answering
      ensures old(active) - Silent(Flatten(files[id].blocks), answering) <= active <= old(active)
      ensures r == Unavailable <==> !Available(files[id].blocks, active * answering)
      ensures id in intact && r != Unavailable ==> r == Complete(Flatten(stored[id]))
      ensures r.Complete? ==> |r.text| + FullCount(n, stored[id]) <= |Flatten(stored[id])|
    {
      hide ReadCopy, Consistent, GoodDisks;
      ghost var live := active * answering;
      var blocks := files[id].blocks;
      var buffer: Text := [];
      var garbled := false;
      var b := 0;
      while b < |blocks|
        invariant 0 <= b <= |blocks| && Valid()
        invariant active * answering == live && active <= old(active)
        invariant old(active) - Silent(Flatten(blocks), answering) <= active
        invariant forall d :: 0 <= d < b ==> HasLiveCopy(blocks[d], live)
        invariant id in intact ==> !garbled && buffer == Flatten(stored[id][..b])
        invariant !garbled ==> |buffer| + FullCount(n, stored[id][..b]) <= |Flatten(stored[id][..b])|
      {
        var found, block;
        ghost var k;
        found, block, k := GetBlock(blocks[b], answering);
        SilentPart(blocks, b, k, answering);
        if !found {
          return Unavailable;
        }
        BlockReads(n, files, disks, stored, intact, BlockRef(id, b), blocks[b][k]);
        FlattenPrefix(stored[id], b);
        OneCountMore(n, stored[id], b);
        if block.Found? {
          buffer := buffer + block.text;
        } else {
          garbled := true;
        }
        b := b + 1;
      }
      assert stored[id][..b] == stored[id];
      r := if garbled then GarbledFile else Complete(buffer);
    }

    /** Removes one copy of a block, as $pull does, and frees its slot. */
    method DeleteFileBlockCopy(id: FileId, blockIndex: nat, copyIndex: nat) returns (code: int)
      requires Valid() && id in files
      modifies this`nodes, this`files
      ensures Valid()
      ensures code == -1 <==> blockIndex >= |old(files)[id].blocks|
      ensures code == -2 <==> code != -1 && copyIndex >= |old(files)[id].blocks[blockIndex]|
      ensures code == 1 || code == -1 || code == -2
      ensures code != 1 ==> nodes == old(nodes) && files == old(files)
      ensures code == 1 ==>
        var copies := old(files)[id].blocks[blockIndex];
        && files == WithBlock(old(files), BlockRef(id, blockIndex), Pull(copies, copies[copyIndex]))
        && copies[copyIndex].nodeId in old(nodes) && nodes == MarkCopy(old(nodes), copies[copyIndex], false)
    {
      hide ReadCopy, IsUsed, Faithful, Consistent, GoodDisks;
      if blockIndex >= |files[id].blocks| {
        return -1;
      }
      var copies := files[id].blocks[blockIndex];
      if copyIndex >= |copies| {
        return -2;
      }
      var copy := copies[copyIndex];
      var block := BlockRef(id, blockIndex);
      HeldIsKnown(nodes, files, block, copy);
      RemoveCopy(nodes, files, block, copy);
      MarkedDisks(n, nodes, disks, copy, false);
      FewerCopies(n, files, block, Pull(copies, copy), disks, stored, intact);
      files := WithBlock(files, block, Pull(copies, copy));
      var node := new Node.FromDoc(copy.nodeId, nodes[copy.nodeId]);
      node.SetBlockFree(copy.slot);
      nodes := nodes[copy.nodeId := node.Doc()];
      return 1;
    }

    /** Where a new copy of a block goes: among the active nodes without a copy of it, to one with most free slots, if
        it has any. */
    method FindCandidate(copies: seq<Copy>) returns (found: bool, nodeId: NodeId, slot: nat)
      requires Valid()
      ensures found ==> nodeId in active && IsBestCandidate(nodes, copies, active, Copy(nodeId, slot))
      ensures !found ==> NoCandidateAmong(nodes, copies, active)
    {
      var list := GetAllActivatedNodes();
      var sorted := SortByBlocksFree(list);
      SameDocs(list, sorted);
      hide Consistent, Faithful, GoodDisks, FreeSlots, HasLiveCopy, IsFirstFree;
      found, nodeId, slot := SelectCandidate(sorted, copies);
    }

    /** Sends a block that was read back to one more active node and records the copy. */
    method AddCopyOf(ref: BlockRef, text: Text, net: Copy -> Outcome) returns (ok: bool, ghost copy: Copy)
      requires Valid() && IsBlock(files, ref) && |text| < n && NUL !in text
      requires ReadsAs(Found(text), stored[ref.file][ref.index], ref.file in intact)
      modifies this`nodes, this`files, this`disks, this`active
      ensures Valid() && active <= old(active)
      ensures !ok ==> nodes == old(nodes) && files == old(files)
      ensures !ok && (forall c :: net(c).Delivered?) ==>
        NoCandidateAmong(old(nodes), old(files)[ref.file].blocks[ref.index], old(active))
      ensures ok ==>
        var copies := old(files)[ref.file].blocks[ref.index];
        && files == WithBlock(old(files), ref, copies + [copy])
        && copy.nodeId in old(active) && nodes == MarkCopy(old(nodes), copy, true)
        && IsBestCandidate(old(nodes), copies, old(active), copy)
    {
      copy := Copy("", 0);
      var copies := files[ref.file].blocks[ref.index];
      var found, nodeId, slot := FindCandidate(copies);
      if !found {
        return false, copy;
      }
      var newCopy := Copy(nodeId, slot);
      copy := newCopy;
      CandidateIsFree(nodes, copies, active, newCopy);
      hide Consistent, GoodDisks, Faithful, IsUsed, NoCandidateAmong, IsBestCandidate, HasLiveCopy, ReadCopy, MarkCopy;
      ok := SendCopy(newCopy, text, net);
      if ok {
        NewNodeForBlock(copies, nodeId);
        RecordCopy(ref, newCopy);
      }
    }

    /** Sends a text to a free slot. */
    method SendCopy(copy: Copy, text: Text, net: Copy -> Outcome) returns (ok: bool)
      requires Valid() && InRange(nodes, copy) && !IsUsed(nodes, copy) && |text| < n && NUL !in text
      modifies this`disks, this`active
      ensures Valid() && active <= old(active) && (ok <==> net(copy).Delivered?)
      ensures ok ==> ReadCopy(n, disks, copy) == Found(text)
    {
      hide ReadCopy, SendOne, IsUsed, WellSized;
      SendOneEffect(n, nodes, disks, copy, text, net(copy));
      disks := SendOne(n, disks, copy, text, net(copy));
      UnusedSend(n, nodes, old(disks), disks, copy);
      FaithfulKept(n, nodes, files, old(disks), disks, stored, intact, []);
      NothingFull(n, files, old(disks));
      if net(copy).IsBroken() {
        active := active - {copy.nodeId};
      }
      ok := net(copy).Delivered?;
    }

    /** Marks the slot used and adds the copy to the list of the block. */
    method RecordCopy(ref: BlockRef, copy: Copy)
      requires Valid() && IsBlock(files, ref) && InRange(nodes, copy) && !IsUsed(nodes, copy)
      requires forall d :: d in files[ref.file].blocks[ref.index] ==> d.nodeId != copy.nodeId
      requires ReadsAs(ReadCopy(n, disks, copy), stored[ref.file][ref.index], ref.file in intact)
      modifies this`nodes, this`files
      ensures Valid()
      ensures files == WithBlock(old(files), ref, old(files)[ref.file].blocks[ref.index] + [copy])
      ensures nodes == MarkCopy(old(nodes), copy, true)
    {
      hide ReadCopy, IsUsed, Mark;
      AddCopy(nodes, files, ref, copy);
      FaithfulWithCopy(n, files, disks, stored, ref, copy, intact);
      files := WithBlock(files, ref, files[ref.file].blocks[ref.index] + [copy]);
      var node := new Node.FromDoc(copy.nodeId, nodes[copy.nodeId]);
      node.SetBlockUsed(copy.slot);
      nodes := nodes[copy.nodeId := node.Doc()];
    }

    /** Makes one more copy of a block on an active node that has none. */
    method MakeNewFileBlockCopy(id: FileId, blockIndex: nat, answering: set<NodeId>, net: Copy -> Outcome)
      returns (r: BlockCopyResult, ghost copy: Copy)
      requires Valid() && id in files
      modifies this`nodes, this`files, this`disks, this`active
      ensures Valid() && active <= old(active)
      ensures r == BadBlockIndex <==> blockIndex >= |old(files)[id].blocks|
      ensures r == AllDown <==>
        r != BadBlockIndex && !HasLiveCopy(old(files)[id].blocks[blockIndex], old(active) * answering)
      ensures id in intact ==> r != Garbled
      ensures r != Copied ==> nodes == old(nodes) && files == old(files)
      ensures r == NoCandidate && (forall c :: net(c).Delivered?) ==>
        NoCandidateAmong(old(nodes), old(files)[id].blocks[blockIndex], old(active))
      ensures r == Copied ==>
        var copies := old(files)[id].blocks[blockIndex];
        && files == WithBlock(old(files), BlockRef(id, blockIndex), copies + [copy])
        && copy.nodeId in old(active) && nodes == MarkCopy(old(nodes), copy, true)
        && IsBestCandidate(old(nodes), copies, old(active), copy)
    {
      copy := Copy("", 0);
      if blockIndex >= |files[id].blocks| {
        return BadBlockIndex, copy;
      }
      var copies := files[id].blocks[blockIndex];
      var ref := BlockRef(id, blockIndex);
      var found, block;
      ghost var k;
      found, block, k := GetBlock(copies, answering);
      if !found {
        return AllDown, copy;
      }
      SilentHold(copies, k, answering);
      SameCandidates(nodes, copies, old(active), active, Silent(copies[..k], answering));
      BlockReads(n, files, disks, stored, intact, ref, copies[k]);
      if block.Overrun? {
        return Garbled, copy;
      }
      FoundIsShort(n, disks, copies[k]);
      hide ReadCopy, NoCandidateAmong, IsBestCandidate, Consistent, GoodDisks, HasLiveCopy, WithBlock, IsUsed, Silent;
      var ok;
      ok, copy := AddCopyOf(ref, block.text, net);
      r := if ok then Copied else NoCandidate;
    }

    /** A node connects: it leaves the active nodes for standby, and is added, or formatted when it is known but says
        it is new. disk is the bin file of a node that is not known yet; a node that says it is new has emptied its
        file. */
    method AddNode(nodeId: NodeId, blocksCount: nat, isNewNode: bool, disk: Text)
      requires Valid() && |disk| == blocksCount * n
      modifies this`nodes, this`files, this`disks, this`active, this`standby
      ensures Valid() && active == old(active) - {nodeId} && standby == old(standby) + {nodeId}
      ensures nodeId in old(nodes) && !isNewNode ==> nodes == old(nodes) && files == old(files)
      ensures nodeId !in old(nodes) || isNewNode ==> nodes == old(nodes)[nodeId := FreshDoc(blocksCount)]
      ensures files == if nodeId in old(nodes) && isNewNode then DropNode(old(files), nodeId) else old(files)
    {
      hide Consistent, GoodDisks, Faithful, DropNode, FreshDoc;
      if nodeId !in nodes {
        AddNewNode(nodeId, blocksCount, disk);
      } else if isNewNode {
        FormatKnownNode(nodeId, blocksCount);
      }
      active, standby := active - {nodeId}, standby + {nodeId};
    }

    /** The document of a node that was not known. */
    method AddNewNode(nodeId: NodeId, blocksCount: nat, disk: Text)
      requires Valid() && nodeId !in nodes && |disk| == blocksCount * n
      modifies this`nodes, this`disks
      ensures Valid() && nodes == old(nodes)[nodeId := FreshDoc(blocksCount)]
    {
      hide ReadCopy, IsUsed, WellSized;
      NewNode(nodes, files, nodeId, blocksCount);
      FaithfulKnown(n, nodes, files, disks, disks[nodeId := disk], stored, nodeId, intact);
      nodes := nodes[nodeId := FreshDoc(blocksCount)];
      disks := disks[nodeId := disk];
    }

    /** A known node that has emptied its file: no file has a copy on it any more. */
    method FormatKnownNode(nodeId: NodeId, blocksCount: nat)
      requires Valid() && nodeId in nodes
      modifies this`nodes, this`files, this`disks
      ensures Valid() && nodes == old(nodes)[nodeId := FreshDoc(blocksCount)] && files == DropNode(old(files), nodeId)
    {
      hide ReadCopy, IsUsed, WellSized, DropNodeBlocks;
      PullNode(nodeId);
      FormatNode(nodes, old(files), nodeId, blocksCount);
      nodes := nodes[nodeId := FreshDoc(blocksCount)];
      disks := disks[nodeId := Zeros(blocksCount * n)];
      FaithfulDrop(n, old(files), old(disks), disks, stored, nodeId, intact);
    }

    /** Pulls the copies on one node from every file. */
    method PullNode(nodeId: NodeId)
      modifies this`files
      ensures files == DropNode(old(files), nodeId)
    {
      hide DropNodeBlocks;
      var rest := files.Keys;
      while rest != {}
        invariant rest <= files.Keys == old(files).Keys
        invariant forall id :: id in files ==>
          files[id] == if id in rest then old(files)[id] else DropNode(old(files), nodeId)[id]
      {
        var id :| id in rest;
        var left := PullNodeBlocks(files[id].blocks, nodeId);
        files := files[id := files[id].(blocks := left)];
        rest := rest - {id};
      }
    }

    /** The two flags tell whether the two collections could be emptied. */
    method Format(dirsDeleted: bool, filesDeleted: bool) returns (ok: bool)
      requires Valid()
      modifies this`nodes, this`files, this`dirs, this`stored, this`intact
      ensures Valid() && (ok <==> dirsDeleted && filesDeleted)
      ensures dirs == if dirsDeleted then map[] else old(dirs)
      ensures files == if ok then map[] else old(files)
      ensures stored == (if ok then map[] else old(stored)) && intact == old(intact) * stored.Keys
      ensures nodes == if ok then Formatted(old(nodes)) else old(nodes)
    {
      if dirsDeleted {
        dirs := map[];
      }
      if !dirsDeleted || !filesDeleted {
        return false;
      }
      files, stored, intact := map[], map[], {};
      FormatAll(nodes);
      FormatNodes();
      return true;
    }

    method FormatNodes()
      requires GoodTable(nodes)
      modifies this`nodes
      ensures nodes == Formatted(old(nodes))
    {
      hide WellSized;
      var rest := nodes.Keys;
      while rest != {}
        invariant rest <= nodes.Keys == old(nodes).Keys
        invariant forall id :: id in nodes ==>
          nodes[id] == if id in rest then old(nodes)[id] else Formatted(old(nodes))[id]
      {
        var id :| id in rest;
        var node := new Node.FromDoc(id, nodes[id]);
        node.SetAllBlocksFree();
        nodes := nodes[id := node.Doc()];
        rest := rest - {id};
      }
    }

    /** Only a node that waits in standby is activated. */
    method ActivateNode(nodeId: NodeId) returns (ok: bool)
      requires Valid() && nodeId in nodes
      modifies this`active, this`standby
      ensures Valid() && (ok <==> nodeId in old(standby))
      ensures active == (if ok then old(active) + {nodeId} else old(active)) && standby == old(standby) - {nodeId}
    {
      ok := nodeId in standby;
      if ok {
        active, standby := active + {nodeId}, standby - {nodeId};
      }
    }

    method DeactivateNode(nodeId: NodeId) returns (ok: bool)
      requires Valid()
      modifies this`active, this`standby
      ensures Valid() && (ok <==> nodeId in old(active))
      ensures active == old(active) - {nodeId} && standby == if ok then old(standby) + {nodeId} else old(standby)
    {
      ok := nodeId in active;
      if ok {
        active, standby := active - {nodeId}, standby + {nodeId};
      }
    }

    /** Deletes the files directly in a directory. */
    method DeleteChildFiles(d: DirId)
      requires Valid()
      modifies this`nodes, this`files, this`stored, this`intact
      ensures Valid() && intact == old(intact) * stored.Keys
      ensures files == old(files) - FilesIn(old(files), d) && stored == old(stored) - FilesIn(old(files), d)
    {
      hide MarkAll, AllInRange, ReadCopy, Consistent, GoodDisks, Faithful;
      IntactStored(n, files, disks, stored, intact);
      var rest := FilesIn(files, d);
      while rest != {}
        invariant Valid() && rest <= FilesIn(old(files), d) && rest <= files.Keys
        invariant files == old(files) - (FilesIn(old(files), d) - rest)
        invariant stored == old(stored) - (FilesIn(old(files), d) - rest) && intact == old(intact) * stored.Keys
      {
        var id :| id in rest;
        DeleteFile(id);
        rest := rest - {id};
      }
    }

    /** Deletes a directory with everything in it. depth and height only bound the recursion. */
    method DeleteSubtree(d: DirId, ghost depth: map<DirId, nat>, ghost height: nat)
      requires Valid() && Ranked(dirs, depth) && Known(dirs, d)
      requires forall x :: x in dirs ==> depth[x] <= height
      modifies this`nodes, this`files, this`dirs, this`stored, this`intact
      ensures Valid() && Ranked(dirs, depth)
      ensures dirs.Keys <= old(dirs).Keys && stored.Keys <= old(stored).Keys && intact == old(intact) * stored.Keys
      ensures Removed(old(files), old(dirs), old(stored), {d}, files, dirs, stored)
      decreases height - depth[d]
    {
      hide MarkAll, AllInRange, ReadCopy, Consistent, GoodDisks, Faithful, Beneath, Doomed, Ranked, Removed;
      ghost var dirs0, files0, stored0 := dirs, files, stored;
      DeleteChildFiles(d);
      ghost var files1, stored1 := files, stored;
      var children := set x | x in dirs && dirs[x].parentId == d;
      var rest := children;
      NothingRemoved(files, dirs, stored, depth, d);
      assert children - rest == {};
      while rest != {}
        invariant rest <= children && dirs.Keys <= dirs0.Keys
        invariant stored.Keys <= old(stored).Keys && intact == old(intact) * stored.Keys
        invariant Valid() && Ranked(dirs, depth)
        invariant Removed(files1, dirs0, stored1, children - rest, files, dirs, stored)
      {
        var c :| c in rest;
        StillThere(files1, dirs0, stored1, depth, d, children - rest, c, files, dirs, stored);
        ghost var dirs2, files2, stored2 := dirs, files, stored;
        DeleteSubtree(c, depth, height);
        OneMoreRemoved(files1, dirs0, stored1, depth, children - rest, c, files2, dirs2, stored2, files, dirs, stored);
        assert children - rest + {c} == children - (rest - {c});
        rest := rest - {c};
      }
      assert children - rest == Children(dirs0, d);
      AllRemoved(files0, files1, dirs0, stored0, stored1, depth, d, files, dirs, stored);
      dirs := dirs - {d};
    }

    method DeleteDir(d: DirId)
      requires Valid() && IsTree(dirs) && Known(dirs, d)
      modifies this`nodes, this`files, this`dirs, this`stored, this`intact
      ensures Valid() && IsTree(dirs) && intact == old(intact) * stored.Keys
      ensures forall x :: x in dirs <==> x in old(dirs) && !Under(old(dirs), x, d)
      ensures forall x :: x in dirs ==> dirs[x] == old(dirs)[x]
      ensures forall f :: f in files <==> f in old(files) && !Under(old(dirs), old(files)[f].parentId, d)
      ensures forall f :: f in files ==> files[f] == old(files)[f] && stored[f] == old(stored)[f]
      ensures forall c :: IsUsed(nodes, c) <==> exists r :: Holds(files, r, c)
    {
      ghost var depth :| Ranked(dirs, depth);
      ghost var height := HeightExists(dirs.Keys, depth);
      DeleteSubtree(d, depth, height);
    }

    /** saved tells whether the insertion of the document succeeds; id is the identifier generated for it. */
    method AddDir(id: DirId, name: string, parentId: DirId, saved: bool) returns (ok: bool)
      requires Valid() && IsTree(dirs) && !Known(dirs, id) && Known(dirs, parentId)
      modifies this`dirs
      ensures Valid() && IsTree(dirs)
      ensures ok <==> saved && NameFree(old(dirs), files, name, parentId)
      ensures ok ==> forall d :: d in old(dirs) ==> !(old(dirs)[d].name == name && old(dirs)[d].parentId == parentId)
      ensures ok ==> forall f :: f in files ==> !(files[f].name == name && files[f].parentId == parentId)
      ensures dirs == if ok then old(dirs)[id := Dir(name, parentId)] else old(dirs)
    {
      if !NameFree(dirs, files, name, parentId) || !saved {
        return false;
      }
      LeafKeepsTree(dirs, id, Dir(name, parentId));
      dirs := dirs[id := Dir(name, parentId)];
      return true;
    }

    /** The destination is not checked, so the move can cut the directory off from the root. */
    method MoveDir(d: DirId, dest: DirId)
      requires Valid() && d in dirs && Known(dirs, dest)
      modifies this`dirs
      ensures Valid() && dirs == old(dirs)[d := old(dirs)[d].(parentId := dest)]
      ensures IsTree(old(dirs)) ==> (IsTree(dirs) <==> !Under(old(dirs), dest, d))
    {
      MoveIsTreeIff(dirs, d, dest);
      dirs := dirs[d := dirs[d].(parentId := dest)];
    }

    /** A request about nodes. */
    method ServeNode(rq: Request)
      requires Valid() && rq.AboutNodes()
      modifies this`nodes, this`files, this`disks, this`active, this`standby
      ensures Valid() && NodeStep(n, rq, old(Now()), Now()) && files.Keys == old(files).Keys
      ensures forall id :: id in files ==> files[id].parentId == old(files)[id].parentId
    {
      hide Consistent, GoodDisks, Faithful, FreshDoc;
      match rq
      case Connect(nodeId, blocksCount, isNew, disk) =>
        if |disk| == blocksCount * n {
          AddNode(nodeId, blocksCount, isNew, disk);
        }
      case Activate(nodeId) =>
        if nodeId in nodes {
          var _ := ActivateNode(nodeId);
        }
      case Deactivate(nodeId) =>
        var _ := DeactivateNode(nodeId);
    }

    /** A request about the copies of a block. */
    method ServeCopy(rq: Request)
      requires Valid() && rq.AboutCopies()
      modifies this`nodes, this`files, this`disks, this`active
      ensures Valid() && CopyStep(n, rq, old(Now()), Now()) && files.Keys == old(files).Keys
      ensures forall id :: id in files ==> files[id].parentId == old(files)[id].parentId
    {
      hide Consistent, GoodDisks, Faithful, MarkAll, IsUsed, ReadCopy, NoCandidateAmong, IsBestCandidate, HasLiveCopy,
        MarkCopy;
      TableIsGood(n, nodes, disks);
      IntactStored(n, files, disks, stored, intact);
      match rq
      case MakeCopy(id, index, answering, net) =>
        if id in files {
          ghost var s := Now();
          var r;
          ghost var copy;
          r, copy := MakeNewFileBlockCopy(id, index, answering, net);
          assert r == Copied ==> CopyAdded(s, Now(), BlockRef(id, index), copy);
        }
      case DeleteCopy(id, index, copyIndex) =>
        if id in files {
          var _ := DeleteFileBlockCopy(id, index, copyIndex);
        }
    }

    ghost function Now(): Snapshot
      reads this
    {
      Snapshot(nodes, files, disks, dirs, active, standby, stored, intact)
    }

    method ServeStore(rq: Request)
      requires Valid() && rq.Store? && rq.id !in files
      modifies this`nodes, this`files, this`disks, this`active, this`stored, this`intact
      ensures Valid() && StoreStep(n, rq, old(Now()), Now())
      ensures forall id :: id in stored && id !in old(stored) ==> id == rq.id
      ensures forall id :: id in old(stored) ==>
        id in stored && stored[id] == old(stored)[id] && files[id].parentId == old(files)[id].parentId
      ensures forall id :: id in old(intact) && !MaySpoil(n, rq, old(Now()), id) ==> id in intact
    {
      hide Consistent, GoodDisks, Faithful, MarkAll, IsUsed, ReadCopy, WellSized, Room, Counts, AllShort;
      hide ShortText, Spoiled, FullCopies, SameReads, FullCount, InFront, SplitterEnds, Planned;
      ghost var s := Now();
      TableIsGood(n, nodes, disks);
      IntactStored(n, files, disks, stored, intact);
      var r;
      ghost var blocks, plan, order;
      r, blocks, plan, order := CopyFileFromFS(rq.content, rq.id, rq.name, rq.parentId, rq.net, rq.saved);
      SpoiledInFront(n, s, plan, blocks);
      forall f | f in old(intact) && !MaySpoil(n, rq, s, f) ensures f in intact {
        assert f != rq.id;
        assert f in Spoiled(n, s.files, s.disks, FullCopies(n, plan, blocks)) ==> InFront(n, s, f);
        assert f in intact <==> f in intact - {rq.id};
      }
      if r == Done {
        ThreeOfEach(s.nodes, plan, nodes);
      } else if r == NotPlaced && CouldStore(n, rq, s) {
        assert NoRoomFor(n, rq.content.text, s, blocks, order);
      }
    }

    method ServeRemoval(rq: Request)
      requires Valid() && IsTree(dirs) && rq.AboutRemoval()
      modifies this`nodes, this`files, this`dirs, this`stored, this`intact
      ensures Valid() && IsTree(dirs) && DirStep(rq, old(dirs), dirs) && intact == old(intact) * stored.Keys
      ensures RemovalStep(rq, old(Now()), Now())
    {
      hide Consistent, GoodDisks, Faithful, IsTree, MarkAll, IsUsed, Under, AllInRange, Formatted, Holds, WellSized,
        RemovalStep, Removes;
      StoredIsKnown(n, files, disks, stored, intact);
      IntactStored(n, files, disks, stored, intact);
      ghost var s := Now();
      match rq
      case Delete(id) =>
        if id in files {
          DeleteFile(id);
        }
        FileRemoved(s, Now(), id);
      case DeleteTree(d) =>
        if Known(dirs, d) {
          DeleteDir(d);
          StoredIsKnown(n, files, disks, stored, intact);
        }
        TreeRemoved(s, Now(), d);
      case FormatStore(dirsDeleted, filesDeleted) =>
        var ok := Format(dirsDeleted, filesDeleted);
        NoDirsIsTree();
        AllRemovedOrNone(s, Now(), dirsDeleted, filesDeleted);
    }

    method ServeMakeDir(rq: Request)
      requires Valid() && IsTree(dirs) && rq.MakeDir?
      modifies this`dirs
      ensures Valid() && IsTree(dirs) && DirStep(rq, old(dirs), dirs) && MakeDirStep(rq, old(Now()), Now())
    {
      hide Consistent, GoodDisks, Faithful, IsTree, NameFree;
      if !Known(dirs, rq.dirId) && Known(dirs, rq.parentId) {
        var _ := AddDir(rq.dirId, rq.name, rq.parentId, rq.saved);
      }
    }

    /** One request from the console or from a connecting node. Requests that name something unknown are ignored. */
    method Serve(rq: Request)
      requires Valid() && IsTree(dirs)
      modifies this
      ensures Valid() && IsTree(dirs) && RequestStep(n, rq, old(Now()), Now())
      ensures forall id :: id in stored && id !in old(stored) ==> id in NewFile(rq)
      ensures forall id :: id in old(stored) && !Removes(rq, old(dirs), old(files)[id].parentId, id) ==>
        id in stored && stored[id] == old(stored)[id] && files[id].parentId == old(files)[id].parentId
      ensures forall id :: id in old(stored) && Removes(rq, old(dirs), old(files)[id].parentId, id) ==> id !in stored
      ensures forall id :: id in old(intact) && id in stored && !MaySpoil(n, rq, old(Now()), id) ==> id in intact
    {
      hide Consistent, GoodDisks, Faithful, IsTree, MarkAll, IsUsed, ReadCopy, WellSized, Room, Counts, Under, AllShort;
      hide MaySpoil, NodeStep, CopyStep, StoreStep, MakeDirStep;
      IntactStored(n, files, disks, stored, intact);
      StoredIsKnown(n, files, disks, stored, intact);
      if rq.AboutNodes() {
        ServeNode(rq);
      } else if rq.AboutCopies() {
        ServeCopy(rq);
      } else if rq.AboutRemoval() {
        ServeRemoval(rq);
      } else if rq.Store? {
        if rq.id !in files {
          ServeStore(rq);
        } else {
          NothingStored(n, rq, Now());
        }
      } else {
        ServeMakeDir(rq);
      }
    }

    /** Any sequence of requests; at is what there was before each of them, and after the last. */
    method Run(rqs: seq<Request>) returns (ghost at: seq<Snapshot>)
      requires Valid() && IsTree(dirs)
      modifies this
      ensures Valid() && IsTree(dirs) && History(n, rqs, at) && at[0] == old(Now()) && at[|rqs|] == Now()
      ensures forall id :: id in old(stored) && Survives(rqs, at, old(files)[id].parentId, id) ==>
        id in stored && stored[id] == old(stored)[id]
      ensures forall id :: id in old(stored) && !Survives(rqs, at, old(files)[id].parentId, id) ==>
        id !in stored || StoredAgain(rqs, id)
      ensures forall id :: id in old(intact) && Survives(rqs, at, old(files)[id].parentId, id) ==>
        Unharmed(n, rqs, at, id) ==> id in intact
    {
      hide Consistent, GoodDisks, Faithful, IsTree, Removes, RequestStep, NewFile, Survives, StoredAgain, MaySpoil,
        Unharmed;
      IntactStored(n, files, disks, stored, intact);
      ghost var first := map id | id in stored :: FileState(id, files[id].parentId, stored[id], id in intact);
      at := [Now()];
      NoRequests(n, rqs, at);
      var k := 0;
      while k < |rqs|
        invariant 0 <= k <= |rqs| && Valid() && IsTree(dirs)
        invariant History(n, rqs[..k], at) && at[0] == old(Now()) && at[k] == Now()
        invariant forall id :: id in old(stored) ==> StandsAt(n, rqs[..k], at, first[id], files, stored, intact)
      {
        ghost var files0, stored0, intact0, before := files, stored, intact, at;
        Serve(rqs[k]);
        at := at + [Now()];
        OneRequestMore(n, rqs, k, before, Now());
        forall id | id in old(stored)
          ensures StandsAt(n, rqs[..k + 1], at, first[id], files, stored, intact)
        {
          StillStands(n, rqs, k, before, Now(), first[id], files0, stored0, intact0, files, stored, intact);
        }
        k := k + 1;
      }
      assert rqs[..k] == rqs;
    }

    /** A stored text survives: after any later requests, reading it gives exactly that text when every block still has
        a copy on a live node, and is refused otherwise, unless one of them has removed the file (its own deletion,
        that of a directory that was above it at that moment, or a format) or stored a text with a full-slot block when
        a slot in front of one of its copies was free. A text with a full-slot block itself never reads back. */
    method StoreRunRead(text: Text, id: FileId, name: string, parentId: DirId, net: Copy -> Outcome, saved: bool,
                        later: seq<Request>, answering: set<NodeId>)
      returns (result: CopyResult, content: FileContent, ghost at: seq<Snapshot>)
      requires Valid() && IsTree(dirs) && id !in files && NUL !in text
      modifies this
      ensures Valid()
      ensures result == Done ==> History(n, later, at) && at[0].dirs == old(dirs) && at[|later|].dirs == dirs
      ensures result == Done && Survives(later, at, parentId, id) ==> id in files
      ensures result == Done && Survives(later, at, parentId, id) && ShortText(n, text) ==>
        Unharmed(n, later, at, id) ==>
        content == if Available(files[id].blocks, active * answering) then Complete(text) else Unavailable
      ensures result == Done && Survives(later, at, parentId, id) && !ShortText(n, text) ==> content != Complete(text)
      ensures result == Done && !Survives(later, at, parentId, id) ==> id !in files || StoredAgain(later, id)
    {
      hide Consistent, GoodDisks, Faithful, IsTree, Survives, Unharmed, Available, StoredAgain, ShortText;
      hide Spoiled, FullCopies, SameReads, FullCount, RequestStep;
      ghost var blocks, plan, order;
      result, blocks, plan, order := CopyFileFromFS(Content(text), id, name, parentId, net, saved);
      content := Unavailable;
      at := [];
      if result == Done {
        at := Run(later);
        if id in files {
          content := GetAllFileContent(id, answering);
        }
      }
    }
  }

  /** What there is at one moment. */
  datatype Snapshot = Snapshot(nodes: Table, files: Files, disks: Disks, dirs: Dirs, active: set<NodeId>,
                               standby: set<NodeId>, stored: map<FileId, seq<Text>>, intact: set<FileId>)

  datatype Request =
    | Connect(nodeId: NodeId, blocksCount: nat, isNew: bool, disk: Text)
    | Activate(nodeId: NodeId)
    | Deactivate(nodeId: NodeId)
    | Store(content: LocalFile, id: FileId, name: string, parentId: DirId, net: Copy -> Outcome, saved: bool)
    | Delete(id: FileId)
    | DeleteTree(dir: DirId)
    | MakeDir(dirId: DirId, name: string, parentId: DirId, saved: bool)
    | MakeCopy(id: FileId, index: nat, answering: set<NodeId>, net: Copy -> Outcome)
    | DeleteCopy(id: FileId, index: nat, copyIndex: nat)
    | FormatStore(dirsDeleted: bool, filesDeleted: bool)
  {
    predicate AboutNodes() {
      Connect? || Activate? || Deactivate?
    }

    predicate AboutCopies() {
      MakeCopy? || DeleteCopy?
    }

    predicate AboutRemoval() {
      Delete? || DeleteTree? || FormatStore?
    }
  }

  /** Whether a request removes a file: its own deletion, that of a directory above it, or a format that succeeds. */
  ghost predicate Removes(rq: Request, dirs: Dirs, parentId: DirId, id: FileId) {
    match rq
    case Delete(f) => f == id
    case DeleteTree(d) => Known(dirs, d) && Under(dirs, parentId, d)
    case FormatStore(dirsDeleted, filesDeleted) => dirsDeleted && filesDeleted
    case _ => false
  }

  function NewFile(rq: Request): set<FileId> {
    if rq.Store? then {rq.id} else {}
  }

  /** What a request does to the directories. */
  ghost predicate DirStep(rq: Request, was: Dirs, now: Dirs) {
    match rq
    case DeleteTree(d) =>
      if Known(was, d) then
        && (forall x :: x in now <==> x in was && !Under(was, x, d))
        && forall x :: x in now ==> now[x] == was[x]
      else now == was
    case MakeDir(id, name, parentId, saved) =>
      now == was || (saved && !Known(was, id) && Known(was, parentId) && now == was[id := Dir(name, parentId)])
    case FormatStore(dirsDeleted, _) => now == if dirsDeleted then map[] else was
    case _ => now == was
  }

  /** What a request about nodes does: a node that connects waits in standby, gets a document when it is not known, and
      loses its copies when it says it is new; only a node in standby is activated, and an active one that is
      deactivated goes back there. */
  ghost predicate NodeStep(n: nat, rq: Request, s: Snapshot, t: Snapshot) {
    match rq
    case Connect(id, count, isNew, disk) =>
      if |disk| == count * n then
        && t.active == s.active - {id} && t.standby == s.standby + {id}
        && t.nodes == (if id in s.nodes && !isNew then s.nodes else s.nodes[id := FreshDoc(count)])
        && t.files == (if id in s.nodes && isNew then DropNode(s.files, id) else s.files)
        && t.dirs == s.dirs && t.stored == s.stored && t.intact == s.intact
      else t == s
    case Activate(id) =>
      t == s.(active := if id in s.standby then s.active + {id} else s.active, standby := s.standby - {id})
    case Deactivate(id) =>
      t == s.(active := s.active - {id}, standby := if id in s.active then s.standby + {id} else s.standby)
    case _ => true
  }

  /** One more copy of a block, in the best place among the active nodes. */
  ghost predicate CopyAdded(s: Snapshot, t: Snapshot, ref: BlockRef, copy: Copy)
  {
    GoodTable(s.nodes) && s.active <= s.nodes.Keys && copy.nodeId in s.active && IsBlock(s.files, ref) &&
    var copies := s.files[ref.file].blocks[ref.index];
    && IsBestCandidate(s.nodes, copies, s.active, copy)
    && t.files == WithBlock(s.files, ref, copies + [copy]) && t.nodes == MarkCopy(s.nodes, copy, true)
  }

  /** A copy of the block can be read whole, there is a place for one more, and it can be sent. */
  ghost predicate CanCopy(s: Snapshot, ref: BlockRef, answering: set<NodeId>, net: Copy -> Outcome) {
    GoodTable(s.nodes) && s.active <= s.nodes.Keys && ref.file in s.intact && IsBlock(s.files, ref) &&
    var copies := s.files[ref.file].blocks[ref.index];
    && HasLiveCopy(copies, s.active * answering) && !NoCandidateAmong(s.nodes, copies, s.active)
    && forall c :: net(c).Delivered?
  }

  /** What a request about copies does: one more copy when that is possible, and one fewer when the indices are good. */
  ghost predicate CopyStep(n: nat, rq: Request, s: Snapshot, t: Snapshot) {
    match rq
    case MakeCopy(id, index, answering, net) =>
      && t.dirs == s.dirs && t.standby == s.standby && t.active <= s.active
      && t.stored == s.stored && t.intact == s.intact
      && ((t.nodes == s.nodes && t.files == s.files) || exists copy :: CopyAdded(s, t, BlockRef(id, index), copy))
      && (CanCopy(s, BlockRef(id, index), answering, net) ==> exists copy :: CopyAdded(s, t, BlockRef(id, index), copy))
    case DeleteCopy(id, index, copyIndex) =>
      if id in s.files && index < |s.files[id].blocks| && copyIndex < |s.files[id].blocks[index]| then
        var copies := s.files[id].blocks[index];
        && GoodTable(s.nodes) && copies[copyIndex].nodeId in s.nodes
        && t == s.(nodes := MarkCopy(s.nodes, copies[copyIndex], false),
                   files := WithBlock(s.files, BlockRef(id, index), Pull(copies, copies[copyIndex])))
      else t == s
    case _ => true
  }

  /** Nothing but a want of room stands in the way of storing. */
  ghost predicate CouldStore(n: nat, rq: Request, s: Snapshot)
    requires rq.Store?
  {
    && NameFree(s.dirs, s.files, rq.name, rq.parentId) && rq.content.Content? && SplitterEnds(rq.content.text, n)
    && rq.saved && forall c :: rq.net(c).Delivered?
  }

  ghost predicate NoRoomFor(n: nat, text: Text, s: Snapshot, blocks: seq<Text>, order: seq<NodeId>) {
    && 0 < n && Splitter.IsCut(text, n, blocks) && Splitter.StartsReached(text, n, blocks)
    && GoodTable(s.nodes) && s.active <= s.nodes.Keys && IsOrder(order, s.active)
    && !Room(Counts(s.nodes, order), |blocks|)
  }

  /** What storing does: either the file is there, with the text and three copies of every block on distinct nodes, or
      nothing is; and there is a reason, a want of room if nothing else. */
  ghost predicate StoreStep(n: nat, rq: Request, s: Snapshot, t: Snapshot)
    requires rq.Store?
  {
    if rq.id in s.files then t == s else
    && t.dirs == s.dirs && t.standby == s.standby
    && if rq.id in t.files && rq.id in t.stored then
         && NameFree(s.dirs, s.files, rq.name, rq.parentId) && rq.content.Content? && rq.saved
         && SplitterEnds(rq.content.text, n)
         && t.files == s.files[rq.id := t.files[rq.id]] && t.stored == s.stored[rq.id := t.stored[rq.id]]
         && t.files[rq.id].name == rq.name && t.files[rq.id].parentId == rq.parentId
         && (forall b :: 0 <= b < |t.files[rq.id].blocks| ==>
               |t.files[rq.id].blocks[b]| == 3 && OnDistinctNodes(t.files[rq.id].blocks[b]))
         && (NUL !in rq.content.text ==> Flatten(t.stored[rq.id]) == rq.content.text)
         && (rq.id in t.intact <==> ShortText(n, rq.content.text))
       else
         && t.nodes == s.nodes && t.files == s.files && t.stored == s.stored
         && (CouldStore(n, rq, s) ==> exists blocks, order :: NoRoomFor(n, rq.content.text, s, blocks, order))
  }

  lemma NothingStored(n: nat, rq: Request, s: Snapshot)
    requires rq.Store? && rq.id in s.files
    ensures StoreStep(n, rq, s, s)
  {
  }

  lemma StoredIsKnown(n: nat, files: Files, disks: Disks, stored: map<FileId, seq<Text>>, intact: set<FileId>)
    requires Faithful(n, files, disks, stored, intact)
    ensures stored.Keys == files.Keys
  {
  }

  /** What is left when files or directories have been removed. */
  ghost predicate RemovalStep(rq: Request, s: Snapshot, t: Snapshot) {
    && t.active == s.active && t.standby == s.standby && t.disks == s.disks && s.stored.Keys <= s.files.Keys
    && (forall id :: id in t.stored <==> id in s.stored && !Removes(rq, s.dirs, s.files[id].parentId, id))
    && forall id :: id in t.stored ==>
      id in t.files && id in s.files && t.stored[id] == s.stored[id] && t.files[id] == s.files[id]
  }

  lemma FileRemoved(s: Snapshot, t: Snapshot, id: FileId)
    requires t.active == s.active && t.standby == s.standby && t.disks == s.disks && s.stored.Keys == s.files.Keys
    requires t.files == s.files - {id} && t.stored == s.stored - {id}
    ensures RemovalStep(Delete(id), s, t)
  {
  }

  lemma TreeRemoved(s: Snapshot, t: Snapshot, d: DirId)
    requires t.active == s.active && t.standby == s.standby && t.disks == s.disks && s.stored.Keys == s.files.Keys
    requires t.stored.Keys == t.files.Keys && (!Known(s.dirs, d) ==> t == s)
    requires Known(s.dirs, d) ==>
      forall f :: f in t.files <==> f in s.files && !Under(s.dirs, s.files[f].parentId, d)
    requires Known(s.dirs, d) ==> forall f :: f in t.files ==> t.files[f] == s.files[f] && t.stored[f] == s.stored[f]
    ensures RemovalStep(DeleteTree(d), s, t)
  {
    hide Under;
  }

  lemma AllRemovedOrNone(s: Snapshot, t: Snapshot, dirsDeleted: bool, filesDeleted: bool)
    requires t.active == s.active && t.standby == s.standby && t.disks == s.disks && s.stored.Keys == s.files.Keys
    requires t.files == if dirsDeleted && filesDeleted then map[] else s.files
    requires t.stored == if dirsDeleted && filesDeleted then map[] else s.stored
    ensures RemovalStep(FormatStore(dirsDeleted, filesDeleted), s, t)
  {
  }

  /** A directory is made exactly when its parent is known, its name is free there, and the insertion succeeds. */
  ghost predicate MakeDirStep(rq: Request, s: Snapshot, t: Snapshot)
    requires rq.MakeDir?
  {
    var made := !Known(s.dirs, rq.dirId) && Known(s.dirs, rq.parentId) &&
      NameFree(s.dirs, s.files, rq.name, rq.parentId) && rq.saved;
    t == if made then s.(dirs := s.dirs[rq.dirId := Dir(rq.name, rq.parentId)]) else s
  }

  /** What a request does. */
  ghost predicate RequestStep(n: nat, rq: Request, s: Snapshot, t: Snapshot) {
    && DirStep(rq, s.dirs, t.dirs)
    && (rq.AboutNodes() ==> NodeStep(n, rq, s, t)) && (rq.AboutCopies() ==> CopyStep(n, rq, s, t))
    && (rq.Store? ==> StoreStep(n, rq, s, t)) && (rq.AboutRemoval() ==> RemovalStep(rq, s, t))
    && (rq.MakeDir? ==> MakeDirStep(rq, s, t))
  }

  /** Every request did what it is for. */
  ghost predicate History(n: nat, rqs: seq<Request>, at: seq<Snapshot>) {
    |at| == |rqs| + 1 && forall i :: 0 <= i < |rqs| ==> RequestStep(n, rqs[i], at[i], at[i + 1])
  }

  /** None of the requests removes the file. */
  ghost predicate Survives(rqs: seq<Request>, at: seq<Snapshot>, parentId: DirId, id: FileId)
    requires |at| == |rqs| + 1
  {
    forall i :: 0 <= i < |rqs| ==> !Removes(rqs[i], at[i].dirs, parentId, id)
  }

  /** A slot in front of a copy of the file is free, and the copy has a text to lose. */
  ghost predicate InFront(n: nat, s: Snapshot, id: FileId) {
    GoodTable(s.nodes) &&
    exists r, c :: Holds(s.files, r, c) && r.file == id && c.slot > 0 && !IsUsed(s.nodes, Copy(c.nodeId, c.slot - 1)) &&
      ReadCopy(n, s.disks, c) != Found([])
  }

  /** The request stores a text with a full-slot block, and could put it in front of a copy of the file. */
  ghost predicate MaySpoil(n: nat, rq: Request, s: Snapshot, id: FileId) {
    rq.Store? && rq.content.Content? && !ShortText(n, rq.content.text) && InFront(n, s, id)
  }

  ghost predicate Unharmed(n: nat, rqs: seq<Request>, at: seq<Snapshot>, id: FileId)
    requires |at| == |rqs| + 1
  {
    forall i :: 0 <= i < |rqs| ==> !MaySpoil(n, rqs[i], at[i], id)
  }

  /** Identifiers are generated, so this does not happen. */
  predicate StoredAgain(rqs: seq<Request>, id: FileId) {
    exists i :: 0 <= i < |rqs| && id in NewFile(rqs[i])
  }

  /** What a run starts from for one file. */
  datatype FileState = FileState(id: FileId, parentId: DirId, texts: seq<Text>, whole: bool)

  /** The file is there as it was, or has been removed. */
  ghost predicate StandsAt(n: nat, rqs: seq<Request>, at: seq<Snapshot>, f: FileState, files: Files,
                           stored: map<FileId, seq<Text>>, intact: set<FileId>)
    requires |at| == |rqs| + 1
  {
    if Survives(rqs, at, f.parentId, f.id) then
      && f.id in stored && f.id in files && stored[f.id] == f.texts && files[f.id].parentId == f.parentId
      && (f.whole && Unharmed(n, rqs, at, f.id) ==> f.id in intact)
    else f.id !in stored || StoredAgain(rqs, f.id)
  }

  lemma NoRequests(n: nat, rqs: seq<Request>, at: seq<Snapshot>)
    requires |at| == 1
    ensures History(n, rqs[..0], at) && forall parentId, id :: Survives(rqs[..0], at, parentId, id)
    ensures forall id :: Unharmed(n, rqs[..0], at, id)
  {
  }

  lemma OneRequestMore(n: nat, rqs: seq<Request>, k: nat, at: seq<Snapshot>, now: Snapshot)
    requires k < |rqs| && History(n, rqs[..k], at) && RequestStep(n, rqs[k], at[k], now)
    ensures History(n, rqs[..k + 1], at + [now])
  {
    hide RequestStep;
    assert rqs[..k + 1] == rqs[..k] + [rqs[k]];
  }

  lemma StillStands(n: nat, rqs: seq<Request>, k: nat, at: seq<Snapshot>, s: Snapshot, f: FileState,
                    files0: Files, stored0: map<FileId, seq<Text>>, intact0: set<FileId>,
                    files: Files, stored: map<FileId, seq<Text>>, intact: set<FileId>)
    requires k < |rqs| && |at| == k + 1 && StandsAt(n, rqs[..k], at, f, files0, stored0, intact0)
    requires stored0.Keys == files0.Keys && stored.Keys == files.Keys
    requires f.id in stored && f.id !in stored0 ==> f.id in NewFile(rqs[k])
    requires f.id in stored0 && !Removes(rqs[k], at[k].dirs, files0[f.id].parentId, f.id) ==>
      f.id in stored && stored[f.id] == stored0[f.id] && files[f.id].parentId == files0[f.id].parentId
    requires f.id in stored0 && Removes(rqs[k], at[k].dirs, files0[f.id].parentId, f.id) ==> f.id !in stored
    requires f.id in intact0 && f.id in stored && !MaySpoil(n, rqs[k], at[k], f.id) ==> f.id in intact
    ensures StandsAt(n, rqs[..k + 1], at + [s], f, files, stored, intact)
  {
    hide Removes, NewFile, MaySpoil;
    var before, now := rqs[..k], rqs[..k + 1];
    assert forall i :: 0 <= i < k ==> now[i] == before[i] && (at + [s])[i] == at[i];
    assert now[k] == rqs[k] && (at + [s])[k] == at[k];
    assert Survives(now, at + [s], f.parentId, f.id) <==>
      Survives(before, at, f.parentId, f.id) && !Removes(rqs[k], at[k].dirs, f.parentId, f.id);
    assert Unharmed(n, now, at + [s], f.id) <==> Unharmed(n, before, at, f.id) && !MaySpoil(n, rqs[k], at[k], f.id);
    assert StoredAgain(now, f.id) <==> StoredAgain(before, f.id) || f.id in NewFile(rqs[k]);
  }

  /** Wherever the splitter starts a block, that block leaves room for the terminator in its slot: no newline ends it
      after exactly n bytes, unless a NUL before it cuts it short. */
  ghost predicate ShortText(n: nat, text: Text) {
    forall i: nat :: 0 < n && Splitter.Reached(text, n, i) && i + n <= |text| && text[i + n - 1] == NEWLINE ==>
      NUL in text[i..i + n]
  }

  /** The splitter's blocks of a text are short exactly when the text is. */
  lemma CutIsShort(n: nat, text: Text, blocks: seq<Text>)
    requires 2 <= n && Splitter.IsCut(text, n, blocks) && Splitter.StartsReached(text, n, blocks)
    ensures AllShort(n, blocks) <==> ShortText(n, text)
  {
    hide Splitter.Reached, Splitter.IsCut, Splitter.StartsReached, CString;
    if ShortText(n, text) {
      forall b | 0 <= b < |blocks| ensures |CString(blocks[b])| < n {
        ShortBlock(n, text, blocks, b);
      }
    }
    if AllShort(n, blocks) {
      forall i: nat | Splitter.Reached(text, n, i) && i + n <= |text| && text[i + n - 1] == NEWLINE
        ensures NUL in text[i..i + n]
      {
        var b := FullBlockFrom(n, text, blocks, i);
        assert |CString(blocks[b])| < n;
      }
    }
  }

  lemma ShortBlock(n: nat, text: Text, blocks: seq<Text>, b: nat)
    requires 2 <= n && Splitter.IsCut(text, n, blocks) && Splitter.StartsReached(text, n, blocks) && ShortText(n, text)
    requires b < |blocks|
    ensures |CString(blocks[b])| < n
  {
    hide Splitter.Reached;
    BlockAt(n, text, blocks, b);
    if b < |blocks| - 1 && |blocks[b]| == n {
      BlockEnds(n, text, blocks, b, |Flatten(blocks[..b])|);
      hide Splitter.IsCut, Splitter.StartsReached;
      assert NUL in blocks[b];
    } else {
      hide ShortText, Splitter.StartsReached, Flatten, CString;
      assert b < |blocks| - 1 ==> blocks[b] == blocks[..|blocks| - 1][b];
    }
  }

  lemma FullBlockFrom(n: nat, text: Text, blocks: seq<Text>, i: nat) returns (b: nat)
    requires 2 <= n && Splitter.IsCut(text, n, blocks) && Splitter.StartsReached(text, n, blocks)
    requires Splitter.Reached(text, n, i) && i + n <= |text| && text[i + n - 1] == NEWLINE
    ensures b < |blocks| && blocks[b] == text[i..i + n]
  {
    b := StartBefore(blocks, i);
    BlockAt(n, text, blocks, b);
    BlockEnds(n, text, blocks, b, i);
    hide *;
    FullFrom(text, n, |Flatten(blocks[..b])|, i, |Flatten(blocks[..b + 1])|);
  }

  lemma FullFrom(text: Text, n: nat, start: nat, i: nat, end: nat)
    requires Splitter.Reached(text, n, start) && Splitter.Reached(text, n, i) && Splitter.Reached(text, n, end)
    requires 2 <= n && start <= i < end <= start + n && i + n <= |text|
    requires end <= |text| && text[end - 1] == NEWLINE && text[i + n - 1] == NEWLINE
    ensures start == i && end == i + n
  {
    hide Splitter.Reached;
    if start < i {
      assert Splitter.NewlineWithin(text, start + 1, start + n);
      var e := Splitter.FindLastNewline(text, n, start, start + n);
      Splitter.NextOrder(text, n, start, i, e);
      assert false;
    }
    Splitter.NextOrder(text, n, i, end, i + n - 1);
  }

  /** A block that starts a slot's length before the end of the text is not the last one. */
  lemma BlockEnds(n: nat, text: Text, blocks: seq<Text>, b: nat, i: nat)
    requires Splitter.IsCut(text, n, blocks) && Splitter.StartsReached(text, n, blocks) && b < |blocks|
    requires |Flatten(blocks[..b])| <= i && i + n <= |text|
    ensures var start, end := |Flatten(blocks[..b])|, |Flatten(blocks[..b + 1])|;
      && Splitter.Reached(text, n, start) && Splitter.Reached(text, n, end)
      && start < end == start + |blocks[b]| <= start + n && end <= |text| && text[end - 1] == NEWLINE
  {
    hide Splitter.Reached;
    BlockAt(n, text, blocks, b);
    FlattenPrefix(blocks, b);
    assert blocks[..|blocks|] == blocks;
    assert b + 1 < |blocks|;
    assert blocks[b] == blocks[..|blocks| - 1][b];
    var start := |Flatten(blocks[..b])|;
    assert text[start + |blocks[b]| - 1] == blocks[b][|blocks[b]| - 1];
  }

  lemma {:induction false} StartBefore(blocks: seq<Text>, i: nat) returns (b: nat)
    requires i < |Flatten(blocks)|
    ensures b < |blocks| && |Flatten(blocks[..b])| <= i < |Flatten(blocks[..b + 1])|
  {
    var k := |blocks| - 1;
    FlattenPrefix(blocks, k);
    assert blocks[..k + 1] == blocks;
    if |Flatten(blocks[..k])| <= i {
      b := k;
    } else {
      b := StartBefore(blocks[..k], i);
      assert blocks[..k][..b] == blocks[..b] && blocks[..k][..b + 1] == blocks[..b + 1];
    }
  }

  lemma BlockAt(n: nat, text: Text, blocks: seq<Text>, b: nat)
    requires b < |blocks| && Flatten(blocks) == text
    ensures var i := |Flatten(blocks[..b])|; i + |blocks[b]| <= |text| && text[i..i + |blocks[b]|] == blocks[b]
  {
    FlattenPrefix(blocks, b);
    assert blocks == blocks[..b + 1] + blocks[b + 1..];
    FlattenAppend(blocks[..b + 1], blocks[b + 1..]);
  }

  lemma LeafKeepsTree(dirs: Dirs, id: DirId, dir: Dir)
    requires IsTree(dirs) && !Known(dirs, id) && Known(dirs, dir.parentId)
    ensures IsTree(dirs[id := dir])
  {
    var depth :| Ranked(dirs, depth);
    assert Ranked(dirs[id := dir], depth[id := depth[dir.parentId] + 1]);
  }

  lemma MoveIsTreeIff(dirs: Dirs, d: DirId, dest: DirId)
    requires d in dirs && Known(dirs, dest)
    ensures IsTree(dirs) ==> (IsTree(dirs[d := dirs[d].(parentId := dest)]) <==> !Under(dirs, dest, d))
  {
    if IsTree(dirs) {
      MoveKeepsTreeIff(dirs, d, dest);
    }
  }

  lemma NoDirsIsTree()
    ensures IsTree(map[])
  {
    assert Ranked(map[], map[ROOT := 0]);
  }

  /** Just after a file is stored any two nodes may be down. */
  lemma AnyTwoNodesMayFail(nodes: Table, blocks: seq<seq<Copy>>, live: set<NodeId>, x: NodeId, y: NodeId)
    requires GoodTable(nodes) && IsPlan(nodes, blocks) && forall c :: c in Flatten(blocks) ==> c.nodeId in live
    ensures Available(blocks, live - {x, y})
  {
    forall b | 0 <= b < |blocks| ensures HasLiveCopy(blocks[b], live - {x, y}) {
      var copies := blocks[b];
      forall i | 0 <= i < |copies| ensures copies[i].nodeId in live {
        InFlatten(blocks, copies[i]);
      }
      assert OnDistinctNodes(copies);
      assert copies[0].nodeId !in {x, y} || copies[1].nodeId !in {x, y} || copies[2].nodeId !in {x, y};
    }
  }

  function FilesIn(files: Files, d: DirId): set<FileId> {
    set f | f in files && files[f].parentId == d
  }

  /** The files that lie in the subtrees of the given directories. */
  ghost function Doomed(files: Files, dirs: Dirs, tops: set<DirId>): set<FileId> {
    set f | f in files && Inside(dirs, files[f].parentId, tops)
  }

  /** The collections after the subtrees of some directories are gone. */
  ghost predicate Removed(files0: Files, dirs0: Dirs, stored0: map<FileId, seq<Text>>, tops: set<DirId>,
                          files: Files, dirs: Dirs, stored: map<FileId, seq<Text>>) {
    && dirs == dirs0 - Beneath(dirs0, tops)
    && files == files0 - Doomed(files0, dirs0, tops)
    && stored == stored0 - Doomed(files0, dirs0, tops)
  }

  lemma NothingRemoved(files: Files, dirs: Dirs, stored: map<FileId, seq<Text>>, depth: map<DirId, nat>, d: DirId)
    requires Ranked(dirs, depth)
    ensures Removed(files, dirs, stored, {}, files, dirs, stored) && depth.Keys >= dirs.Keys + {ROOT}
  {
  }

  lemma StillThere(files0: Files, dirs0: Dirs, stored0: map<FileId, seq<Text>>, depth: map<DirId, nat>, d: DirId,
                   done: set<DirId>, c: DirId, files: Files, dirs: Dirs, stored: map<FileId, seq<Text>>)
    requires Ranked(dirs0, depth) && done <= Children(dirs0, d) && c in Children(dirs0, d) && c !in done
    requires Removed(files0, dirs0, stored0, done, files, dirs, stored) && Known(dirs0, d)
    ensures c in dirs && depth[c] == depth[d] + 1
  {
    forall e | e in done ensures !Under(dirs0, c, e) {
      if Under(dirs0, c, e) {
        SiblingsApart(dirs0, depth, d, c, e);
      }
    }
  }

  lemma OneMoreRemoved(files0: Files, dirs0: Dirs, stored0: map<FileId, seq<Text>>, depth: map<DirId, nat>,
                       done: set<DirId>, c: DirId, files: Files, dirs: Dirs, stored: map<FileId, seq<Text>>,
                       files': Files, dirs': Dirs, stored': map<FileId, seq<Text>>)
    requires Ranked(dirs0, depth) && stored0.Keys == files0.Keys
    requires Removed(files0, dirs0, stored0, done, files, dirs, stored)
    requires Removed(files, dirs, stored, {c}, files', dirs', stored')
    ensures Removed(files0, dirs0, stored0, done + {c}, files', dirs', stored')
  {
    hide Inside;
    forall x ensures Inside(dirs0, x, done + {c}) <==>
      Inside(dirs0, x, done) || (x !in Beneath(dirs0, done) && Inside(dirs0 - Beneath(dirs0, done), x, {c}))
    {
      InsideOneMore(dirs0, done, c, x);
    }
    assert Beneath(dirs0, done + {c}) == Beneath(dirs0, done) + Beneath(dirs, {c});
    assert Doomed(files0, dirs0, done + {c}) == Doomed(files0, dirs0, done) + Doomed(files, dirs, {c});
  }

  lemma InsideViaChildren(dirs: Dirs, depth: map<DirId, nat>, d: DirId)
    requires Ranked(dirs, depth)
    ensures forall x :: Inside(dirs, x, {d}) <==> x == d || Inside(dirs, x, Children(dirs, d))
  {
    forall x ensures Inside(dirs, x, {d}) <==> x == d || Inside(dirs, x, Children(dirs, d)) {
      UnderViaChild(dirs, x, d);
      assert Inside(dirs, x, {d}) <==> Under(dirs, x, d);
    }
  }

  lemma DoomedViaChildren(files: Files, dirs: Dirs, d: DirId)
    requires forall x :: Inside(dirs, x, {d}) <==> x == d || Inside(dirs, x, Children(dirs, d))
    ensures Doomed(files, dirs, {d}) ==
      FilesIn(files, d) + Doomed(files - FilesIn(files, d), dirs, Children(dirs, d))
  {
    hide Inside;
  }

  /** With the files of the directory and the subtrees of its children gone, only the directory itself is left. */
  lemma AllRemoved(files0: Files, files1: Files, dirs0: Dirs, stored0: map<FileId, seq<Text>>,
                   stored1: map<FileId, seq<Text>>, depth: map<DirId, nat>, d: DirId,
                   files: Files, dirs: Dirs, stored: map<FileId, seq<Text>>)
    requires Ranked(dirs0, depth) && stored0.Keys == files0.Keys
    requires files1 == files0 - FilesIn(files0, d) && stored1 == stored0 - FilesIn(files0, d)
    requires Removed(files1, dirs0, stored1, Children(dirs0, d), files, dirs, stored)
    ensures Removed(files0, dirs0, stored0, {d}, files, dirs - {d}, stored)
    ensures Ranked(dirs - {d}, depth)
  {
    hide Inside, Under, FilesIn, Children;
    InsideViaChildren(dirs0, depth, d);
    DoomedViaChildren(files0, dirs0, d);
    assert dirs - {d} == dirs0 - Beneath(dirs0, {d});
    BeneathIsClosed(dirs0, {d});
    RankedAfterRemoval(dirs0, depth, Beneath(dirs0, {d}));
  }

  function Zeros(k: nat): (r: Text)
    ensures |r| == k
  {
    seq(k, _ => NUL)
  }

  lemma FaithfulDrop(n: nat, files: Files, before: Disks, after: Disks, stored: map<FileId, seq<Text>>, id: NodeId,
                     intact: set<FileId>)
    requires Faithful(n, files, before, stored, intact)
    requires forall x :: x != id ==> (x in before <==> x in after) && (x in before ==> before[x] == after[x])
    ensures Faithful(n, DropNode(files, id), after, stored, intact)
  {
    forall f | f in files ensures |DropNode(files, id)[f].blocks| == |files[f].blocks| {
    }
    forall r, c | Holds(DropNode(files, id), r, c)
      ensures Holds(files, r, c) && ReadCopy(n, after, c) == ReadCopy(n, before, c)
    {
      assert Holds(files, r, c);
    }
  }

  lemma FaithfulKnown(n: nat, nodes: Table, files: Files, before: Disks, after: Disks, stored: map<FileId, seq<Text>>,
                      id: NodeId, intact: set<FileId>)
    requires Consistent(nodes, files) && Faithful(n, files, before, stored, intact) && id !in nodes
    requires forall x :: x != id ==> (x in before <==> x in after) && (x in before ==> before[x] == after[x])
    ensures Faithful(n, files, after, stored, intact)
  {
    forall r, c | Holds(files, r, c) ensures c.nodeId != id {
      UsedIsKnown(nodes, c);
    }
  }

  lemma SilentPart(blocks: seq<seq<Copy>>, b: nat, k: nat, answering: set<NodeId>)
    requires b < |blocks| && k <= |blocks[b]|
    ensures Silent(blocks[b][..k], answering) <= Silent(Flatten(blocks), answering)
  {
    forall c | c in blocks[b][..k] ensures c in Flatten(blocks) {
      assert c in blocks[b];
      InFlatten(blocks, c);
    }
  }

  /** A node that holds a copy of the block is no candidate anyway. */
  lemma SameCandidates(nodes: Table, copies: seq<Copy>, before: set<NodeId>, after: set<NodeId>, dropped: set<NodeId>)
    requires GoodTable(nodes) && before <= nodes.Keys && after == before - dropped
    requires forall id :: id in dropped ==> HasLiveCopy(copies, {id})
    ensures NoCandidateAmong(nodes, copies, after) <==> NoCandidateAmong(nodes, copies, before)
    ensures forall c: Copy :: c.nodeId in after && IsBestCandidate(nodes, copies, after, c) ==>
      IsBestCandidate(nodes, copies, before, c)
  {
  }

  lemma SilentHold(copies: seq<Copy>, k: nat, answering: set<NodeId>)
    requires k <= |copies|
    ensures forall id :: id in Silent(copies[..k], answering) ==> HasLiveCopy(copies, {id})
  {
  }

  /** No live node without a copy of the block has a free slot. */
  predicate NoCandidateAmong(nodes: Table, copies: seq<Copy>, live: set<NodeId>)
    requires GoodTable(nodes) && live <= nodes.Keys
  {
    forall id :: id in live && !HasLiveCopy(copies, {id}) ==> FreeSlots(nodes[id]) == {}
  }

  /** The first free slot of a live node without a copy of the block, none of which has more free slots. */
  predicate IsBestCandidate(nodes: Table, copies: seq<Copy>, live: set<NodeId>, c: Copy)
    requires GoodTable(nodes) && live <= nodes.Keys && c.nodeId in live
  {
    && IsFirstFree(nodes[c.nodeId], c.slot) && !HasLiveCopy(copies, {c.nodeId})
    && forall id :: id in live && !HasLiveCopy(copies, {id}) ==> |FreeSlots(nodes[id])| <= |FreeSlots(nodes[c.nodeId])|
  }

  /** What makes it best: no live node without a copy of the block has more free slots. */
  lemma FreestOfOthers(nodes: Table, copies: seq<Copy>, live: set<NodeId>, c: Copy)
    requires GoodTable(nodes) && live <= nodes.Keys && c.nodeId in live && IsBestCandidate(nodes, copies, live, c)
    ensures c.slot in FreeSlots(nodes[c.nodeId]) && forall k :: k in FreeSlots(nodes[c.nodeId]) ==> c.slot <= k
    ensures forall id :: id in live && (forall d :: d in copies ==> d.nodeId != id) ==>
      |FreeSlots(nodes[id])| <= |FreeSlots(nodes[c.nodeId])|
  {
    hide FreeSlots;
    forall id | id in live && (forall d :: d in copies ==> d.nodeId != id) ensures !HasLiveCopy(copies, {id}) {
    }
  }

  method SelectCandidate(sorted: seq<Node>, copies: seq<Copy>) returns (found: bool, nodeId: NodeId, slot: nat)
    requires GoodList(sorted) && SortedByFree(sorted)
    ensures found ==>
      nodeId in Docs(sorted) && IsBestCandidate(Docs(sorted), copies, Docs(sorted).Keys, Copy(nodeId, slot))
    ensures !found ==> NoCandidateAmong(Docs(sorted), copies, Docs(sorted).Keys)
  {
    hide HasLiveCopy, WellSized;
    var i := 0;
    while i < |sorted|
      invariant 0 <= i <= |sorted|
      invariant forall j :: 0 <= j < i ==> HasLiveCopy(copies, {sorted[j].id})
    {
      if !HasLiveCopy(copies, {sorted[i].id}) {
        var index := sorted[i].GetFirstFreeBlock();
        if index == -1 {
          forall j | i <= j < |sorted| ensures FreeSlots(sorted[j].Doc()) == {} {
            assert FreeCount(sorted[j]) <= FreeCount(sorted[i]);
          }
          return false, "", 0;
        }
        forall j | 0 <= j < |sorted| && !HasLiveCopy(copies, {sorted[j].id})
          ensures FreeCount(sorted[j]) <= FreeCount(sorted[i])
        {
          assert i <= j;
        }
        return true, sorted[i].id, index;
      }
      i := i + 1;
    }
    return false, "", 0;
  }

  lemma UnusedSend(n: nat, nodes: Table, before: Disks, after: Disks, c: Copy)
    requires GoodTable(nodes) && !IsUsed(nodes, c)
    requires forall d :: InRange(nodes, d) && d != c ==> AsBefore(n, before, after, [], d)
    ensures ReadsKept(n, nodes, before, after, [])
  {
    hide ReadCopy, AsBefore;
  }

  lemma CandidateIsFree(nodes: Table, copies: seq<Copy>, live: set<NodeId>, c: Copy)
    requires GoodTable(nodes) && live <= nodes.Keys && c.nodeId in live && IsBestCandidate(nodes, copies, live, c)
    ensures InRange(nodes, c) && !IsUsed(nodes, c) && !HasLiveCopy(copies, {c.nodeId})
  {
  }

  lemma NewNodeForBlock(copies: seq<Copy>, id: NodeId)
    requires !HasLiveCopy(copies, {id})
    ensures forall d :: d in copies ==> d.nodeId != id
  {
  }

  lemma FaithfulWithCopy(n: nat, files: Files, disks: Disks, stored: map<FileId, seq<Text>>, ref: BlockRef, c: Copy,
                         intact: set<FileId>)
    requires Faithful(n, files, disks, stored, intact) && IsBlock(files, ref)
    requires ReadsAs(ReadCopy(n, disks, c), stored[ref.file][ref.index], ref.file in intact)
    ensures Faithful(n, WithBlock(files, ref, files[ref.file].blocks[ref.index] + [c]), disks, stored, intact)
  {
    hide ReadCopy, ReadsAs;
    var files' := WithBlock(files, ref, files[ref.file].blocks[ref.index] + [c]);
    forall r, d | Holds(files', r, d)
      ensures ReadsAs(ReadCopy(n, disks, d), stored[r.file][r.index], r.file in intact)
    {
      assert r != ref || d != c ==> Holds(files, r, d);
    }
  }

  /** What a copy of a file reads. */
  lemma BlockReads(n: nat, files: Files, disks: Disks, stored: map<FileId, seq<Text>>, intact: set<FileId>, r: BlockRef,
                   c: Copy)
    requires Faithful(n, files, disks, stored, intact) && IsBlock(files, r) && c in files[r.file].blocks[r.index]
    ensures r.index < |stored[r.file]| && ReadsAs(ReadCopy(n, disks, c), stored[r.file][r.index], r.file in intact)
    ensures ReadCopy(n, disks, c).Found? ==> |ReadCopy(n, disks, c).text| <= |stored[r.file][r.index]|
    ensures ReadCopy(n, disks, c).Found? ==> |ReadCopy(n, disks, c).text| < n
  {
    assert Holds(files, r, c);
  }

  /** The blocks that leave no room for a terminator. */
  function FullCount(n: nat, texts: seq<Text>): nat {
    if texts == [] then 0 else FullCount(n, texts[..|texts| - 1]) + if |texts[|texts| - 1]| < n then 0 else 1
  }

  lemma OneCountMore(n: nat, texts: seq<Text>, b: nat)
    requires b < |texts|
    ensures FullCount(n, texts[..b + 1]) == FullCount(n, texts[..b]) + if |texts[b]| < n then 0 else 1
  {
    assert texts[..b + 1][..b] == texts[..b];
  }

  lemma {:induction false} CountFull(n: nat, blocks: seq<Text>)
    ensures FullCount(n, Stored(blocks)) == 0 <==> AllShort(n, blocks)
  {
    if blocks != [] {
      var k := |blocks| - 1;
      CountFull(n, blocks[..k]);
      assert Stored(blocks)[..k] == Stored(blocks[..k]);
      assert AllShort(n, blocks) <==> AllShort(n, blocks[..k]) && |CString(blocks[k])| < n by {
        assert forall b :: 0 <= b < k ==> blocks[..k][b] == blocks[b];
      }
    }
  }

  /** Blocks that are not larger than a slot. */
  predicate AllFit(n: nat, blocks: seq<Text>) {
    forall b :: 0 <= b < |blocks| ==> |CString(blocks[b])| <= n
  }

  lemma CutFits(n: nat, text: Text, blocks: seq<Text>)
    requires Splitter.IsCut(text, n, blocks)
    ensures AllFit(n, blocks)
  {
    hide CString, Flatten;
    forall b | 0 <= b < |blocks| ensures |CString(blocks[b])| <= n {
      assert b < |blocks| - 1 ==> blocks[b] == blocks[..|blocks| - 1][b];
    }
  }

  lemma {:induction false} NoFullCopies(n: nat, plan: seq<seq<Copy>>, blocks: seq<Text>)
    requires AllShort(n, blocks)
    ensures FullCopies(n, plan, blocks) == []
  {
    if plan != [] && blocks != [] {
      assert |CString(blocks[0])| < n;
      NoFullCopies(n, plan[1..], blocks[1..]);
    }
  }

  lemma NothingFull(n: nat, files: Files, disks: Disks)
    ensures Spoiled(n, files, disks, []) == {}
  {
  }

  lemma NoneSpoiled(n: nat, files: Files, disks: Disks, plan: seq<seq<Copy>>, blocks: seq<Text>)
    requires AllShort(n, blocks)
    ensures Spoiled(n, files, disks, FullCopies(n, plan, blocks)) == {}
  {
    NoFullCopies(n, plan, blocks);
    NothingFull(n, files, disks);
  }

  /** A spoiled file has had a free slot in front of one of its copies. */
  lemma SpoiledInFront(n: nat, s: Snapshot, plan: seq<seq<Copy>>, blocks: seq<Text>)
    requires GoodTable(s.nodes) && forall c :: c in Flatten(plan) ==> !IsUsed(s.nodes, c)
    ensures forall f :: f in Spoiled(n, s.files, s.disks, FullCopies(n, plan, blocks)) ==> InFront(n, s, f)
  {
    hide ReadCopy, IsUsed, FullCopies;
    var full := FullCopies(n, plan, blocks);
    forall f | f in Spoiled(n, s.files, s.disks, full) ensures InFront(n, s, f) {
      var r, c :| Holds(s.files, r, c) && r.file == f && Behind(full, c) && ReadCopy(n, s.disks, c) != Found([]);
      var e :| e in full && c == Copy(e.nodeId, e.slot + 1);
      assert e == Copy(c.nodeId, c.slot - 1) && e in Flatten(plan);
    }
  }

  lemma IntactKnown(files: Files, stored: map<FileId, seq<Text>>, intact: set<FileId>, id: FileId, n: nat, disks: Disks)
    requires Faithful(n, files, disks, stored, intact) && id !in files
    ensures intact - {id} == intact
  {
  }

  lemma TableIsGood(n: nat, nodes: Table, disks: Disks)
    requires GoodDisks(n, nodes, disks)
    ensures GoodTable(nodes)
  {
  }

  lemma IntactStored(n: nat, files: Files, disks: Disks, stored: map<FileId, seq<Text>>, intact: set<FileId>)
    requires Faithful(n, files, disks, stored, intact)
    ensures intact <= stored.Keys
  {
  }

  /** A block that was read back had room for its terminator. */
  lemma FoundIsShort(n: nat, disks: Disks, c: Copy)
    requires ReadCopy(n, disks, c).Found?
    ensures |ReadCopy(n, disks, c).text| < n && NUL !in ReadCopy(n, disks, c).text
  {
  }

  lemma HeldIsKnown(nodes: Table, files: Files, r: BlockRef, c: Copy)
    requires Consistent(nodes, files) && Holds(files, r, c)
    ensures GoodTable(nodes) && c.nodeId in nodes && WellSized(nodes[c.nodeId])
  {
    UsedIsKnown(nodes, c);
  }

  lemma MarkedDisks(n: nat, nodes: Table, disks: Disks, c: Copy, used: bool)
    requires GoodDisks(n, nodes, disks) && c.nodeId in nodes
    ensures GoodDisks(n, MarkCopy(nodes, c, used), disks)
  {
  }

  lemma StillGood(n: nat, nodes: Table, disks: Disks, copies: seq<Copy>, used: bool)
    requires GoodDisks(n, nodes, disks) && AllKnown(nodes, copies)
    ensures GoodDisks(n, MarkAll(nodes, copies, used), disks)
  {
  }

  lemma FileGone(n: nat, files: Files, disks: Disks, stored: map<FileId, seq<Text>>, intact: set<FileId>, id: FileId)
    requires Faithful(n, files, disks, stored, intact)
    ensures Faithful(n, files - {id}, disks, stored - {id}, intact - {id})
  {
    hide ReadCopy;
    assert forall r, c :: Holds(files - {id}, r, c) ==> Holds(files, r, c);
  }

  /** Dropping copies of a block leaves the remaining ones faithful. */
  lemma FewerCopies(n: nat, files: Files, r: BlockRef, copies: seq<Copy>, disks: Disks, stored: map<FileId, seq<Text>>,
                    intact: set<FileId>)
    requires Faithful(n, files, disks, stored, intact) && IsBlock(files, r)
    requires forall c :: c in copies ==> c in files[r.file].blocks[r.index]
    ensures Faithful(n, WithBlock(files, r, copies), disks, stored, intact)
  {
    hide ReadCopy;
    var files' := WithBlock(files, r, copies);
    assert forall q, c :: Holds(files', q, c) ==> Holds(files, q, c);
  }

  lemma UsedIsKnown(nodes: Table, c: Copy)
    requires GoodTable(nodes) && IsUsed(nodes, c)
    ensures c.nodeId in nodes && WellSized(nodes[c.nodeId])
  {
  }

  ghost predicate SplitterEnds(str: Text, n: nat) {
    forall i: nat :: Splitter.Reached(str, n, i) ==> Splitter.CanCutAt(str, n, i)
  }

  /** After full-slot blocks the files that had nothing to lose behind them are intact if they were. */
  lemma FaithfulKept(n: nat, nodes: Table, files: Files, before: Disks, after: Disks, stored: map<FileId, seq<Text>>,
                     intact: set<FileId>, full: seq<Copy>)
    requires Consistent(nodes, files) && Faithful(n, files, before, stored, intact)
    requires ReadsKept(n, nodes, before, after, full)
    ensures Faithful(n, files, after, stored, intact - Spoiled(n, files, before, full))
  {
    hide ReadCopy, IsUsed, Behind;
    var left := intact - Spoiled(n, files, before, full);
    forall r, c | Holds(files, r, c) ensures ReadsAs(ReadCopy(n, after, c), stored[r.file][r.index], r.file in left) {
      assert IsUsed(nodes, c);
      assert AsBefore(n, before, after, full, c);
    }
  }

  /** And the others are not. */
  lemma SpoiledExactly(n: nat, nodes: Table, files: Files, before: Disks, after: Disks, full: seq<Copy>)
    requires Consistent(nodes, files)
    requires ReadsKept(n, nodes, before, after, full) && NextEmpty(n, nodes, after, full)
    ensures forall f :: f in files ==>
      (f in Spoiled(n, files, before, full) <==> !SameReads(n, files, before, after, f))
  {
    hide ReadCopy, IsUsed, Behind;
    forall r, c | Holds(files, r, c)
      ensures ReadCopy(n, after, c) == if Behind(full, c) then Found([]) else ReadCopy(n, before, c)
    {
      assert IsUsed(nodes, c);
      assert AsBefore(n, before, after, full, c);
    }
  }

  lemma FaithfulGrows(n: nat, files: Files, disks: Disks, stored: map<FileId, seq<Text>>, id: FileId, file: File,
                      blocks: seq<Text>, intact: set<FileId>, full: seq<Copy>)
    requires Faithful(n, files, disks, stored, intact) && id !in files
    requires |file.blocks| == |blocks| && PlanReads(n, disks, file.blocks, blocks, full)
    requires full == FullCopies(n, file.blocks, blocks)
    ensures Faithful(n, files[id := file], disks, stored[id := Stored(blocks)],
                     intact + if AllShort(n, blocks) then {id} else {})
  {
    if AllShort(n, blocks) {
      NoFullCopies(n, file.blocks, blocks);
    }
    hide ReadCopy, FullCopies, CString;
    var now := intact + if AllShort(n, blocks) then {id} else {};
    forall r, c | Holds(files[id := file], r, c)
      ensures ReadsAs(ReadCopy(n, disks, c), stored[id := Stored(blocks)][r.file][r.index], r.file in now)
    {
      if r.file != id {
        assert Holds(files, r, c);
      } else {
        assert ReadsSent(n, disks, full, c, CString(blocks[r.index]));
      }
    }
  }

  /** What the nodes are sent for each block. */
  ghost function Stored(blocks: seq<Text>): (r: seq<Text>)
    ensures |r| == |blocks|
  {
    seq(|blocks|, b requires 0 <= b < |blocks| => CString(blocks[b]))
  }

  lemma {:induction false} StoredText(blocks: seq<Text>)
    ensures NUL !in Flatten(blocks) ==> Flatten(Stored(blocks)) == Flatten(blocks)
  {
    if blocks != [] && NUL !in Flatten(blocks) {
      CStringIs(blocks[0], blocks[0]);
      StoredText(blocks[1..]);
      assert Stored(blocks)[1..] == Stored(blocks[1..]);
    }
  }

  /** Blocks that leave room for the terminator in their slot. */
  predicate AllShort(n: nat, blocks: seq<Text>) {
    forall b :: 0 <= b < |blocks| ==> |CString(blocks[b])| < n
  }

  /** Every slot in use reads as it did before, or empty behind a full one. */
  ghost predicate ReadsKept(n: nat, nodes: Table, before: Disks, after: Disks, full: seq<Copy>)
    requires GoodTable(nodes)
  {
    forall d :: IsUsed(nodes, d) ==> AsBefore(n, before, after, full, d)
  }

  /** Every slot in use behind a full one reads empty. */
  ghost predicate NextEmpty(n: nat, nodes: Table, after: Disks, full: seq<Copy>)
    requires GoodTable(nodes)
  {
    forall d :: IsUsed(nodes, d) && Behind(full, d) ==> ReadCopy(n, after, d) == Found([])
  }

  ghost predicate PlanReads(n: nat, disks: Disks, plan: seq<seq<Copy>>, blocks: seq<Text>, full: seq<Copy>)
    requires |plan| == |blocks|
  {
    forall b, c :: 0 <= b < |plan| && c in plan[b] ==> ReadsSent(n, disks, full, c, CString(blocks[b]))
  }

  lemma NothingChanged(n: nat, nodes: Table, disks: Disks)
    requires GoodTable(nodes)
    ensures ReadsKept(n, nodes, disks, disks, [])
  {
  }

  lemma CountsTransfer(t0: Table, t: Table, ids: seq<NodeId>)
    requires Listed(t0, ids) && GoodTable(t) && forall id :: id in t0 ==> id in t && t0[id] == t[id]
    ensures Listed(t, ids) && Counts(t, ids) == Counts(t0, ids)
  {
  }

  /** A plan made on the documents of the active nodes is a plan on the whole node collection. */
  lemma PlanTransfers(t0: Table, t: Table, plan: seq<seq<Copy>>, t1: Table)
    requires Planned(t0, plan, t1) && GoodTable(t) && forall id :: id in t0 ==> id in t && t0[id] == t[id]
    ensures IsPlan(t, plan) && AllKnown(t, Flatten(plan)) && AllKnown(t0, Flatten(plan))
    ensures forall id :: id in t0 ==> t1[id] == MarkAll(t, Flatten(plan), true)[id]
  {
    var flat := Flatten(plan);
    forall i | 0 <= i < |flat| ensures InRange(t, flat[i]) {
      assert InRange(t0, flat[i]);
    }
    forall id | id in t0 ensures t1[id] == MarkAll(t, flat, true)[id] {
      MarkAllAgrees(t0, t, flat, true, id);
    }
  }

  lemma PlanIsSent(n: nat, nodes: Table, disks: Disks, plan: seq<seq<Copy>>, blocks: seq<Text>, net: Copy -> Outcome)
    requires 1 <= n && GoodDisks(n, nodes, disks) && |plan| == |blocks| && IsPlan(nodes, plan) && AllFit(n, blocks)
    ensures ReadsKept(n, nodes, disks, SendPlan(n, disks, plan, blocks, net), FullCopies(n, plan, blocks))
    ensures (forall b, c :: 0 <= b < |plan| && c in plan[b] ==> net(c).Delivered?) ==>
      && NextEmpty(n, nodes, SendPlan(n, disks, plan, blocks, net), FullCopies(n, plan, blocks))
      && PlanReads(n, SendPlan(n, disks, plan, blocks, net), plan, blocks, FullCopies(n, plan, blocks))
  {
    hide ReadCopy, SendPlan, FullCopies, CString, Behind, AsBefore, ReadsSent, Flatten, IsUsed, InRange;
    SendPlanEffect(n, nodes, disks, plan, blocks, net);
    forall d | IsUsed(nodes, d) ensures d !in Flatten(plan) && InRange(nodes, d) {
      UsedInRange(nodes, d);
    }
    if forall b, c :: 0 <= b < |plan| && c in plan[b] ==> net(c).Delivered? {
      forall c | c in Flatten(plan) ensures net(c).Delivered? {
        InFlatten(plan, c);
      }
      forall b, c | 0 <= b < |plan| && c in plan[b]
        ensures ReadsSent(n, SendPlan(n, disks, plan, blocks, net), FullCopies(n, plan, blocks), c, CString(blocks[b]))
      {
        assert net(c).Delivered?;
      }
    }
  }

  lemma UsedInRange(nodes: Table, c: Copy)
    requires GoodTable(nodes) && IsUsed(nodes, c)
    ensures InRange(nodes, c)
  {
  }

  lemma KnownPart(t: Table, blocks: seq<seq<Copy>>, b: nat)
    requires b < |blocks| && AllKnown(t, Flatten(blocks))
    ensures AllKnown(t, Flatten(blocks[..b])) && AllKnown(t, blocks[b])
  {
    forall i | 0 <= i < |Flatten(blocks[..b])| ensures Flatten(blocks[..b])[i].nodeId in t {
      InFlatten(blocks[..b], Flatten(blocks[..b])[i]);
      InFlatten(blocks, Flatten(blocks[..b])[i]);
    }
    forall i | 0 <= i < |blocks[b]| ensures blocks[b][i].nodeId in t {
      InFlatten(blocks, blocks[b][i]);
    }
  }
}
