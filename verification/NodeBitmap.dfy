/** The slot bitmap of a node (FileSystem/src/structs/node.c). */
module NodeBitmap {

  type NodeId = string

  /** The document kept in the node collection. */
  datatype NodeDoc = NodeDoc(count: nat, bits: seq<bool>)

  /** Number of bits in the smallest whole number of bytes that holds count bits. */
  function PaddedBits(count: nat): (r: nat)
    ensures count <= r < count + 8 && r % 8 == 0
  {
    (count + 7) / 8 * 8
  }

  predicate WellSized(doc: NodeDoc) {
    |doc.bits| == PaddedBits(doc.count)
  }

  function FreshDoc(count: nat): (doc: NodeDoc)
    ensures WellSized(doc) && UsedSlots(doc) == {}
  {
    NodeDoc(count, seq(PaddedBits(count), _ => false))
  }

  function UsedSlots(doc: NodeDoc): set<nat>
    requires WellSized(doc)
  {
    set s: nat | s < doc.count && doc.bits[s]
  }

  function FreeSlots(doc: NodeDoc): set<nat>
    requires WellSized(doc)
  {
    set s: nat | s < doc.count && !doc.bits[s]
  }

  predicate IsFirstFree(doc: NodeDoc, slot: nat)
    requires WellSized(doc)
  {
    slot in FreeSlots(doc) && forall s :: s in FreeSlots(doc) ==> slot <= s
  }

  /** Slots outside the count are ignored, as the padding bits are never touched. */
  function Mark(doc: NodeDoc, slot: nat, used: bool): (r: NodeDoc)
    requires WellSized(doc)
    ensures WellSized(r) && r.count == doc.count
    ensures slot < doc.count ==> UsedSlots(r) == if used then UsedSlots(doc) + {slot} else UsedSlots(doc) - {slot}
    ensures slot < doc.count ==> FreeSlots(r) == if used then FreeSlots(doc) - {slot} else FreeSlots(doc) + {slot}
    ensures slot >= doc.count ==> r == doc
  {
    if slot < doc.count then doc.(bits := doc.bits[slot := used]) else doc
  }

  class Node {
    const id: NodeId
    var blocksCount: nat
    var blocks: seq<bool>

    /** The in-memory object made from a stored document. */
    constructor FromDoc(id: NodeId, doc: NodeDoc)
      ensures this.id == id && Doc() == doc
    {
      this.id := id;
      blocksCount := doc.count;
      blocks := doc.bits;
    }

    function Doc(): NodeDoc
      reads this
    {
      NodeDoc(blocksCount, blocks)
    }

    method SetAllBlocksFree()
      modifies this
      ensures Doc() == FreshDoc(old(blocksCount))
    {
      blocks := FreshDoc(blocksCount).bits;
    }

    method SetBlockUsed(blockIndex: nat)
      requires WellSized(Doc())
      modifies this
      ensures Doc() == Mark(old(Doc()), blockIndex, true)
    {
      if blockIndex < blocksCount {
        blocks := blocks[blockIndex := true];
      }
    }

    method SetBlockFree(blockIndex: nat)
      requires WellSized(Doc())
      modifies this
      ensures Doc() == Mark(old(Doc()), blockIndex, false)
    {
      if blockIndex < blocksCount {
        blocks := blocks[blockIndex := false];
      }
    }

    method GetBlocksFreeCount() returns (count: nat)
      requires WellSized(Doc())
      ensures count == |FreeSlots(Doc())|
    {
      count := 0;
      var i := 0;
      ghost var seen: set<nat> := {};
      while i < blocksCount
        invariant 0 <= i <= blocksCount
        invariant seen == (set s: nat | s < i && !blocks[s])
        invariant count == |seen|
      {
        if !blocks[i] {
          count := count + 1;
          seen := seen + {i};
        }
        i := i + 1;
      }
      assert seen == FreeSlots(Doc());
    }

    /** -1 when there is no free block. */
    method GetFirstFreeBlock() returns (index: int)
      requires WellSized(Doc())
      ensures index >= -1 && (index == -1 <==> FreeSlots(Doc()) == {})
      ensures index != -1 ==> IsFirstFree(Doc(), index)
    {
      var i := 0;
      while i < blocksCount
        invariant 0 <= i <= blocksCount
        invariant forall s :: 0 <= s < i ==> blocks[s]
      {
        if !blocks[i] {
          assert i in FreeSlots(Doc());
          return i;
        }
        i := i + 1;
      }
      return -1;
    }
  }
}
