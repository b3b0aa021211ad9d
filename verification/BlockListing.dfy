/** The list of a file's blocks and of where their copies are: printed by the file system
    (connections_marta_sendFileBlocks), read by MaRTA (requestFileBlocks). */
module BlockListing {
  import opened Bytes
  import opened Wire

  /** A copy as the file system stores it. */
  datatype BlockCopy = BlockCopy(nodeId: Text, slot: nat)

  /** Where an active node listens. */
  datatype Connection = Connection(ip: Text, port: nat)

  type Connections = map<Text, Connection>

  /** MaRTA's view of a node. */
  datatype NodeInfo = NodeInfo(ip: Text, port: nat, active: bool)

  type NodeList = map<Text, NodeInfo>

  /** A copy as MaRTA reads it. */
  datatype Entry = Entry(nodeId: Text, ip: Text, port: nat, slot: nat)

  predicate GoodEntry(e: Entry) {
    && |e.nodeId| < LIMIT32 && NUL !in e.nodeId && |e.ip| < LIMIT16 && NUL !in e.ip
    && e.port < LIMIT16 && e.slot < LIMIT16
  }

  predicate GoodConnections(conns: Connections) {
    forall id :: id in conns ==> GoodEntry(Entry(id, conns[id].ip, conns[id].port, 0))
  }

  /** The copies on active nodes, in the order stored. */
  function ActiveCopies(copies: seq<BlockCopy>, conns: Connections): (r: seq<BlockCopy>)
    ensures |r| <= |copies| && forall c :: c in r <==> c in copies && c.nodeId in conns
  {
    if copies == [] then [] else
    var rest := ActiveCopies(copies[1..], conns);
    assert copies == [copies[0]] + copies[1..];
    if copies[0].nodeId in conns then [copies[0]] + rest else rest
  }

  function Listing(blocks: seq<seq<BlockCopy>>, conns: Connections): (r: seq<seq<BlockCopy>>)
    ensures |r| == |blocks|
  {
    seq(|blocks|, i requires 0 <= i < |blocks| => ActiveCopies(blocks[i], conns))
  }

  /** Every block has a copy on an active node. */
  predicate Available(blocks: seq<seq<BlockCopy>>, conns: Connections) {
    forall b :: 0 <= b < |blocks| ==> ActiveCopies(blocks[b], conns) != []
  }

  /** The same by a count of 16 bits, which wraps around. */
  predicate AllCounted(blocks: seq<seq<BlockCopy>>, conns: Connections) {
    forall b :: 0 <= b < |blocks| ==> Count16(|ActiveCopies(blocks[b], conns)|) != 0
  }

  function CopyBytes(c: BlockCopy, conns: Connections): Text
    requires c.nodeId in conns
  {
    U32(|c.nodeId|) + (c.nodeId + (U16(|conns[c.nodeId].ip|)
      + (Cut16(conns[c.nodeId].ip) + (U16(conns[c.nodeId].port) + U16(c.slot)))))
  }

  predicate AllActive(copies: seq<BlockCopy>, conns: Connections) {
    forall i :: 0 <= i < |copies| ==> copies[i].nodeId in conns
  }

  function CopiesBytes(copies: seq<BlockCopy>, conns: Connections): Text
    requires AllActive(copies, conns)
  {
    if copies == [] then [] else CopyBytes(copies[0], conns) + CopiesBytes(copies[1..], conns)
  }

  function BlockBytes(copies: seq<BlockCopy>, conns: Connections): Text
    requires AllActive(copies, conns)
  {
    U16(|copies|) + CopiesBytes(copies, conns)
  }

  function BlocksBytes(blocks: seq<seq<BlockCopy>>, conns: Connections): Text {
    if blocks == [] then []
    else BlockBytes(ActiveCopies(blocks[0], conns), conns) + BlocksBytes(blocks[1..], conns)
  }

  lemma {:induction false} CopiesBytesAppend(copies: seq<BlockCopy>, c: BlockCopy, conns: Connections)
    requires AllActive(copies, conns) && c.nodeId in conns
    ensures CopiesBytes(copies + [c], conns) == CopiesBytes(copies, conns) + CopyBytes(c, conns)
  {
    hide CopyBytes;
    if copies == [] {
      assert copies + [c] == [c] && [c][1..] == [];
    } else {
      CopiesBytesAppend(copies[1..], c, conns);
      assert (copies + [c])[1..] == copies[1..] + [c] && (copies + [c])[0] == copies[0];
      Assoc(CopyBytes(copies[0], conns), CopiesBytes(copies[1..], conns), CopyBytes(c, conns));
    }
  }

  function IfActive(c: BlockCopy, conns: Connections): seq<BlockCopy> {
    if c.nodeId in conns then [c] else []
  }

  lemma FirstActive(copies: seq<BlockCopy>, conns: Connections)
    requires copies != []
    ensures ActiveCopies(copies, conns) == IfActive(copies[0], conns) + ActiveCopies(copies[1..], conns)
  {
    assert [] + ActiveCopies(copies[1..], conns) == ActiveCopies(copies[1..], conns);
  }

  lemma {:induction false} ActiveCopiesAppend(copies: seq<BlockCopy>, c: BlockCopy, conns: Connections)
    ensures ActiveCopies(copies + [c], conns) == ActiveCopies(copies, conns) + IfActive(c, conns)
  {
    hide ActiveCopies, IfActive;
    FirstActive(copies + [c], conns);
    if copies == [] {
      assert copies + [c] == [c] && [c][1..] == [];
    } else {
      FirstActive(copies, conns);
      ActiveCopiesAppend(copies[1..], c, conns);
      assert (copies + [c])[1..] == copies[1..] + [c] && (copies + [c])[0] == copies[0];
      var x, y, z := IfActive(copies[0], conns), ActiveCopies(copies[1..], conns), IfActive(c, conns);
      assert x + (y + z) == x + y + z;
    }
  }

  lemma {:induction false} BlocksBytesAppend(blocks: seq<seq<BlockCopy>>, copies: seq<BlockCopy>, conns: Connections)
    ensures BlocksBytes(blocks + [copies], conns) ==
      BlocksBytes(blocks, conns) + BlockBytes(ActiveCopies(copies, conns), conns)
  {
    hide BlockBytes, ActiveCopies;
    if blocks == [] {
      assert blocks + [copies] == [copies] && [copies][1..] == [];
    } else {
      BlocksBytesAppend(blocks[1..], copies, conns);
      assert (blocks + [copies])[1..] == blocks[1..] + [copies] && (blocks + [copies])[0] == blocks[0];
      Assoc(BlockBytes(ActiveCopies(blocks[0], conns), conns), BlocksBytes(blocks[1..], conns),
        BlockBytes(ActiveCopies(copies, conns), conns));
    }
  }

  method PrintCopy(c: BlockCopy, conns: Connections) returns (bytes: Text)
    requires c.nodeId in conns
    ensures bytes == CopyBytes(c, conns)
  {
    hide U32, U16, Cut16;
    var conn := conns[c.nodeId];
    bytes := U32(|c.nodeId|) + c.nodeId;
    bytes := bytes + U16(|conn.ip|) + Cut16(conn.ip);
    bytes := bytes + U16(conn.port) + U16(c.slot);
    Assoc6([], U32(|c.nodeId|), c.nodeId, U16(|conn.ip|), Cut16(conn.ip), U16(conn.port), U16(c.slot));
  }

  lemma NoneCounted(conns: Connections)
    ensures Count16(0) == 0 && ActiveCopies([], conns) == [] && CopiesBytes([], conns) == []
  {
  }

  method PrintCopies(copies: seq<BlockCopy>, conns: Connections) returns (count: nat, buffer: Text)
    ensures count == Count16(|ActiveCopies(copies, conns)|)
    ensures buffer == CopiesBytes(ActiveCopies(copies, conns), conns)
  {
    hide CopyBytes, Count16, ActiveCopies, CopiesBytes;
    NoneCounted(conns);
    count, buffer := 0, [];
    var k := 0;
    while k < |copies|
      invariant 0 <= k <= |copies|
      invariant count == Count16(|ActiveCopies(copies[..k], conns)|)
      invariant buffer == CopiesBytes(ActiveCopies(copies[..k], conns), conns)
    {
      ActiveCopiesAppend(copies[..k], copies[k], conns);
      assert copies[..k + 1] == copies[..k] + [copies[k]];
      if copies[k].nodeId in conns {
        CopiesBytesAppend(ActiveCopies(copies[..k], conns), copies[k], conns);
        var bytes := PrintCopy(copies[k], conns);
        buffer := buffer + bytes;
        OneMore16(|ActiveCopies(copies[..k], conns)|);
        count := Count16(count + 1);
      } else {
        assert ActiveCopies(copies[..k], conns) + [] == ActiveCopies(copies[..k], conns);
      }
      k := k + 1;
    }
    assert copies[..k] == copies;
  }

  function Reply(blocks: seq<seq<BlockCopy>>, conns: Connections): Text {
    if AllCounted(blocks, conns) then U16(|blocks|) + BlocksBytes(blocks, conns) else U16(0)
  }

  /** The reply to MaRTA; a count of zero blocks means the file is not available. */
  method SendFileBlocks(blocks: seq<seq<BlockCopy>>, conns: Connections) returns (reply: Text)
    ensures reply == Reply(blocks, conns)
  {
    hide U16, ActiveCopies, CopiesBytes;
    var fileAvailable := true;
    var buffer := U16(|blocks|);
    var b := 0;
    while b < |blocks|
      invariant 0 <= b <= |blocks|
      invariant fileAvailable ==> forall d :: 0 <= d < b ==> Count16(|ActiveCopies(blocks[d], conns)|) != 0
      invariant fileAvailable ==> buffer == U16(|blocks|) + BlocksBytes(blocks[..b], conns)
      invariant !fileAvailable ==> !AllCounted(blocks, conns)
    {
      if fileAvailable {
        var count, copiesBuffer := PrintCopies(blocks[b], conns);
        if count == 0 {
          fileAvailable := false;
        } else {
          BlocksBytesAppend(blocks[..b], blocks[b], conns);
          Printed16(|ActiveCopies(blocks[b], conns)|);
          assert blocks[..b + 1] == blocks[..b] + [blocks[b]];
          Assoc(U16(|blocks|), BlocksBytes(blocks[..b], conns), U16(count) + copiesBuffer);
          Assoc(buffer, U16(count), copiesBuffer);
          buffer := buffer + U16(count);
          buffer := buffer + copiesBuffer;
        }
      }
      b := b + 1;
    }
    assert blocks[..b] == blocks;
    reply := if fileAvailable then buffer else U16(0);
  }

  function ParseEntry(b: Text, offset: nat): Parsed<Entry> {
    match ReadString32(b, offset) case Overrun => Overrun case Ok(nodeId, o1) =>
    match ReadString16(b, o1) case Overrun => Overrun case Ok(ip, o2) =>
    match Read16(b, o2) case Overrun => Overrun case Ok(port, o3) =>
    match Read16(b, o3) case Overrun => Overrun case Ok(slot, o4) =>
    Ok(Entry(nodeId, ip, port, slot), o4)
  }

  function ParseEntries(b: Text, offset: nat, count: nat, read: seq<Entry>): Parsed<seq<Entry>>
    decreases count
  {
    if count == 0 then Ok(read, offset)
    else match ParseEntry(b, offset)
      case Overrun => Overrun
      case Ok(e, next) => ParseEntries(b, next, count - 1, read + [e])
  }

  function ParseBlock(b: Text, offset: nat): Parsed<seq<Entry>> {
    match Read16(b, offset)
    case Overrun => Overrun
    case Ok(count, o) => ParseEntries(b, o, count, [])
  }

  function ParseBlocks(b: Text, offset: nat, count: nat, read: seq<seq<Entry>>): Parsed<seq<seq<Entry>>>
    decreases count
  {
    if count == 0 then Ok(read, offset)
    else match ParseBlock(b, offset)
      case Overrun => Overrun
      case Ok(entries, next) => ParseBlocks(b, next, count - 1, read + [entries])
  }

  function ParseReply(b: Text): Parsed<seq<seq<Entry>>> {
    match Read16(b, 0)
    case Overrun => Overrun
    case Ok(count, o) => ParseBlocks(b, o, count, [])
  }

  function CopiesOf(entries: seq<Entry>): (r: seq<BlockCopy>)
    ensures |r| == |entries|
  {
    seq(|entries|, i requires 0 <= i < |entries| => BlockCopy(entries[i].nodeId, entries[i].slot))
  }

  /** A node that is listed is known, active, and listens where the listing says. */
  function UpdateNode(nodes: NodeList, e: Entry): NodeList {
    nodes[e.nodeId := NodeInfo(e.ip, e.port, true)]
  }

  function UpdateNodes(nodes: NodeList, entries: seq<Entry>): NodeList
    decreases |entries|
  {
    if entries == [] then nodes else UpdateNodes(UpdateNode(nodes, entries[0]), entries[1..])
  }

  lemma {:induction false} UpdateNodesAppend(nodes: NodeList, a: seq<Entry>, e: Entry)
    ensures UpdateNodes(nodes, a + [e]) == UpdateNode(UpdateNodes(nodes, a), e)
    decreases |a|
  {
    if a == [] {
      assert a + [e] == [e] && [e][1..] == [];
    } else {
      UpdateNodesAppend(UpdateNode(nodes, a[0]), a[1..], e);
      assert (a + [e])[1..] == a[1..] + [e] && (a + [e])[0] == a[0];
    }
  }

  datatype FileBlocks = Unavailable | Blocks(copies: seq<seq<BlockCopy>>) | Malformed

  /** One block of the reply. */
  method ReadBlock(reply: Text, offset: nat, nodes: NodeList)
    returns (r: Parsed<seq<BlockCopy>>, nodes': NodeList, ghost entries: seq<Entry>)
    ensures r.Overrun? <==> ParseBlock(reply, offset).Overrun?
    ensures r.Ok? ==> ParseBlock(reply, offset) == Ok(entries, r.next)
    ensures r.Ok? ==> r.value == CopiesOf(entries) && nodes' == UpdateNodes(nodes, entries)
  {
    hide ParseEntry;
    nodes', entries := nodes, [];
    var count := Read16(reply, offset);
    if count.Overrun? {
      return Overrun, nodes', entries;
    }
    var copies: seq<BlockCopy> := [];
    var at := count.next;
    var j := 0;
    while j < count.value
      invariant 0 <= j <= count.value
      invariant ParseEntries(reply, at, count.value - j, entries) == ParseEntries(reply, count.next, count.value, [])
      invariant copies == CopiesOf(entries) && nodes' == UpdateNodes(nodes, entries)
    {
      var e := ParseEntry(reply, at);
      if e.Overrun? {
        return Overrun, nodes', entries;
      }
      UpdateNodesAppend(nodes, entries, e.value);
      nodes' := UpdateNode(nodes', e.value);
      copies := copies + [BlockCopy(e.value.nodeId, e.value.slot)];
      entries := entries + [e.value];
      at := e.next;
      j := j + 1;
    }
    r := Ok(copies, at);
  }

  function AllCopiesOf(entries: seq<seq<Entry>>): (r: seq<seq<BlockCopy>>)
    ensures |r| == |entries|
  {
    seq(|entries|, i requires 0 <= i < |entries| => CopiesOf(entries[i]))
  }

  method RequestFileBlocks(reply: Text, nodes: NodeList)
    returns (r: FileBlocks, nodes': NodeList, ghost entries: seq<seq<Entry>>)
    ensures r.Malformed? <==> ParseReply(reply).Overrun?
    ensures r.Unavailable? <==> Read16(reply, 0).Ok? && Read16(reply, 0).value == 0
    ensures r.Unavailable? ==> nodes' == nodes
    ensures r.Blocks? ==> ParseReply(reply).Ok? && ParseReply(reply).value == entries
    ensures r.Blocks? ==> r.copies == AllCopiesOf(entries) && nodes' == UpdateNodes(nodes, Flatten(entries))
  {
    hide ParseBlock, UpdateNodes;
    nodes', entries := nodes, [];
    var blocksCount := Read16(reply, 0);
    if blocksCount.Overrun? {
      return Malformed, nodes', entries;
    }
    if blocksCount.value == 0 {
      return Unavailable, nodes', entries;
    }
    var copies: seq<seq<BlockCopy>> := [];
    var at := blocksCount.next;
    var i := 0;
    NoUpdates(nodes);
    while i < blocksCount.value
      invariant 0 <= i <= blocksCount.value
      invariant ParseBlocks(reply, at, blocksCount.value - i, entries)
        == ParseBlocks(reply, blocksCount.next, blocksCount.value, [])
      invariant copies == AllCopiesOf(entries) && nodes' == UpdateNodes(nodes, Flatten(entries))
    {
      var block;
      ghost var blockEntries;
      ghost var before := nodes';
      block, nodes', blockEntries := ReadBlock(reply, at, nodes');
      if block.Overrun? {
        return Malformed, nodes', entries;
      }
      UpdatesCompose(nodes, Flatten(entries), blockEntries);
      FlattenAppend(entries, [blockEntries]);
      assert Flatten([blockEntries]) == blockEntries;
      copies := copies + [block.value];
      entries := entries + [blockEntries];
      at := block.next;
      i := i + 1;
    }
    r := Blocks(copies);
  }

  lemma NoUpdates(nodes: NodeList)
    ensures UpdateNodes(nodes, []) == nodes
  {
  }

  lemma {:induction false} UpdatesCompose(nodes: NodeList, a: seq<Entry>, b: seq<Entry>)
    ensures UpdateNodes(nodes, a + b) == UpdateNodes(UpdateNodes(nodes, a), b)
    decreases |a|
  {
    if a == [] {
      assert a + b == b;
    } else {
      UpdatesCompose(UpdateNode(nodes, a[0]), a[1..], b);
      assert (a + b)[1..] == a[1..] + b && (a + b)[0] == a[0];
    }
  }

  function EntryOf(c: BlockCopy, conns: Connections): Entry
    requires c.nodeId in conns
  {
    Entry(c.nodeId, conns[c.nodeId].ip, conns[c.nodeId].port, c.slot)
  }

  function EntriesOf(copies: seq<BlockCopy>, conns: Connections): (r: seq<Entry>)
    requires AllActive(copies, conns)
    ensures |r| == |copies|
  {
    seq(|copies|, i requires 0 <= i < |copies| => EntryOf(copies[i], conns))
  }

  predicate GoodCopies(copies: seq<BlockCopy>) {
    |copies| < LIMIT16 && forall i :: 0 <= i < |copies| ==> copies[i].slot < LIMIT16
  }

  lemma ReadBackEntry(b: Text, offset: nat, c: BlockCopy, conns: Connections, rest: Text)
    requires GoodConnections(conns) && c.nodeId in conns && c.slot < LIMIT16
    requires At(b, offset, CopyBytes(c, conns) + rest)
    ensures ParseEntry(b, offset) == Ok(EntryOf(c, conns), offset + |CopyBytes(c, conns)|)
    ensures At(b, offset + |CopyBytes(c, conns)|, rest)
  {
    hide U32, U16, ReadString32, ReadString16, Read16, At, CopyBytes;
    var conn := conns[c.nodeId];
    AtParts(b, offset, CopyBytes(c, conns), rest);
    CopyShape(c, conns);
    var f2 := U16(conn.port) + U16(c.slot);
    var f1 := U16(|conn.ip|) + (Cut16(conn.ip) + f2);
    ReadBackString32(b, offset, c.nodeId, f1);
    var o := offset + 4 + |c.nodeId|;
    ReadBackString16(b, o, conn.ip, f2);
    ReadBack16(b, o + 2 + |conn.ip|, conn.port, U16(c.slot));
    assert U16(c.slot) + [] == U16(c.slot);
    ReadBack16(b, o + 2 + |conn.ip| + 2, c.slot, []);
  }

  lemma CopyShape(c: BlockCopy, conns: Connections)
    requires c.nodeId in conns && |conns[c.nodeId].ip| < LIMIT16
    ensures CopyBytes(c, conns) == U32(|c.nodeId|) + (c.nodeId + (U16(|conns[c.nodeId].ip|)
      + (Cut16(conns[c.nodeId].ip) + (U16(conns[c.nodeId].port) + U16(c.slot)))))
    ensures |CopyBytes(c, conns)| == 4 + |c.nodeId| + 2 + |conns[c.nodeId].ip| + 2 + 2
  {
  }

  lemma {:induction false} ReadBackEntries(b: Text, offset: nat, copies: seq<BlockCopy>, conns: Connections, rest: Text,
                                           read: seq<Entry>)
    requires GoodConnections(conns) && AllActive(copies, conns) && GoodCopies(copies)
    requires At(b, offset, CopiesBytes(copies, conns) + rest)
    ensures ParseEntries(b, offset, |copies|, read)
      == Ok(read + EntriesOf(copies, conns), offset + |CopiesBytes(copies, conns)|)
    ensures At(b, offset + |CopiesBytes(copies, conns)|, rest)
    decreases |copies|
  {
    hide ParseEntry, CopyBytes, At, GoodConnections;
    if copies == [] {
      assert read + EntriesOf(copies, conns) == read && [] + rest == rest;
    } else {
      var first, others := CopyBytes(copies[0], conns), CopiesBytes(copies[1..], conns);
      Assoc(first, others, rest);
      ReadBackEntry(b, offset, copies[0], conns, others + rest);
      var e := EntryOf(copies[0], conns);
      ReadBackEntries(b, offset + |first|, copies[1..], conns, rest, read + [e]);
      assert read + [e] + EntriesOf(copies[1..], conns) == read + EntriesOf(copies, conns);
    }
  }

  lemma ReadBackBlock(b: Text, offset: nat, copies: seq<BlockCopy>, conns: Connections, rest: Text)
    requires GoodConnections(conns) && AllActive(copies, conns) && GoodCopies(copies)
    requires At(b, offset, BlockBytes(copies, conns) + rest)
    ensures ParseBlock(b, offset) == Ok(EntriesOf(copies, conns), offset + |BlockBytes(copies, conns)|)
    ensures At(b, offset + |BlockBytes(copies, conns)|, rest)
  {
    hide At, Read16, U16, CopiesBytes, ParseEntries, GoodConnections;
    Assoc(U16(|copies|), CopiesBytes(copies, conns), rest);
    ReadBack16(b, offset, |copies|, CopiesBytes(copies, conns) + rest);
    ReadBackEntries(b, offset + 2, copies, conns, rest, []);
    assert [] + EntriesOf(copies, conns) == EntriesOf(copies, conns);
  }

  /** The entries for every block's copies on active nodes. */
  function ListedEntries(blocks: seq<seq<BlockCopy>>, conns: Connections): (r: seq<seq<Entry>>)
    ensures |r| == |blocks|
  {
    seq(|blocks|, i requires 0 <= i < |blocks| => EntriesOf(ActiveCopies(blocks[i], conns), conns))
  }

  predicate GoodBlocks(blocks: seq<seq<BlockCopy>>) {
    |blocks| < LIMIT16 && forall i :: 0 <= i < |blocks| ==> GoodCopies(blocks[i])
  }

  lemma ActiveGood(copies: seq<BlockCopy>, conns: Connections)
    requires GoodCopies(copies)
    ensures GoodCopies(ActiveCopies(copies, conns)) && AllActive(ActiveCopies(copies, conns), conns)
  {
    forall c | c in ActiveCopies(copies, conns) ensures c.slot < LIMIT16 {
      assert c in copies;
    }
  }

  lemma {:induction false} ReadBackBlocks(b: Text, offset: nat, blocks: seq<seq<BlockCopy>>, conns: Connections,
                                          read: seq<seq<Entry>>)
    requires GoodConnections(conns) && GoodBlocks(blocks) && At(b, offset, BlocksBytes(blocks, conns))
    ensures ParseBlocks(b, offset, |blocks|, read)
      == Ok(read + ListedEntries(blocks, conns), offset + |BlocksBytes(blocks, conns)|)
    decreases |blocks|
  {
    hide ParseBlock, BlockBytes, At, GoodConnections, ActiveCopies, GoodCopies;
    if blocks == [] {
      assert read + ListedEntries(blocks, conns) == read;
    } else {
      var copies := ActiveCopies(blocks[0], conns);
      ActiveGood(blocks[0], conns);
      ReadBackBlock(b, offset, copies, conns, BlocksBytes(blocks[1..], conns));
      var e := EntriesOf(copies, conns);
      ReadBackBlocks(b, offset + |BlockBytes(copies, conns)|, blocks[1..], conns, read + [e]);
      assert read + [e] + ListedEntries(blocks[1..], conns) == read + ListedEntries(blocks, conns);
    }
  }

  /** What MaRTA reads is, block by block and in order, the file's copies on active nodes. */
  lemma ListingSurvives(blocks: seq<seq<BlockCopy>>, conns: Connections)
    requires GoodConnections(conns) && GoodBlocks(blocks)
    ensures
      var reply := U16(|blocks|) + BlocksBytes(blocks, conns);
      && ParseReply(reply) == Ok(ListedEntries(blocks, conns), |reply|)
      && AllCopiesOf(ListedEntries(blocks, conns)) == Listing(blocks, conns)
  {
    hide U16, Read16, ParseBlocks, BlocksBytes, ActiveCopies, GoodConnections;
    var reply := U16(|blocks|) + BlocksBytes(blocks, conns);
    assert At(reply, 0, U16(|blocks|) + BlocksBytes(blocks, conns));
    ReadBack16(reply, 0, |blocks|, BlocksBytes(blocks, conns));
    ReadBackBlocks(reply, 2, blocks, conns, []);
    assert [] + ListedEntries(blocks, conns) == ListedEntries(blocks, conns);
    ListedCopies(blocks, conns);
  }

  lemma ListedCopies(blocks: seq<seq<BlockCopy>>, conns: Connections)
    ensures AllCopiesOf(ListedEntries(blocks, conns)) == Listing(blocks, conns)
  {
    hide ActiveCopies;
    forall i | 0 <= i < |blocks| ensures CopiesOf(ListedEntries(blocks, conns)[i]) == Listing(blocks, conns)[i] {
    }
  }

  /** For every file MaRTA takes the reply as "not available" exactly when the number of active copies of some block, or
      the number of blocks, is a multiple of 65536, zero included. */
  lemma UnavailableIff(blocks: seq<seq<BlockCopy>>, conns: Connections)
    ensures Read16(Reply(blocks, conns), 0).Ok?
    ensures Read16(Reply(blocks, conns), 0).value == 0 <==>
      |blocks| % LIMIT16 == 0 || exists b :: 0 <= b < |blocks| && |ActiveCopies(blocks[b], conns)| % LIMIT16 == 0
  {
    var count := if AllCounted(blocks, conns) then |blocks| else 0;
    assert Reply(blocks, conns)[0..2] == U16(count);
  }

  /** Blocks with few copies are counted right. */
  lemma CountedIff(blocks: seq<seq<BlockCopy>>, conns: Connections)
    requires GoodBlocks(blocks)
    ensures AllCounted(blocks, conns) <==> Available(blocks, conns)
  {
  }

  ghost predicate IsListed(blocks: seq<seq<BlockCopy>>, conns: Connections, id: Text) {
    id in conns && exists b, k :: 0 <= b < |blocks| && 0 <= k < |blocks[b]| && blocks[b][k].nodeId == id
  }

  predicate IsFrom(e: Entry, conns: Connections) {
    e.nodeId in conns && e.ip == conns[e.nodeId].ip && e.port == conns[e.nodeId].port
  }

  /** MaRTA's node list after the entries of some connections: listed nodes are active and listen where their connection
      says, others are as before. */
  lemma {:induction false} NodesAfter(nodes: NodeList, entries: seq<Entry>, conns: Connections, id: Text)
    requires forall i :: 0 <= i < |entries| ==> IsFrom(entries[i], conns)
    ensures (exists i :: 0 <= i < |entries| && entries[i].nodeId == id) ==>
      id in conns && id in UpdateNodes(nodes, entries) &&
      UpdateNodes(nodes, entries)[id] == NodeInfo(conns[id].ip, conns[id].port, true)
    ensures (forall i :: 0 <= i < |entries| ==> entries[i].nodeId != id) ==>
      (id in UpdateNodes(nodes, entries) <==> id in nodes) &&
      (id in nodes ==> UpdateNodes(nodes, entries)[id] == nodes[id])
    decreases |entries|
  {
    if entries != [] {
      NodesAfter(UpdateNode(nodes, entries[0]), entries[1..], conns, id);
      assert forall i :: 1 <= i < |entries| ==> entries[i] == entries[1..][i - 1];
      if entries[0].nodeId == id && forall i :: 0 <= i < |entries[1..]| ==> entries[1..][i].nodeId != id {
        assert UpdateNode(nodes, entries[0])[id] == NodeInfo(conns[id].ip, conns[id].port, true);
      }
    }
  }

  lemma ListedNodes(blocks: seq<seq<BlockCopy>>, conns: Connections, id: Text)
    ensures (exists e :: e in Flatten(ListedEntries(blocks, conns)) && e.nodeId == id) <==> IsListed(blocks, conns, id)
    ensures forall e :: e in Flatten(ListedEntries(blocks, conns)) ==> IsFrom(e, conns)
  {
    var listed := ListedEntries(blocks, conns);
    forall e: Entry | e in Flatten(listed)
      ensures IsFrom(e, conns)
      ensures IsListed(blocks, conns, e.nodeId)
    {
      InFlatten(listed, e);
      var b :| 0 <= b < |listed| && e in listed[b];
      var active := ActiveCopies(blocks[b], conns);
      var i :| 0 <= i < |listed[b]| && listed[b][i] == e;
      assert active[i] in blocks[b];
    }
    if IsListed(blocks, conns, id) {
      var b, k :| 0 <= b < |blocks| && 0 <= k < |blocks[b]| && blocks[b][k].nodeId == id;
      var active := ActiveCopies(blocks[b], conns);
      assert blocks[b][k] in active;
      var i :| 0 <= i < |active| && active[i] == blocks[b][k];
      var e := listed[b][i];
      InFlatten(listed, e);
      assert e in listed[b];
    }
  }

  /** The whole exchange: the file system answers and MaRTA reads the answer. */
  method AskForBlocks(blocks: seq<seq<BlockCopy>>, conns: Connections, nodes: NodeList)
    returns (r: FileBlocks, nodes': NodeList)
    requires GoodConnections(conns) && GoodBlocks(blocks)
    ensures r == if Available(blocks, conns) && blocks != [] then Blocks(Listing(blocks, conns)) else Unavailable
    ensures r.Unavailable? ==> nodes' == nodes
    ensures r.Blocks? ==> forall id :: IsListed(blocks, conns, id) ==>
      id in nodes' && nodes'[id] == NodeInfo(conns[id].ip, conns[id].port, true)
    ensures r.Blocks? ==> forall id :: !IsListed(blocks, conns, id) ==>
      (id in nodes' <==> id in nodes) && (id in nodes ==> nodes'[id] == nodes[id])
  {
    hide GoodConnections, ActiveCopies, BlocksBytes, U16, Read16, ParseReply, UpdateNodes, IsListed;
    var reply := SendFileBlocks(blocks, conns);
    ghost var entries;
    r, nodes', entries := RequestFileBlocks(reply, nodes);
    UnavailableIff(blocks, conns);
    CountedIff(blocks, conns);
    ListingSurvives(blocks, conns);
    if r.Blocks? {
      forall id
        ensures IsListed(blocks, conns, id) ==>
          id in conns && id in nodes' && nodes'[id] == NodeInfo(conns[id].ip, conns[id].port, true)
        ensures !IsListed(blocks, conns, id) ==>
          (id in nodes' <==> id in nodes) && (id in nodes ==> nodes'[id] == nodes[id])
      {
        ListedNodes(blocks, conns, id);
        NodesAfter(nodes, Flatten(entries), conns, id);
      }
    }
  }
}
