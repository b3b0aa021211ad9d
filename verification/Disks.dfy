/** The bin files of all nodes, and what sending the blocks of a plan does to them. */
module Disks {
  import opened Bytes
  import opened NodeBitmap
  import opened NodeTable
  import opened SlotStore
  import Framing

  type Disks = map<NodeId, Text>

  /** How one block transfer ends: complete, cut off after some bytes of the size or of the block, or not attempted. */
  datatype Outcome = Delivered | BrokenSize(header: nat) | Broken(received: nat) | NotTried {
    predicate IsBroken() {
      Broken? || BrokenSize?
    }
  }

  /** Every node of the table has a bin file of blocksCount slots of n bytes. */
  ghost predicate GoodDisks(n: nat, nodes: Table, disks: Disks) {
    GoodTable(nodes) && forall id :: id in nodes ==> id in disks && |disks[id]| == nodes[id].count * n
  }

  lemma SlotInDisk(n: nat, nodes: Table, disks: Disks, c: Copy)
    requires GoodDisks(n, nodes, disks) && InRange(nodes, c)
    ensures InFile(disks[c.nodeId], n, c.slot)
  {
    NextBase(n, c.slot);
    ProductGrows(c.slot + 1, nodes[c.nodeId].count, n);
  }

  /** What the file system gets when it asks for a copy. */
  function ReadCopy(n: nat, disks: Disks, c: Copy): Read {
    if c.nodeId in disks && InFile(disks[c.nodeId], n, c.slot) then SlotText(disks[c.nodeId], n, c.slot) else Overrun
  }

  function Arrived(packet: Text, outcome: Outcome): (r: nat)
    ensures r <= |packet|
  {
    match outcome
    case Delivered => |packet|
    case Broken(received) => if received <= |packet| then received else |packet|
    case _ => 0
  }

  /** What the node takes for the length of the block. */
  function Length(packet: Text, outcome: Outcome): (r: nat)
    ensures r <= |packet|
  {
    if outcome.BrokenSize? && outcome.header < Framing.SIZE_BYTES then
      Framing.TruncatedSize(|packet|, outcome.header);
      Framing.Truncated(|packet|, outcome.header)
    else |packet|
  }

  function SendOne(n: nat, disks: Disks, c: Copy, packet: Text, outcome: Outcome): (r: Disks)
    ensures r.Keys == disks.Keys && forall id :: id in disks ==> |r[id]| == |disks[id]|
  {
    if outcome.NotTried? || c.nodeId !in disks || Base(n, c.slot) + |packet| > |disks[c.nodeId]| then disks
    else disks[c.nodeId := Written(disks[c.nodeId], n, c.slot, packet, Arrived(packet, outcome),
      Length(packet, outcome))]
  }

  function SendBlock(n: nat, disks: Disks, copies: seq<Copy>, packet: Text, net: Copy -> Outcome): (r: Disks)
    ensures r.Keys == disks.Keys && forall id :: id in disks ==> |r[id]| == |disks[id]|
  {
    if copies == [] then disks
    else SendBlock(n, SendOne(n, disks, copies[0], packet, net(copies[0])), copies[1..], packet, net)
  }

  function SendPlan(n: nat, disks: Disks, plan: seq<seq<Copy>>, blocks: seq<Text>, net: Copy -> Outcome): (r: Disks)
    requires |plan| == |blocks|
    ensures r.Keys == disks.Keys && forall id :: id in disks ==> |r[id]| == |disks[id]|
  {
    if plan == [] then disks
    else SendPlan(n, SendBlock(n, disks, plan[0], CString(blocks[0]), net), plan[1..], blocks[1..], net)
  }

  /** The slot just behind one of these copies. */
  ghost predicate Behind(copies: seq<Copy>, d: Copy) {
    exists c :: c in copies && d == Copy(c.nodeId, c.slot + 1)
  }

  /** The copies of a block that leaves no room for its terminator in a slot. */
  function FullOf(n: nat, copies: seq<Copy>, packet: Text): seq<Copy> {
    if |packet| < n then [] else copies
  }

  function FullCopies(n: nat, plan: seq<seq<Copy>>, blocks: seq<Text>): (r: seq<Copy>)
    ensures forall c :: c in r ==> c in Flatten(plan)
  {
    if plan == [] || blocks == [] then []
    else FullOf(n, plan[0], CString(blocks[0])) + FullCopies(n, plan[1..], blocks[1..])
  }

  /** What a slot reads once a block has been written into it. */
  function Sent(n: nat, packet: Text): Read {
    if |packet| < n then Found(packet) else Overrun
  }

  /** A slot reads as before, or empty and then it lies behind one of the full ones. */
  ghost predicate AsBefore(n: nat, before: Disks, after: Disks, full: seq<Copy>, d: Copy) {
    ReadCopy(n, after, d) == ReadCopy(n, before, d) || (Behind(full, d) && ReadCopy(n, after, d) == Found([]))
  }

  /** A slot reads the block sent to it, or empty and then it lies behind one of the full ones. */
  ghost predicate ReadsSent(n: nat, disks: Disks, full: seq<Copy>, c: Copy, packet: Text) {
    ReadCopy(n, disks, c) == Sent(n, packet) || (Behind(full, c) && ReadCopy(n, disks, c) == Found([]))
  }

  lemma SendOneEffect(n: nat, nodes: Table, disks: Disks, c: Copy, packet: Text, outcome: Outcome)
    requires GoodDisks(n, nodes, disks) && InRange(nodes, c) && 1 <= n && |packet| <= n && NUL !in packet
    ensures outcome.Delivered? ==> ReadCopy(n, SendOne(n, disks, c, packet, outcome), c) == Sent(n, packet)
    ensures forall d :: InRange(nodes, d) && d != c ==>
      AsBefore(n, disks, SendOne(n, disks, c, packet, outcome), FullOf(n, [c], packet), d)
    ensures forall d :: InRange(nodes, d) && outcome.Delivered? && Behind(FullOf(n, [c], packet), d) ==>
      ReadCopy(n, SendOne(n, disks, c, packet, outcome), d) == Found([])
  {
    SlotInDisk(n, nodes, disks, c);
    var disk := disks[c.nodeId];
    var r, length := Arrived(packet, outcome), Length(packet, outcome);
    if outcome.Delivered? {
      ReadsBackIffShort(disk, n, c.slot, packet);
    }
    hide SlotText, Written;
    forall d | InRange(nodes, d) && d != c
      ensures AsBefore(n, disks, SendOne(n, disks, c, packet, outcome), FullOf(n, [c], packet), d)
      ensures outcome.Delivered? && Behind(FullOf(n, [c], packet), d) ==>
        ReadCopy(n, SendOne(n, disks, c, packet, outcome), d) == Found([])
    {
      SlotInDisk(n, nodes, disks, d);
      if d.nodeId == c.nodeId {
        OtherReads(disk, n, c.slot, packet, r, length, d.slot);
        if d.slot == c.slot + 1 && |packet| == n {
          assert c in FullOf(n, [c], packet) && d == Copy(c.nodeId, c.slot + 1);
        }
      }
    }
  }

  lemma AsBeforeTwice(n: nat, a: Disks, b: Disks, c: Disks, f: seq<Copy>, g: seq<Copy>, d: Copy)
    requires AsBefore(n, a, b, f, d) && AsBefore(n, b, c, g, d)
    ensures AsBefore(n, a, c, f + g, d)
    ensures ReadCopy(n, b, d) == Found([]) ==> ReadCopy(n, c, d) == Found([])
  {
    hide ReadCopy;
    BehindEither(f, g, d);
  }

  lemma SentThenOthers(n: nat, b: Disks, c: Disks, f: seq<Copy>, g: seq<Copy>, d: Copy, packet: Text)
    requires ReadsSent(n, b, f, d, packet) && AsBefore(n, b, c, g, d)
    ensures ReadsSent(n, c, f + g, d, packet)
  {
    hide ReadCopy;
    BehindEither(f, g, d);
  }

  lemma BehindEither(f: seq<Copy>, g: seq<Copy>, d: Copy)
    ensures Behind(f + g, d) <==> Behind(f, d) || Behind(g, d)
  {
    if Behind(f, d) {
      var c :| c in f && d == Copy(c.nodeId, c.slot + 1);
      assert c in f + g;
    } else if Behind(g, d) {
      var c :| c in g && d == Copy(c.nodeId, c.slot + 1);
      assert c in f + g;
    }
  }

  lemma {:induction false} SendBlockEffect(n: nat, nodes: Table, disks: Disks, copies: seq<Copy>, packet: Text,
                                           net: Copy -> Outcome)
    requires GoodDisks(n, nodes, disks) && AllInRange(nodes, copies) && Distinct(copies)
    requires 1 <= n && |packet| <= n && NUL !in packet
    ensures forall c :: c in copies && net(c).Delivered? ==>
      ReadsSent(n, SendBlock(n, disks, copies, packet, net), FullOf(n, copies, packet), c, packet)
    ensures forall d :: InRange(nodes, d) && d !in copies ==>
      AsBefore(n, disks, SendBlock(n, disks, copies, packet, net), FullOf(n, copies, packet), d)
    ensures (forall c :: c in copies ==> net(c).Delivered?) ==>
      forall d :: InRange(nodes, d) && d !in copies && Behind(FullOf(n, copies, packet), d) ==>
        ReadCopy(n, SendBlock(n, disks, copies, packet, net), d) == Found([])
  {
    hide ReadCopy, SendOne, AsBefore, ReadsSent, Behind, FullOf, Distinct, AllInRange, InRange;
    if copies == [] {
      NothingSent(n, disks, packet);
    } else {
      var c, rest := copies[0], copies[1..];
      var between, after := SendOne(n, disks, c, packet, net(c)), SendBlock(n, disks, copies, packet, net);
      var f, g := FullOf(n, [c], packet), FullOf(n, rest, packet);
      assert copies == [c] + rest;
      PartsInRange(nodes, [c], rest);
      FullParts(n, c, rest, packet);
      StillGoodDisks(n, nodes, disks, c, packet, net(c));
      SendOneEffect(n, nodes, disks, c, packet, net(c));
      SendBlockEffect(n, nodes, between, rest, packet, net);
      forall x | x in copies && net(x).Delivered? ensures ReadsSent(n, after, f + g, x, packet) {
        if x == c {
          JustSent(n, between, f, c, packet);
          SentThenOthers(n, between, after, f, g, c, packet);
        } else {
          MoreFull(n, after, f, g, x, packet);
        }
      }
      forall d | InRange(nodes, d) && d !in copies
        ensures AsBefore(n, disks, after, f + g, d)
        ensures (forall x :: x in copies ==> net(x).Delivered?) && Behind(f + g, d) ==>
          ReadCopy(n, after, d) == Found([])
      {
        AsBeforeTwice(n, disks, between, after, f, g, d);
        BehindEither(f, g, d);
      }
    }
  }

  lemma FullParts(n: nat, c: Copy, rest: seq<Copy>, packet: Text)
    ensures FullOf(n, [c] + rest, packet) == FullOf(n, [c], packet) + FullOf(n, rest, packet)
  {
  }

  lemma StillGoodDisks(n: nat, nodes: Table, disks: Disks, c: Copy, packet: Text, outcome: Outcome)
    requires GoodDisks(n, nodes, disks)
    ensures GoodDisks(n, nodes, SendOne(n, disks, c, packet, outcome))
  {
    hide Written;
  }

  lemma NothingSent(n: nat, disks: Disks, packet: Text)
    ensures FullOf(n, [], packet) == [] && (forall d :: AsBefore(n, disks, disks, [], d)) && forall d :: !Behind([], d)
  {
  }

  lemma JustSent(n: nat, disks: Disks, full: seq<Copy>, c: Copy, packet: Text)
    requires ReadCopy(n, disks, c) == Sent(n, packet)
    ensures ReadsSent(n, disks, full, c, packet)
  {
  }

  lemma MoreFull(n: nat, disks: Disks, f: seq<Copy>, g: seq<Copy>, c: Copy, packet: Text)
    requires ReadsSent(n, disks, g, c, packet)
    ensures ReadsSent(n, disks, f + g, c, packet)
  {
    BehindEither(f, g, c);
  }

  /** After a plan is sent, every delivered copy of a block reads back as that block, unless it fills its slot, and no
      other slot reads differently; but what lies just behind a full slot reads empty, if all of it arrives. */
  lemma {:induction false} SendPlanEffect(n: nat, nodes: Table, disks: Disks, plan: seq<seq<Copy>>,
                                          blocks: seq<Text>, net: Copy -> Outcome)
    requires GoodDisks(n, nodes, disks) && |plan| == |blocks| && 1 <= n
    requires AllInRange(nodes, Flatten(plan)) && Distinct(Flatten(plan))
    requires forall b :: 0 <= b < |blocks| ==> |CString(blocks[b])| <= n
    ensures forall b, c :: 0 <= b < |plan| && c in plan[b] && net(c).Delivered? ==>
      ReadsSent(n, SendPlan(n, disks, plan, blocks, net), FullCopies(n, plan, blocks), c, CString(blocks[b]))
    ensures forall d :: InRange(nodes, d) && d !in Flatten(plan) ==>
      AsBefore(n, disks, SendPlan(n, disks, plan, blocks, net), FullCopies(n, plan, blocks), d)
    ensures (forall c :: c in Flatten(plan) ==> net(c).Delivered?) ==>
      forall d :: InRange(nodes, d) && d !in Flatten(plan) && Behind(FullCopies(n, plan, blocks), d) ==>
        ReadCopy(n, SendPlan(n, disks, plan, blocks, net), d) == Found([])
  {
    hide ReadCopy, SendBlock, AsBefore, ReadsSent, Behind, CString, FullOf;
    if plan == [] {
      NothingSent(n, disks, []);
    } else {
      var first, rest, packet := plan[0], Flatten(plan[1..]), CString(blocks[0]);
      PartsInRange(nodes, first, rest);
      var between, after := SendBlock(n, disks, first, packet, net), SendPlan(n, disks, plan, blocks, net);
      var f, g := FullOf(n, first, packet), FullCopies(n, plan[1..], blocks[1..]);
      SendBlockEffect(n, nodes, disks, first, packet, net);
      SendPlanEffect(n, nodes, between, plan[1..], blocks[1..], net);
      forall b, c | 0 <= b < |plan| && c in plan[b] && net(c).Delivered?
        ensures ReadsSent(n, after, f + g, c, CString(blocks[b]))
      {
        if b == 0 {
          assert c !in rest && InRange(nodes, c);
          SentThenOthers(n, between, after, f, g, c, packet);
        } else {
          assert c in plan[1..][b - 1] && blocks[1..][b - 1] == blocks[b];
          MoreFull(n, after, f, g, c, CString(blocks[b]));
        }
      }
      forall d | InRange(nodes, d) && d !in Flatten(plan)
        ensures AsBefore(n, disks, after, f + g, d)
        ensures (forall c :: c in Flatten(plan) ==> net(c).Delivered?) && Behind(f + g, d) ==>
          ReadCopy(n, after, d) == Found([])
      {
        AsBeforeTwice(n, disks, between, after, f, g, d);
        BehindEither(f, g, d);
      }
    }
  }

  lemma PartsInRange(nodes: Table, first: seq<Copy>, rest: seq<Copy>)
    requires AllInRange(nodes, first + rest) && Distinct(first + rest)
    ensures AllInRange(nodes, first) && AllInRange(nodes, rest) && Distinct(first) && Distinct(rest)
    ensures forall c :: c in first ==> c !in rest && InRange(nodes, c)
  {
    DistinctSplit(first, rest);
    assert forall i :: 0 <= i < |first| ==> first[i] == (first + rest)[i];
    assert forall i :: 0 <= i < |rest| ==> rest[i] == (first + rest)[|first| + i];
  }
}
