/** The slots of a node's bin file (node_getBlock and node_setBlockFromPacket). */
module SlotStore {
  import opened Bytes
  import Framing

  datatype Read = Found(text: Text) | Overrun

  /** Where slot k starts. */
  function Base(n: nat, k: nat): nat {
    k * n
  }

  predicate InFile(disk: Text, n: nat, k: nat) {
    Base(n, k) + n <= |disk|
  }

  function Slot(disk: Text, n: nat, k: nat): Text
    requires InFile(disk, n, k)
  {
    disk[Base(n, k)..Base(n, k) + n]
  }

  /** What a reader of slot k is sent: the C string of the n bytes copied out of the slot. A slot without a
      terminator makes the length computation run past the copied bytes. */
  function SlotText(disk: Text, n: nat, k: nat): Read
    requires InFile(disk, n, k)
  {
    if NUL in Slot(disk, n, k) then Found(CString(Slot(disk, n, k))) else Overrun
  }

  /** The bytes that arrive replace the start of the slot and a terminator goes just after the length the node takes the
      packet to have; a terminator that would fall behind the last slot is outside the file. */
  function Written(disk: Text, n: nat, k: nat, packet: Text, received: nat, length: nat): (r: Text)
    requires Base(n, k) + |packet| <= |disk| && received <= |packet| && length <= |packet|
    ensures |r| == |disk|
  {
    var base := Base(n, k);
    seq(|disk|, x requires 0 <= x < |disk| =>
      if base <= x < base + received then packet[x - base]
      else if x == base + length then NUL
      else disk[x])
  }

  class BinFile {
    const n: nat
    const data: array<Byte>

    constructor (n: nat, blocksCount: nat)
      ensures this.n == n && fresh(data) && data.Length == blocksCount * n
      ensures forall i :: 0 <= i < data.Length ==> data[i] == NUL
    {
      this.n := n;
      data := new Byte[blocksCount * n](_ => NUL);
    }

    method GetBlock(numBlock: nat) returns (r: Read)
      requires InFile(data[..], n, numBlock)
      ensures r == SlotText(data[..], n, numBlock)
    {
      var block := data[Base(n, numBlock)..Base(n, numBlock) + n];
      assert block == Slot(data[..], n, numBlock);
      if NUL !in block {
        return Overrun;
      }
      var length := 0;
      while block[length] != NUL
        invariant 0 <= length < n && NUL !in block[..length]
        invariant NUL in block[length..]
        decreases n - length
      {
        length := length + 1;
      }
      CStringIs(block, block[..length]);
      return Found(block[..length]);
    }

    /** header is how much of the size arrives before the connection fails, if it does, and received how much of the
        packet. The terminator is put in any case; when the size is incomplete it goes where the bytes that did arrive
        say. inside is false when that is the byte behind the mapped file. */
    method SetBlockFromPacket(numBlock: nat, packet: Text, header: nat, received: nat) returns (ok: bool, inside: bool)
      requires Base(n, numBlock) + |packet| <= data.Length && |packet| < Framing.SIZE_LIMIT
      requires header <= Framing.SIZE_BYTES && received <= |packet| && (header < Framing.SIZE_BYTES ==> received == 0)
      modifies data
      ensures ok <==> header == Framing.SIZE_BYTES && received == |packet|
      ensures ok ==> data[..] == Written(old(data[..]), n, numBlock, packet, |packet|, |packet|)
      ensures Framing.Truncated(|packet|, header) <= |packet|
      ensures data[..] == Written(old(data[..]), n, numBlock, packet, received, Framing.Truncated(|packet|, header))
      ensures inside <==> Base(n, numBlock) + Framing.Truncated(|packet|, header) < data.Length
    {
      hide Framing.Truncated;
      Framing.TruncatedSize(|packet|, header);
      var address := Base(n, numBlock);
      var size := Framing.Truncated(|packet|, header);
      var i := 0;
      while i < received
        invariant 0 <= i <= received
        invariant forall x :: 0 <= x < data.Length ==>
          data[x] == if address <= x < address + i then packet[x - address] else old(data[x])
      {
        data[address + i] := packet[i];
        i := i + 1;
      }
      inside := address + size < data.Length;
      if inside {
        data[address + size] := NUL;
      }
      ok := header == Framing.SIZE_BYTES && received == |packet|;
    }
  }

  lemma NextBase(n: nat, k: nat)
    ensures Base(n, k + 1) == Base(n, k) + n
  {
  }

  lemma SlotsApart(n: nat, j: nat, k: nat)
    requires j < k
    ensures Base(n, j) + n <= Base(n, k)
    ensures k > j + 1 ==> Base(n, j) + 2 * n <= Base(n, k)
  {
    NextBase(n, j);
    ProductGrows(j + 1, k, n);
    if k > j + 1 {
      NextBase(n, j + 1);
      ProductGrows(j + 2, k, n);
    }
  }

  /** What a transfer of at most n bytes does to any other slot: it puts a terminator at the start of the next one when
      it takes the block to fill its slot, and nothing else. */
  lemma OtherSlots(disk: Text, n: nat, k: nat, packet: Text, received: nat, length: nat, j: nat)
    requires InFile(disk, n, k) && InFile(disk, n, j) && j != k
    requires 1 <= n && received <= |packet| <= n && length <= |packet|
    ensures Slot(Written(disk, n, k, packet, received, length), n, j) ==
      if j == k + 1 && length == n then [NUL] + Slot(disk, n, j)[1..] else Slot(disk, n, j)
  {
    hide Base;
    NextBase(n, k);
    if j < k {
      SlotsApart(n, j, k);
    } else {
      SlotsApart(n, k, j);
    }
    var was, at := Slot(disk, n, j), Base(n, j);
    var now := Slot(Written(disk, n, k, packet, received, length), n, j);
    forall x | 0 <= x < n ensures now[x] == if j == k + 1 && length == n && x == 0 then NUL else was[x] {
      assert was[x] == disk[at + x];
      assert now[x] == Written(disk, n, k, packet, received, length)[at + x];
    }
  }

  /** So the next slot reads empty, and no other reads differently. */
  lemma OtherReads(disk: Text, n: nat, k: nat, packet: Text, received: nat, length: nat, j: nat)
    requires InFile(disk, n, k) && InFile(disk, n, j) && j != k
    requires 1 <= n && received <= |packet| <= n && length <= |packet|
    ensures SlotText(Written(disk, n, k, packet, received, length), n, j) ==
      if j == k + 1 && length == n then Found([]) else SlotText(disk, n, j)
  {
    OtherSlots(disk, n, k, packet, received, length, j);
    hide Written, Slot;
  }

  /** A completed transfer of a NUL-free block reads back exactly when there is room for its terminator; without,
      reading runs over. */
  lemma ReadsBackIffShort(disk: Text, n: nat, k: nat, packet: Text)
    requires 1 <= n && InFile(disk, n, k) && |packet| <= n && NUL !in packet
    ensures SlotText(Written(disk, n, k, packet, |packet|, |packet|), n, k) ==
      if |packet| < n then Found(packet) else Overrun
  {
    var slot := Slot(Written(disk, n, k, packet, |packet|, |packet|), n, k);
    hide Base;
    if |packet| < n {
      assert slot[|packet|] == NUL && packet <= slot;
      CStringIs(slot, packet);
    } else {
      assert slot == packet;
    }
  }

  /** Whatever happens to a transfer, it touches no other slot as long as the block is shorter than a slot; and a
      transfer that completes can be read back exactly. */
  lemma ShortBlockIsIsolated(disk: Text, n: nat, k: nat, packet: Text, received: nat, length: nat, j: nat)
    requires InFile(disk, n, k) && InFile(disk, n, j)
    requires |packet| < n && received <= |packet| && length <= |packet|
    ensures j != k ==> Slot(Written(disk, n, k, packet, received, length), n, j) == Slot(disk, n, j)
    ensures NUL !in packet && received == length == |packet| ==>
      SlotText(Written(disk, n, k, packet, received, length), n, k) == Found(packet)
  {
    hide Slot, SlotText, Written;
    if j != k {
      OtherSlots(disk, n, k, packet, received, length, j);
    }
    if NUL !in packet && received == length == |packet| {
      ReadsBackIffShort(disk, n, k, packet);
    }
  }

  /** Storing a block of at most n bytes leaves every other slot alone exactly when the block is shorter than the
      slot or the next slot already was empty. */
  lemma IsolatedIffShortOrNextEmpty(disk: Text, n: nat, k: nat, packet: Text)
    requires 1 <= n && InFile(disk, n, k) && InFile(disk, n, k + 1) && |packet| <= n
    ensures |packet| < n || SlotText(disk, n, k + 1) == Found([]) <==>
      forall j: nat :: j != k && InFile(disk, n, j) ==>
        Slot(Written(disk, n, k, packet, |packet|, |packet|), n, j) == Slot(disk, n, j)
  {
    hide Written, Base, CString;
    var next := Slot(disk, n, k + 1);
    EmptyIffTerminated(next);
    if |packet| == n && next[0] != NUL {
      OtherSlots(disk, n, k, packet, |packet|, |packet|, k + 1);
      assert ([NUL] + next[1..])[0] != next[0];
    } else {
      assert |packet| == n ==> [NUL] + next[1..] == next;
      forall j: nat | j != k && InFile(disk, n, j)
        ensures Slot(Written(disk, n, k, packet, |packet|, |packet|), n, j) == Slot(disk, n, j)
      {
        OtherSlots(disk, n, k, packet, |packet|, |packet|, j);
      }
    }
  }

  lemma EmptyIffTerminated(slot: Text)
    requires slot != []
    ensures slot[0] == NUL <==> NUL in slot && CString(slot) == []
  {
  }
}
