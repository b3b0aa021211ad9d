/** Packets over a byte stream that the network cuts as it likes (utils/socket.c). */
module Framing {
  import opened Bytes

  function Reversed(s: Text): (r: Text)
    ensures |r| == |s|
    ensures forall i :: 0 <= i < |s| ==> r[i] == s[|s| - 1 - i]
  {
    seq(|s|, i requires 0 <= i < |s| => s[|s| - 1 - i])
  }

  lemma ReversedTwice(s: Text)
    ensures Reversed(Reversed(s)) == s
  {
  }

  /** The in-place byte swap from host to network order; on a big-endian host there is nothing to swap. */
  method Hton(value: array<Byte>, littleEndian: bool)
    modifies value
    ensures value[..] == if littleEndian then Reversed(old(value[..])) else old(value[..])
  {
    if littleEndian {
      var l, r := 0, value.Length - 1;
      ghost var goal := Reversed(value[..]);
      while l < r
        invariant 0 <= l && r == value.Length - 1 - l && l <= r + 2
        invariant forall i :: l <= i <= r ==> value[i] == old(value[..])[i]
        invariant forall i :: 0 <= i < value.Length && (i < l || i > r) ==> value[i] == goal[i]
      {
        var a := value[l];
        value[l] := value[r];
        value[r] := a;
        l, r := l + 1, r - 1;
      }
    }
  }

  const SIZE_BYTES := 8
  const SIZE_LIMIT := 0x1_0000_0000_0000_0000

  function LittleEndian(v: nat, k: nat): (r: Text)
    ensures |r| == k
    decreases k
  {
    if k == 0 then [] else [v % 256] + LittleEndian(v / 256, k - 1)
  }

  function FromLittleEndian(s: Text): nat {
    if s == [] then 0 else s[0] + 256 * FromLittleEndian(s[1..])
  }

  lemma {:induction false} LittleEndianAt(v: nat, k: nat, i: nat)
    requires i < k
    ensures LittleEndian(v, k)[i] == v / Power(256, i) % 256
    decreases k
  {
    if i > 0 {
      LittleEndianAt(v / 256, k - 1, i - 1);
      DivideByPower(v, 256, i - 1);
    }
  }

  lemma {:induction false} LittleEndianRoundTrip(v: nat, k: nat)
    requires v < Power(256, k)
    ensures FromLittleEndian(LittleEndian(v, k)) == v
    decreases k
  {
    if k > 0 {
      LittleEndianRoundTrip(v / 256, k - 1);
      assert LittleEndian(v, k)[1..] == LittleEndian(v / 256, k - 1);
    }
  }

  /** A size as it lies in the memory of a host. */
  function InMemory(v: nat, littleEndian: bool): (r: Text)
    ensures |r| == SIZE_BYTES
  {
    if littleEndian then LittleEndian(v, SIZE_BYTES) else Reversed(LittleEndian(v, SIZE_BYTES))
  }

  function FromMemory(s: Text, littleEndian: bool): nat {
    FromLittleEndian(if littleEndian then s else Reversed(s))
  }

  function Header(v: nat): (r: Text)
    ensures |r| == SIZE_BYTES
  {
    Reversed(LittleEndian(v, SIZE_BYTES))
  }

  /** The most significant byte comes first, in eight bytes. */
  lemma HeaderAt(v: nat, i: nat)
    requires i < 8
    ensures |Header(v)| == 8 && Header(v)[7 - i] == v / Power(256, i) % 256
  {
    LittleEndianAt(v, SIZE_BYTES, i);
  }

  /** What a receiver takes for the size when only its first bytes have arrived, over a zeroed one. */
  function Truncated(v: nat, arrived: nat): nat
    requires arrived <= SIZE_BYTES
  {
    FromLittleEndian(Reversed(Header(v)[..arrived] + seq(SIZE_BYTES - arrived, _ => NUL)))
  }

  /** It is never more than the size, the size itself once all of it is there, and nothing before anything is. */
  lemma TruncatedSize(v: nat, arrived: nat)
    requires arrived <= SIZE_BYTES
    ensures Truncated(v, arrived) <= v
    ensures arrived == SIZE_BYTES && v < SIZE_LIMIT ==> Truncated(v, arrived) == v
    ensures arrived == 0 ==> Truncated(v, arrived) == 0
  {
    hide FromLittleEndian, LittleEndian;
    var size := LittleEndian(v, SIZE_BYTES);
    var got := Reversed(Header(v)[..arrived] + seq(SIZE_BYTES - arrived, _ => NUL));
    assert forall i :: 0 <= i < SIZE_BYTES ==> got[i] == if SIZE_BYTES - arrived <= i then size[i] else NUL;
    PointwiseLess(got, size);
    NeverMore(v, SIZE_BYTES);
    if arrived == SIZE_BYTES && v < SIZE_LIMIT {
      assert got == Reversed(Header(v));
      HeaderRoundTrip(v);
    }
    if arrived == 0 {
      AllZero(got);
    }
  }

  lemma {:induction false} PointwiseLess(a: Text, b: Text)
    requires |a| == |b| && forall i :: 0 <= i < |a| ==> a[i] <= b[i]
    ensures FromLittleEndian(a) <= FromLittleEndian(b)
  {
    if a != [] {
      PointwiseLess(a[1..], b[1..]);
    }
  }

  lemma {:induction false} AllZero(a: Text)
    requires forall i :: 0 <= i < |a| ==> a[i] == NUL
    ensures FromLittleEndian(a) == 0
  {
    if a != [] {
      AllZero(a[1..]);
    }
  }

  lemma {:induction false} NeverMore(v: nat, k: nat)
    ensures FromLittleEndian(LittleEndian(v, k)) <= v
    decreases k
  {
    if k > 0 {
      NeverMore(v / 256, k - 1);
      assert LittleEndian(v, k)[1..] == LittleEndian(v / 256, k - 1);
    }
  }

  /** The wire form of a packet: its size, most significant byte first, then its bytes. */
  function Frame(p: Text): Text {
    Header(|p|) + p
  }

  function Frames(ps: seq<Text>): Text {
    if ps == [] then [] else Frame(ps[0]) + Frames(ps[1..])
  }

  lemma {:induction false} FramesAppend(ps: seq<Text>, p: Text)
    ensures Frames(ps + [p]) == Frames(ps) + Frame(p)
  {
    if ps == [] {
      assert [p][1..] == [] && ps + [p] == [p];
    } else {
      FramesAppend(ps[1..], p);
      assert (ps + [p])[1..] == ps[1..] + [p] && (ps + [p])[0] == ps[0];
      var x, y, z := Frame(ps[0]), Frames(ps[1..]), Frame(p);
      assert x + (y + z) == x + y + z;
    }
  }

  lemma FramesLong(ps: seq<Text>)
    ensures ps != [] ==> |Frames(ps)| >= SIZE_BYTES + |ps[0]|
  {
  }

  /** What one system call does: it moves some bytes, or fails with an error that is tried again, or with another. */
  datatype Event = Moved(count: nat) | Transient | Fatal

  const RETRIES := 3

  /** No call fails, and each moves something. */
  predicate Smooth(script: seq<Event>) {
    forall i :: 0 <= i < |script| ==> script[i].Moved? && script[i].count > 0
  }

  class Channel {
    /** The bytes sent and not yet received. */
    var inFlight: Text
    /** What the coming system calls do. */
    var script: seq<Event>
    ghost var sent: seq<Text>
    ghost var got: seq<Text>

    constructor (script: seq<Event>)
      ensures Healthy() && sent == [] && got == []
    {
      this.script := script;
      inFlight, sent, got := [], [], [];
    }

    /** What was received is what was sent, in order, and the rest is on its way. */
    ghost predicate Healthy()
      reads this
    {
      && |got| <= |sent| && got == sent[..|got|]
      && (forall i :: 0 <= i < |sent| ==> |sent[i]| < SIZE_LIMIT)
      && inFlight == Frames(sent[|got|..])
    }

    method NextEvent() returns (e: Event)
      modifies this`script
      ensures old(script) == [] ==> e == Fatal && script == []
      ensures old(script) != [] ==> e == old(script)[0] && script == old(script)[1..]
    {
      if script == [] {
        return Fatal;
      }
      e := script[0];
      script := script[1..];
    }

    /** Calls send until it moves something, the retries are used up or another error comes; 0 means failure. */
    method TrySend(data: Text) returns (count: nat)
      modifies this`inFlight, this`script
      ensures count <= |data| && inFlight == old(inFlight) + data[..count]
      ensures Smooth(old(script)) ==> Smooth(script)
      ensures Smooth(old(script)) && old(script) != [] && data != [] ==> count > 0 && |old(script)| == |script| + 1
    {
      var retry := RETRIES;
      while true
        invariant 0 <= retry && inFlight == old(inFlight)
        invariant Smooth(old(script)) ==> Smooth(script)
        invariant Smooth(old(script)) && old(script) != [] ==> script == old(script)
        decreases retry
      {
        var e := NextEvent();
        match e {
          case Moved(k) =>
            if k > 0 || retry == 0 {
              count := Min(k, |data|);
              inFlight := inFlight + data[..count];
              return;
            }
          case Transient =>
            if retry == 0 {
              return 0;
            }
          case Fatal =>
            return 0;
        }
        retry := retry - 1;
      }
    }

    method TryRecv(size: nat) returns (data: Text)
      modifies this`inFlight, this`script
      ensures |data| <= size && old(inFlight) == data + inFlight
      ensures Smooth(old(script)) ==> Smooth(script)
      ensures Smooth(old(script)) && old(script) != [] && size > 0 && old(inFlight) != [] ==>
        data != [] && |old(script)| == |script| + 1
    {
      var retry := RETRIES;
      while true
        invariant 0 <= retry && inFlight == old(inFlight)
        invariant Smooth(old(script)) ==> Smooth(script)
        invariant Smooth(old(script)) && old(script) != [] && size > 0 && inFlight != [] ==> script == old(script)
        decreases retry
      {
        var e := NextEvent();
        match e {
          case Moved(k) =>
            var count := Min(Min(k, size), |inFlight|);
            if count > 0 || retry == 0 {
              data := inFlight[..count];
              inFlight := inFlight[count..];
              return;
            }
          case Transient =>
            if retry == 0 {
              return [];
            }
          case Fatal =>
            return [];
        }
        retry := retry - 1;
      }
    }

    method Send(stream: Text) returns (ok: bool)
      modifies this`inFlight, this`script
      ensures ok ==> inFlight == old(inFlight) + stream
      ensures Smooth(old(script)) ==> Smooth(script)
      ensures Smooth(old(script)) && |old(script)| >= |stream| ==> ok && |old(script)| <= |script| + |stream|
    {
      var done := 0;
      while done < |stream|
        invariant 0 <= done <= |stream| && inFlight == old(inFlight) + stream[..done]
        invariant Smooth(old(script)) ==> Smooth(script)
        invariant Smooth(old(script)) && |old(script)| >= |stream| ==> |old(script)| <= |script| + done
      {
        var count := TrySend(stream[done..]);
        if count == 0 {
          return false;
        }
        assert stream[..done] + stream[done..][..count] == stream[..done + count];
        done := done + count;
      }
      assert stream[..done] == stream;
      return true;
    }

    method Recv(size: nat) returns (ok: bool, stream: Text)
      modifies this`inFlight, this`script
      ensures ok ==> |stream| == size && old(inFlight) == stream + inFlight
      ensures Smooth(old(script)) ==> Smooth(script)
      ensures Smooth(old(script)) && |old(script)| >= size && |old(inFlight)| >= size ==>
        ok && |old(script)| <= |script| + size
    {
      stream := [];
      while |stream| < size
        invariant |stream| <= size && old(inFlight) == stream + inFlight
        invariant Smooth(old(script)) ==> Smooth(script)
        invariant Smooth(old(script)) && |old(script)| >= size && |old(inFlight)| >= size ==>
          |old(script)| <= |script| + |stream|
        decreases size - |stream|
      {
        var part := TryRecv(size - |stream|);
        if part == [] {
          return false, stream;
        }
        assert stream + (part + inFlight) == stream + part + inFlight;
        stream := stream + part;
      }
      return true, stream;
    }

    /** A size goes out most significant byte first whatever the host. */
    method SendSize(v: nat, littleEndian: bool) returns (ok: bool)
      modifies this`inFlight, this`script
      ensures ok ==> inFlight == old(inFlight) + Header(v)
      ensures Smooth(old(script)) ==> Smooth(script)
      ensures Smooth(old(script)) && |old(script)| >= SIZE_BYTES ==> ok && |old(script)| <= |script| + SIZE_BYTES
    {
      var bytes := InMemory(v, littleEndian);
      var size := new Byte[SIZE_BYTES](i requires 0 <= i < SIZE_BYTES => bytes[i]);
      assert size[..] == bytes;
      Hton(size, littleEndian);
      ReversedTwice(LittleEndian(v, SIZE_BYTES));
      ok := Send(size[..]);
    }

    method RecvSize(littleEndian: bool) returns (ok: bool, v: nat, ghost header: Text)
      modifies this`inFlight, this`script
      ensures ok ==> |header| == SIZE_BYTES && old(inFlight) == header + inFlight
      ensures ok ==> v == FromLittleEndian(Reversed(header))
      ensures Smooth(old(script)) ==> Smooth(script)
      ensures Smooth(old(script)) && |old(script)| >= SIZE_BYTES && |old(inFlight)| >= SIZE_BYTES ==>
        ok && |old(script)| <= |script| + SIZE_BYTES
    {
      var bytes;
      ok, bytes := Recv(SIZE_BYTES);
      header := bytes;
      if !ok {
        return ok, 0, header;
      }
      var size := new Byte[SIZE_BYTES](i requires 0 <= i < SIZE_BYTES => bytes[i]);
      assert size[..] == bytes;
      Hton(size, littleEndian);
      v := FromMemory(size[..], littleEndian);
    }

    method SendPacket(packet: Text, littleEndian: bool) returns (ok: bool)
      requires Healthy() && |packet| < SIZE_LIMIT
      modifies this
      ensures ok ==> Healthy() && sent == old(sent) + [packet] && got == old(got)
      ensures ok ==> inFlight == old(inFlight) + Header(|packet|) + packet
      ensures Smooth(old(script)) && |old(script)| >= SIZE_BYTES + |packet| ==> ok
    {
      hide Header, Frames;
      ok := SendSize(|packet|, littleEndian);
      if !ok {
        return;
      }
      ok := Send(packet);
      if ok {
        FramesAppend(sent[|got|..], packet);
        assert (sent + [packet])[|got|..] == sent[|got|..] + [packet];
        Regroup(old(inFlight), Header(|packet|), packet);
        sent := sent + [packet];
      }
    }

    method RecvPacket(littleEndian: bool) returns (ok: bool, packet: Text)
      requires Healthy()
      modifies this
      ensures ok ==> Healthy() && sent == old(sent) && got == old(got) + [packet]
      ensures ok ==> |old(got)| < |sent| && packet == sent[|old(got)|]
      ensures Smooth(old(script)) && |old(got)| < |old(sent)| ==>
        |old(script)| >= SIZE_BYTES + |old(sent)[|old(got)|]| ==> ok
    {
      hide Header, Frames, LittleEndian, FromLittleEndian;
      FramesLong(sent[|got|..]);
      var size;
      ghost var header;
      ok, size, header := RecvSize(littleEndian);
      if !ok {
        return ok, [];
      }
      ghost var rest := sent[|got|..];
      FirstFrame(rest, header, inFlight);
      assert rest[0] == sent[|got|];
      HeaderRoundTrip(|rest[0]|);
      ghost var after := inFlight;
      ok, packet := Recv(size);
      if ok {
        SplitAt(packet, inFlight, rest[0], Frames(rest[1..]));
        assert rest[1..] == sent[|got| + 1..] && sent[..|got| + 1] == sent[..|got|] + [packet];
        got := got + [packet];
      }
    }
  }

  lemma Regroup(a: Text, b: Text, c: Text)
    ensures a + b + c == a + (b + c)
  {
  }

  lemma SplitAt(a: Text, b: Text, c: Text, d: Text)
    requires a + b == c + d && |a| == |c|
    ensures a == c && b == d
  {
    assert a == (a + b)[..|a|] && b == (a + b)[|a|..];
  }

  /** The first bytes of a stream of frames are the header of the first packet. */
  lemma FirstFrame(ps: seq<Text>, header: Text, rest: Text)
    requires header + rest == Frames(ps) && |header| == SIZE_BYTES
    ensures ps != [] && header == Header(|ps[0]|) && rest == ps[0] + Frames(ps[1..])
  {
    if ps != [] {
      Regroup(Header(|ps[0]|), ps[0], Frames(ps[1..]));
      SplitAt(header, rest, Header(|ps[0]|), ps[0] + Frames(ps[1..]));
    }
  }

  lemma HeaderRoundTrip(v: nat)
    requires v < SIZE_LIMIT
    ensures FromLittleEndian(Reversed(Header(v))) == v
  {
    assert Power(256, 2) == 0x1_0000 && Power(256, 4) == 0x1_0000_0000;
    assert Power(256, 6) == 0x1_0000_0000_0000 && Power(256, 8) == SIZE_LIMIT;
    LittleEndianRoundTrip(v, SIZE_BYTES);
    ReversedTwice(LittleEndian(v, SIZE_BYTES));
  }
}
