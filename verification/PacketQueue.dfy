/**
 * The packet queues (packet_queue.h): the receiver's maps and its scans of wrapping 16-bit
 * ranges, and the sender's numbering, splitting and renumbering of packets.
 */
module PacketQueue {
  import opened Arithmetic
  import opened Bytes
  import opened Wrappers
  import opened SeqMapping

  type Payload = seq<byte>
  type Packets = map<u16, Payload>

  /** `is_data`: packets of even size carry data, the others control. */
  predicate IsData(p: Payload) {
    |p| % 2 == 0
  }

  /** What a packet adds to the data. */
  function Kept(p: Payload): Payload {
    if IsData(p) then p else []
  }

  // ---------------------------------------------------------------- what a range holds

  /** The numbers from `start` on, `n` of them, wrapping around. */
  function Range(start: u16, n: nat): set<u16>
    decreases n
  {
    if n == 0 then {} else {start} + Range(Plus(start, 1), n - 1)
  }

  /** The range is the numbers that fewer than `n` increments from `start` reach. */
  lemma {:induction false} RangeIs(start: u16, n: nat, s: u16)
    requires n <= 0x1_0000
    ensures s in Range(start, n) <==> Dist(start, s) < n
    decreases n
  {
    if n > 0 {
      if s == start {
        DistSelf(s);
      } else {
        RangeIs(Plus(start, 1), n - 1, s);
        DistStep(start, s);
      }
    }
  }

  ghost predicate Present(packets: Packets, m: Mapping, s: u16)
    requires Acyclic(m)
  {
    Resolve(m, s) in packets
  }

  /** The numbers of the range whose packet has not arrived. */
  ghost function Missing(packets: Packets, m: Mapping, start: u16, n: nat): seq<u16>
    requires Acyclic(m)
    decreases n
  {
    if n == 0 then []
    else (if Present(packets, m, start) then [] else [start]) + Missing(packets, m, Plus(start, 1), n - 1)
  }

  /** The data of the range, in order, up to the first packet that has not arrived. */
  ghost function Gather(packets: Packets, m: Mapping, start: u16, n: nat): Payload
    requires Acyclic(m)
    decreases n
  {
    if n == 0 || !Present(packets, m, start) then []
    else
      Kept(packets[Resolve(m, start)]) + Gather(packets, m, Plus(start, 1), n - 1)
  }

  lemma {:induction false} MissingAt(packets: Packets, m: Mapping, start: u16, n: nat)
    requires Acyclic(m)
    ensures Missing(packets, m, start, n) == [] <==>
            forall k: nat :: k < n ==> Present(packets, m, Plus(start, k))
    decreases n
  {
    if n > 0 {
      MissingAt(packets, m, Plus(start, 1), n - 1);
      assert Plus(start, 0) == start;
      forall k: nat | k < n - 1
        ensures Plus(Plus(start, 1), k) == Plus(start, k + 1)
      {
        PlusStep(start, k);
      }
      assert forall k: nat :: 0 < k < n ==> Plus(start, k) == Plus(Plus(start, 1), k - 1);
    }
  }

  /** One turn of a scan. */
  lemma ScanStep(packets: Packets, m: Mapping, i: u16, end: u16)
    requires Acyclic(m) && i != end
    ensures var here, after := Dist(i, end), Dist(Plus(i, 1), end);
            && after < here
            && Missing(packets, m, i, here) ==
               (if Resolve(m, i) in packets then [] else [i]) + Missing(packets, m, Plus(i, 1), after)
            && Gather(packets, m, i, here) ==
               if Resolve(m, i) !in packets then []
               else Kept(packets[Resolve(m, i)]) + Gather(packets, m, Plus(i, 1), after)
  {
    hide Dist, Plus, Resolve, Acyclic;
    DistStep(i, end);
  }

  lemma RangeStep(i: u16, end: u16)
    ensures i == end ==> Range(i, Dist(i, end)) == {}
    ensures i != end ==> Dist(Plus(i, 1), end) < Dist(i, end)
    ensures i != end ==> Range(i, Dist(i, end)) == {i} + Range(Plus(i, 1), Dist(Plus(i, 1), end))
  {
    hide Dist, Plus;
    DistSelf(end);
    if i != end {
      DistStep(i, end);
    }
  }

  lemma ScanEnd(packets: Packets, m: Mapping, end: u16)
    requires Acyclic(m)
    ensures Missing(packets, m, end, Dist(end, end)) == [] && Gather(packets, m, end, Dist(end, end)) == []
  {
    hide Dist, Plus, Acyclic, Resolve;
    DistSelf(end);
  }

  lemma AddWraps(sum: nat, more: nat)
    ensures (sum % 0x1_0000_0000 + more) % 0x1_0000_0000 == (sum + more) % 0x1_0000_0000
  {
  }

  const NOT_COMPLETE: nat := 0xFFFF_FFFF

  class PacketRecvQueue {
    var startSeq: u16
    var endSeq: u16
    var packets: Packets
    var seqMapping: Mapping

    constructor ()
      ensures startSeq == 1 && endSeq == 0 && packets == map[] && seqMapping == map[]
    {
      startSeq, endSeq, packets, seqMapping := 1, 0, map[], map[];
    }

    /** Returns whenever following the mapping from `start` ends, a cycle elsewhere or not. */
    method ResolveSeq(start: u16) returns (seqNum: u16)
      requires Terminates(seqMapping, start)
      ensures forall k: nat :: Ends(seqMapping, start, k) ==> seqNum == Follow(seqMapping, start, k)
      ensures Acyclic(seqMapping) ==> seqNum == Resolve(seqMapping, start)
    {
      seqNum := start;
      ghost var bound: nat :| Ends(seqMapping, start, bound);
      ghost var k := bound;
      while seqNum in seqMapping
        invariant Ends(seqMapping, seqNum, k)
        invariant Follow(seqMapping, seqNum, k) == Follow(seqMapping, start, bound)
        decreases k
      {
        seqNum := seqMapping[seqNum];
        k := k - 1;
      }
      forall j: nat | Ends(seqMapping, start, j)
        ensures seqNum == Follow(seqMapping, start, j)
      {
        FollowSame(seqMapping, start, j, bound);
      }
      if Acyclic(seqMapping) {
        ResolveIs(seqMapping, start, bound);
      }
    }

    /** Forgets the packets and the replacements of the range, and nothing else. */
    method ClearRange(start: u16, end: u16)
      modifies `packets, `seqMapping
      ensures packets == old(packets) - Range(start, Dist(start, end))
      ensures seqMapping == old(seqMapping) - Range(start, Dist(start, end))
      ensures old(Acyclic(seqMapping)) ==> Acyclic(seqMapping)
    {
      hide Range, Plus, Dist, Acyclic;
      var i := start;
      ghost var cleared: set<u16> := {};
      while i != end
        invariant cleared + Range(i, Dist(i, end)) == Range(start, Dist(start, end))
        invariant packets == old(packets) - cleared && seqMapping == old(seqMapping) - cleared
        decreases Dist(i, end)
      {
        RangeStep(i, end);
        packets := packets - {i};
        seqMapping := seqMapping - {i};
        cleared := cleared + {i};
        i := Plus(i, 1);
      }
      RangeStep(i, end);
      if old(Acyclic(seqMapping)) {
        DroppingKeepsAcyclic(old(seqMapping), cleared);
      }
    }

    method MoveSeq(newSeq: u16)
      modifies `packets, `seqMapping, `startSeq
      ensures startSeq == newSeq
      ensures packets == old(packets) - Range(old(startSeq), Dist(old(startSeq), newSeq))
      ensures seqMapping == old(seqMapping) - Range(old(startSeq), Dist(old(startSeq), newSeq))
      ensures old(Acyclic(seqMapping)) ==> Acyclic(seqMapping)
    {
      ClearRange(startSeq, newSeq);
      startSeq := newSeq;
    }

    /** The `uint32_t` sum of the data sizes, or -1 when a packet of the range is missing. */
    method ComputeRangeSize(start: u16, end: u16) returns (r: nat)
      requires Acyclic(seqMapping)
      ensures var n := Dist(start, end);
              r == if Missing(packets, seqMapping, start, n) != [] then NOT_COMPLETE
                   else |Gather(packets, seqMapping, start, n)| % 0x1_0000_0000
    {
      hide Missing, Gather, Resolve;
      EndsEverywhereExactlyWhenAcyclic(seqMapping);
      ScanEnd(packets, seqMapping, end);
      var size := 0;
      ghost var sum: nat, g := 0, Gather(packets, seqMapping, start, Dist(start, end));
      var i := start;
      while i != end
        invariant size == sum % 0x1_0000_0000
        invariant Missing(packets, seqMapping, i, Dist(i, end)) == Missing(packets, seqMapping, start, Dist(start, end))
        invariant sum + |Gather(packets, seqMapping, i, Dist(i, end))| == |g|
        decreases Dist(i, end)
      {
        ScanStep(packets, seqMapping, i, end);
        var seqNum := ResolveSeq(i);
        if seqNum in packets {
          if IsData(packets[seqNum]) {
            AddWraps(sum, |packets[seqNum]|);
            size := (size + |packets[seqNum]|) % 0x1_0000_0000;
            sum := sum + |packets[seqNum]|;
          }
        } else {
          return NOT_COMPLETE;
        }
        i := Plus(i, 1);
      }
      return size;
    }

    /** Appends the missing numbers of the range to `missing`. */
    method FindMissingPackets(start: u16, end: u16, missing: seq<u16>) returns (r: seq<u16>)
      requires Acyclic(seqMapping)
      ensures r == missing + Missing(packets, seqMapping, start, Dist(start, end))
    {
      hide Missing, Gather, Resolve;
      EndsEverywhereExactlyWhenAcyclic(seqMapping);
      ScanEnd(packets, seqMapping, end);
      r := missing;
      var i := start;
      ghost var all := missing + Missing(packets, seqMapping, start, Dist(start, end));
      while i != end
        invariant r + Missing(packets, seqMapping, i, Dist(i, end)) == all
        decreases Dist(i, end)
      {
        ScanStep(packets, seqMapping, i, end);
        var seqNum := ResolveSeq(i);
        if seqNum !in packets {
          r := r + [i];
        }
        i := Plus(i, 1);
      }
    }

    /** A packet whose number is taken is dropped. */
    method PushPacket(seqNum: u16, data: Payload)
      modifies `packets
      ensures packets == if seqNum in old(packets) then old(packets) else old(packets)[seqNum := data]
    {
      if seqNum !in packets {
        packets := packets[seqNum := data];
      }
    }

    /** Writes the data of the range to the front of `data`; throws at the first missing packet,
        after writing what comes before it. The offset has 32 bits, so beyond 2^32 bytes it starts
        over at the front. */
    method CopyData(data: array<byte>, start: u16, end: u16) returns (r: Result<(), ()>)
      requires Acyclic(seqMapping)
      requires |Gather(packets, seqMapping, start, Dist(start, end))| <= data.Length
      modifies data
      ensures r.Err? <==> Missing(packets, seqMapping, start, Dist(start, end)) != []
      ensures var g := Gather(packets, seqMapping, start, Dist(start, end));
              data[|g|..] == old(data[|g|..]) && (|g| <= 0x1_0000_0000 ==> data[..|g|] == g)
    {
      hide Missing, Gather, Resolve, Dist, Plus, Acyclic, Range;
      EndsEverywhereExactlyWhenAcyclic(seqMapping);
      ScanEnd(packets, seqMapping, end);
      var offset := 0;
      var i := start;
      ghost var g, done: nat := Gather(packets, seqMapping, start, Dist(start, end)), 0;
      ghost var before := data[..];
      assert g[0..] == g && before[..0] == g[..0];
      while i != end
        invariant Missing(packets, seqMapping, i, Dist(i, end)) == Missing(packets, seqMapping, start, Dist(start, end))
        invariant done <= |g| && g[done..] == Gather(packets, seqMapping, i, Dist(i, end))
        invariant offset == done % 0x1_0000_0000
        invariant data[|g|..] == before[|g|..]
        invariant |g| <= 0x1_0000_0000 ==> data[..done] == g[..done]
        decreases Dist(i, end)
      {
        ScanStep(packets, seqMapping, i, end);
        var seqNum := ResolveSeq(i);
        if seqNum in packets {
          if IsData(packets[seqNum]) {
            var p := packets[seqNum];
            WriteAhead(g, done, p, Gather(packets, seqMapping, Plus(i, 1), Dist(Plus(i, 1), end)));
            CopyIn(data, offset, p);
            if |g| <= 0x1_0000_0000 {
              NotPast(done, |p|, |g|);
            }
            AddWraps(done, |p|);
            offset := (offset + |p|) % 0x1_0000_0000;
            done := done + |p|;
          }
        } else {
          assert g[done..] == [];
          return Err(());
        }
        i := Plus(i, 1);
      }
      assert g[done..] == [];
      return Ok(());
    }

    /** The three scans of a range agree: the size is -1 exactly when something is missing, which is
        exactly when copying throws. Otherwise, below 2^32 bytes, it is what copying writes. */
    method ScanRange(data: array<byte>, start: u16, end: u16)
      returns (size: nat, missing: seq<u16>, copied: Result<(), ()>)
      requires Acyclic(seqMapping)
      requires |Gather(packets, seqMapping, start, Dist(start, end))| <= data.Length
      modifies data
      ensures (size == NOT_COMPLETE) == (missing != []) == copied.Err?
      ensures var g := Gather(packets, seqMapping, start, Dist(start, end));
              copied.Ok? && |g| < 0x1_0000_0000 ==>
                size == |g| && data[..size] == g && data[size..] == old(data[size..])
    {
      hide Missing, Gather, Resolve;
      EvenNotComplete(packets, seqMapping, start, Dist(start, end));
      size := ComputeRangeSize(start, end);
      missing := FindMissingPackets(start, end, []);
      copied := CopyData(data, start, end);
    }
  }

  /** Data packets have even sizes, so no sum of them, wrapped or not, reads as -1. */
  lemma {:induction false} EvenNotComplete(packets: Packets, m: Mapping, start: u16, n: nat)
    requires Acyclic(m)
    ensures |Gather(packets, m, start, n)| % 2 == 0
    ensures |Gather(packets, m, start, n)| % 0x1_0000_0000 != NOT_COMPLETE
    decreases n
  {
    hide Acyclic, Resolve, Plus;
    if n > 0 {
      EvenNotComplete(packets, m, Plus(start, 1), n - 1);
    }
  }

  lemma WriteAhead(g: Payload, done: nat, p: Payload, rest: Payload)
    requires done <= |g| && g[done..] == p + rest
    ensures done + |p| <= |g| && g[done + |p|..] == rest
    ensures g[..done + |p|] == g[..done] + p
  {
    assert g[done..][..|p|] == p && g[done..][|p|..] == rest;
  }

  /** Up to 2^32 bytes in all, the offset is where the next byte belongs, or there is none. */
  lemma NotPast(done: nat, more: nat, all: nat)
    requires done + more <= all <= 0x1_0000_0000
    ensures done % 0x1_0000_0000 == done || more == 0
  {
  }

  /** `memcpy` to `data + offset`. */
  method CopyIn(data: array<byte>, offset: nat, p: Payload)
    requires offset + |p| <= data.Length
    modifies data
    ensures forall k :: offset + |p| <= k < data.Length ==> data[k] == old(data[k])
    ensures data[..offset + |p|] == old(data[..offset]) + p
  {
    forall k | 0 <= k < |p| {
      data[offset + k] := p[k];
    }
  }

  // ---------------------------------------------------------------- the send queue

  datatype SendState = SendState(endSeq: u16, packets: Packets)

  /** `push_packet`: the next number, unless it is still taken. */
  function Push(q: SendState, data: Payload): SendState {
    var n := Plus(q.endSeq, 1);
    SendState(n, if n in q.packets then q.packets else q.packets[n := data])
  }

  /** `move_packet_up`: the next number for a packet, which leaves an empty packet behind. */
  function MoveUp(q: SendState, s: u16): SendState {
    var n := Plus(q.endSeq, 1);
    SendState(n, if s in q.packets && n !in q.packets then q.packets[n := q.packets[s]][s := []] else q.packets)
  }

  function PushAll(q: SendState, chunks: seq<Payload>): SendState
    decreases |chunks|
  {
    if chunks == [] then q else PushAll(Push(q, chunks[0]), chunks[1..])
  }

  /** The pieces that `push_buffer` cuts: `mtu` bytes each, the last one what is left. */
  function Chunks(data: Payload, mtu: nat): seq<Payload>
    requires mtu > 0
    decreases |data|
  {
    if data == [] then []
    else if |data| <= mtu then [data]
    else [data[..mtu]] + Chunks(data[mtu..], mtu)
  }

  class PacketSendQueue {
    var mtu: nat
    var endSeq: u16
    var packets: Packets

    constructor ()
      ensures mtu == 1024 && Queue() == SendState(0, map[])
    {
      mtu, endSeq, packets := 1024, 0, map[];
    }

    function Queue(): SendState
      reads this
    {
      SendState(endSeq, packets)
    }

    method PushPacket(data: Payload)
      modifies `endSeq, `packets
      ensures Queue() == Push(old(Queue()), data)
    {
      endSeq := Plus(endSeq, 1);
      if endSeq !in packets {
        packets := packets[endSeq := data];
      }
    }

    method MovePacketUp(s: u16)
      modifies `endSeq, `packets
      ensures Queue() == MoveUp(old(Queue()), s)
    {
      endSeq := Plus(endSeq, 1);
      var newSeq := endSeq;
      if s in packets && newSeq !in packets {
        packets := packets[newSeq := packets[s]][s := []];
      }
    }

    /** `clear_range` of the sender: forgets the packets of the range. */
    method ClearRange(start: u16, end: u16)
      modifies `packets
      ensures packets == old(packets) - Range(start, Dist(start, end))
    {
      hide Range, Plus, Dist;
      var i := start;
      ghost var cleared: set<u16> := {};
      while i != end
        invariant cleared + Range(i, Dist(i, end)) == Range(start, Dist(start, end))
        invariant packets == old(packets) - cleared
        decreases Dist(i, end)
      {
        RangeStep(i, end);
        packets := packets - {i};
        cleared := cleared + {i};
        i := Plus(i, 1);
      }
      RangeStep(i, end);
    }

    /** Splits the buffer and pushes the pieces in order. */
    method PushBuffer(data: Payload)
      requires mtu > 0
      modifies `endSeq, `packets
      ensures Queue() == PushAll(old(Queue()), Chunks(data, mtu))
    {
      var offset, size := 0, |data|;
      assert data[0..] == data;
      while offset < size
        invariant offset <= size == |data|
        invariant PushAll(Queue(), Chunks(data[offset..], mtu)) == PushAll(old(Queue()), Chunks(data, mtu))
      {
        var packetSize := size - offset;
        if packetSize > mtu {
          packetSize := mtu;
        }
        ghost var rest := data[offset..];
        assert rest[packetSize..] == data[offset + packetSize..];
        assert data[offset..offset + packetSize] == rest[..packetSize];
        assert Chunks(rest, mtu)[0] == rest[..packetSize] && Chunks(rest, mtu)[1..] == Chunks(rest[packetSize..], mtu);
        PushPacket(data[offset..offset + packetSize]);
        offset := offset + packetSize;
      }
    }
  }

  // ---------------------------------------------------------------- numbers that are taken

  lemma {:induction false} PushAllKeepsPackets(q: SendState, chunks: seq<Payload>, s: u16)
    requires s in q.packets
    ensures s in PushAll(q, chunks).packets && PushAll(q, chunks).packets[s] == q.packets[s]
    decreases |chunks|
  {
    if chunks != [] {
      PushAllKeepsPackets(Push(q, chunks[0]), chunks[1..], s);
    }
  }

  /** Up to a whole round of numbers, each piece is in the queue under its number afterwards exactly
      when that number was free, or held an equal packet: a taken number drops the piece. */
  lemma {:induction false} PieceStored(q: SendState, chunks: seq<Payload>, k: nat)
    requires k < |chunks| <= 0x1_0000
    ensures var n, after := Plus(q.endSeq, k + 1), PushAll(q, chunks).packets;
            n in after && after[n] == if n in q.packets then q.packets[n] else chunks[k]
    decreases k
  {
    var q1 := Push(q, chunks[0]);
    if k == 0 {
      PushAllKeepsPackets(q1, chunks[1..], q1.endSeq);
    } else {
      PieceStored(q1, chunks[1..], k - 1);
      PlusPlus(q.endSeq, 1, k);
      assert Plus(q.endSeq, k + 1) != q1.endSeq;
    }
  }

  // ---------------------------------------------------------------- what the pieces hold

  /** The data that a receiver takes out of the pieces. */
  function DataOf(chunks: seq<Payload>): Payload {
    if chunks == [] then [] else Kept(chunks[0]) + DataOf(chunks[1..])
  }

  /** Every piece of the buffer has even size. */
  predicate SplitsEvenly(size: nat, mtu: nat) {
    size % 2 == 0 && (size <= mtu || mtu % 2 == 0)
  }

  lemma {:induction false} DataOfShorter(data: Payload, mtu: nat)
    requires mtu > 0
    ensures |DataOf(Chunks(data, mtu))| <= |data|
    decreases |data|
  {
    if |data| > mtu {
      DataOfShorter(data[mtu..], mtu);
    }
  }

  lemma FirstChunk(data: Payload, mtu: nat)
    requires 0 < mtu < |data|
    ensures DataOf(Chunks(data, mtu)) == (if mtu % 2 == 0 then data[..mtu] else []) + DataOf(Chunks(data[mtu..], mtu))
  {
    assert Chunks(data, mtu)[1..] == Chunks(data[mtu..], mtu);
  }

  lemma SameTail(head: Payload, x: Payload, y: Payload)
    ensures head + x == head + y <==> x == y
  {
    assert (head + x)[|head|..] == x && (head + y)[|head|..] == y;
  }

  /** The pieces give the buffer back exactly when all of them are even, which the size and the
      mtu tell. */
  lemma {:induction false} DataOfChunks(data: Payload, mtu: nat)
    requires mtu > 0
    ensures DataOf(Chunks(data, mtu)) == data <==> SplitsEvenly(|data|, mtu)
    decreases |data|
  {
    if |data| > mtu {
      DataOfChunks(data[mtu..], mtu);
      DataOfMore(data, mtu);
    } else if data != [] {
      assert Chunks(data, mtu)[1..] == [];
    }
  }

  lemma SplitsMore(size: nat, mtu: nat)
    requires 0 < mtu < size
    ensures SplitsEvenly(size, mtu) <==> mtu % 2 == 0 && SplitsEvenly(size - mtu, mtu)
  {
  }

  lemma DataOfMore(data: Payload, mtu: nat)
    requires 0 < mtu < |data|
    requires DataOf(Chunks(data[mtu..], mtu)) == data[mtu..] <==> SplitsEvenly(|data| - mtu, mtu)
    ensures DataOf(Chunks(data, mtu)) == data <==> SplitsEvenly(|data|, mtu)
  {
    hide DataOf, Chunks, SplitsEvenly;
    var rest := data[mtu..];
    FirstChunk(data, mtu);
    SplitsMore(|data|, mtu);
    if mtu % 2 == 0 {
      SameTail(data[..mtu], DataOf(Chunks(rest, mtu)), rest);
      assert data == data[..mtu] + rest;
    } else {
      DataOfShorter(rest, mtu);
      assert |DataOf(Chunks(data, mtu))| < |data|;
    }
  }

  lemma DivStep(size: nat, mtu: nat)
    requires size >= mtu > 0
    ensures size / mtu == (size - mtu) / mtu + 1 && size % mtu == (size - mtu) % mtu
  {
    var q, r := (size - mtu) / mtu, (size - mtu) % mtu;
    assert size - mtu == q * mtu + r;
    assert (q + 1) * mtu == q * mtu + mtu;
    DivUnique(size, mtu, q + 1, r);
  }

  lemma {:induction false} ChunkCount(data: Payload, mtu: nat)
    requires mtu > 0
    ensures |Chunks(data, mtu)| == CeilDiv(|data|, mtu)
    decreases |data|
  {
    if |data| >= mtu {
      DivStep(|data|, mtu);
    }
    if |data| > mtu {
      ChunkCount(data[mtu..], mtu);
    }
  }

  lemma MulStep(k: nat, mtu: nat)
    requires k > 0
    ensures k * mtu == (k - 1) * mtu + mtu && (k - 1) * mtu >= 0
  {
  }

  /** The piece of one mtu, or less at the end, that starts at `from`. */
  function PieceAt(data: Payload, mtu: nat, from: nat): Payload
    requires from <= |data|
  {
    data[from..if from + mtu < |data| then from + mtu else |data|]
  }

  lemma PieceOfRest(data: Payload, mtu: nat, from: nat)
    requires mtu <= from <= |data|
    ensures PieceAt(data[mtu..], mtu, from - mtu) == PieceAt(data, mtu, from)
  {
  }

  /** The `k`-th piece starts at `k * mtu` and ends one mtu later, or at the end. */
  lemma {:induction false} ChunkAt(data: Payload, mtu: nat, k: nat)
    requires mtu > 0 && k < |Chunks(data, mtu)|
    ensures 0 <= k * mtu < |data| && Chunks(data, mtu)[k] == PieceAt(data, mtu, k * mtu)
    decreases k
  {
    if k > 0 {
      ChunkAt(data[mtu..], mtu, k - 1);
      MulStep(k, mtu);
      PieceOfRest(data, mtu, k * mtu);
      assert Chunks(data, mtu)[k] == Chunks(data[mtu..], mtu)[k - 1];
    }
  }
}
