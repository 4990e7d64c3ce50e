/**
 * `PacketSequence` (packet_sequence.h): a buffer addressed by packet number. `modulus` is the
 * number of values of `Tseq`; sizes and positions are `size_t` and wrap at 2^64.
 */
module PacketSequence {
  import opened Arithmetic
  import opened Bytes
  import opened Wrappers
  import opened PacketQueue

  const SIZE_LIMIT: nat := 0x1_0000_0000_0000_0000

  /** `packet_start_pos`: both the difference and the product wrap. */
  function StartPos(modulus: nat, seqStart: nat, mtu: nat, s: nat): nat
    requires modulus > 0
  {
    (s - seqStart) % modulus * mtu % SIZE_LIMIT
  }

  /** `packet_loc`: start and size of the slice, or the exception. */
  function Location(modulus: nat, seqStart: nat, dataSize: nat, mtu: nat, s: nat): Option<(nat, nat)>
    requires modulus > 0
  {
    var start := StartPos(modulus, seqStart, mtu, s);
    if start >= dataSize then None
    else Some((start, if dataSize - start < mtu then dataSize - start else mtu))
  }

  class PacketSequence {
    const modulus: nat
    var seqStart: nat
    var dataSize: nat
    var mtu: nat
    var data: array?<byte>

    ghost predicate Valid()
      reads this
    {
      modulus > 0 && seqStart < modulus && dataSize < SIZE_LIMIT && (data != null ==> data.Length == dataSize)
    }

    constructor (modulus: nat, seqStart: nat, dataSize: nat, mtu: nat)
      requires seqStart < modulus && dataSize < SIZE_LIMIT
      ensures Valid() && this.modulus == modulus && this.seqStart == seqStart
      ensures this.dataSize == dataSize && this.mtu == mtu && data != null && fresh(data)
    {
      this.modulus, this.seqStart, this.dataSize, this.mtu := modulus, seqStart, dataSize, mtu;
      data := new byte[dataSize];
    }

    /** The least number of packets that cover the data: a packet counts exactly when it starts
        before the end. */
    method PacketsCount() returns (n: nat)
      requires mtu > 0
      ensures forall k: nat :: k < n <==> k * mtu < dataSize
    {
      forall k: nat
        ensures k < CeilDiv(dataSize, mtu) <==> k * mtu < dataSize
      {
        CeilDivBounds(dataSize, mtu, k);
      }
      n := dataSize / mtu;
      if dataSize % mtu != 0 {
        return n + 1;
      }
    }

    method PacketLoc(packetSeq: nat) returns (r: Result<(nat, nat), ()>)
      requires Valid() && packetSeq < modulus
      ensures r == match Location(modulus, seqStart, dataSize, mtu, packetSeq)
                   case None => Err(())
                   case Some(loc) => Ok(loc)
      ensures r.Ok? ==> r.value.0 + r.value.1 <= dataSize
    {
      var packetNum := (packetSeq - seqStart) % modulus;
      var startPos := packetNum * mtu % SIZE_LIMIT;
      if startPos >= dataSize {
        return Err(());
      }
      return Ok((startPos, if dataSize - startPos < mtu then dataSize - startPos else mtu));
    }

    method Clear()
      modifies this
      ensures data == null && dataSize == 0 && mtu == 0 && seqStart == 0
    {
      data, dataSize, mtu, seqStart := null, 0, 0, 0;
    }
  }

  // ---------------------------------------------------------------- the slices

  lemma NumberOf(modulus: nat, seqStart: nat, k: nat)
    requires seqStart < modulus && k < modulus
    ensures (seqStart + k) % modulus < modulus
    ensures ((seqStart + k) % modulus - seqStart) % modulus == k
  {
    if seqStart + k < modulus {
      DivUnique(seqStart + k, modulus, 0, seqStart + k);
      DivUnique(k, modulus, 0, k);
    } else {
      DivUnique(seqStart + k, modulus, 1, seqStart + k - modulus);
      assert (k - modulus) % modulus == k by {
        assert -1 * modulus + k == k - modulus;
        ModMinus(k, modulus);
      }
    }
  }

  lemma ModMinus(k: nat, modulus: nat)
    requires k < modulus
    ensures (k - modulus) % modulus == k
  {
    var q, r := (k - modulus) / modulus, (k - modulus) % modulus;
    assert k - modulus == q * modulus + r;
    assert (q + 1) * modulus == k - r;
    if q + 1 >= 1 {
      AtLeast(q + 1, modulus);
    } else if q + 1 <= -1 {
      AtLeast(-(q + 1), modulus);
    }
  }

  lemma PositionOf(modulus: nat, seqStart: nat, mtu: nat, k: nat)
    requires seqStart < modulus && k < modulus
    ensures StartPos(modulus, seqStart, mtu, (seqStart + k) % modulus) == k * mtu % SIZE_LIMIT
  {
    NumberOf(modulus, seqStart, k);
  }

  /** The `k`-th number from the start, wrapping, gets the slice from `k * mtu` to the start of the
      next one or the end of the data, and that slice is the `k`-th piece `push_buffer` cuts. */
  lemma SlicesPartition(modulus: nat, seqStart: nat, data: Payload, mtu: nat, k: nat)
    requires seqStart < modulus && mtu > 0 && |data| < SIZE_LIMIT
    requires CeilDiv(|data|, mtu) <= modulus && k < CeilDiv(|data|, mtu)
    ensures var r := Location(modulus, seqStart, |data|, mtu, (seqStart + k) % modulus);
            && r.Some? && r.value.0 == k * mtu && r.value.1 > 0
            && r.value.0 + r.value.1 == (if k + 1 < CeilDiv(|data|, mtu) then (k + 1) * mtu else |data|)
            && CeilDiv(|data|, mtu) == |Chunks(data, mtu)|
            && data[r.value.0..r.value.0 + r.value.1] == Chunks(data, mtu)[k]
  {
    hide Chunks, CeilDiv, StartPos;
    PositionOf(modulus, seqStart, mtu, k);
    CeilDivBounds(|data|, mtu, k);
    CeilDivBounds(|data|, mtu, k + 1);
    ChunkCount(data, mtu);
    ChunkAt(data, mtu, k);
    assert (k + 1) * mtu == k * mtu + mtu;
    assert k * mtu % SIZE_LIMIT == k * mtu;
  }

  /** For data of at least one full packet, every other number is refused exactly when the largest
      position fits into `size_t`: past that, positions wrap back into the data. */
  lemma OthersRefusedExactlyWhen(modulus: nat, seqStart: nat, dataSize: nat, mtu: nat)
    requires seqStart < modulus && 0 < mtu <= dataSize < SIZE_LIMIT
    ensures (forall k: nat :: CeilDiv(dataSize, mtu) <= k < modulus ==>
               Location(modulus, seqStart, dataSize, mtu, Nth(modulus, seqStart, k)).None?)
            <==> (modulus - 1) * mtu < SIZE_LIMIT
  {
    if (modulus - 1) * mtu < SIZE_LIMIT {
      forall k: nat | CeilDiv(dataSize, mtu) <= k < modulus
        ensures Location(modulus, seqStart, dataSize, mtu, Nth(modulus, seqStart, k)).None?
      {
        Refused(modulus, seqStart, dataSize, mtu, k);
      }
    } else {
      var k := WrapsBack(modulus, seqStart, dataSize, mtu);
      assert Location(modulus, seqStart, dataSize, mtu, Nth(modulus, seqStart, k)).Some?;
    }
  }

  /** The `k`-th number from the start. */
  function Nth(modulus: nat, seqStart: nat, k: nat): nat
    requires modulus > 0
  {
    (seqStart + k) % modulus
  }

  /** Whatever the size of the data, positions that all fit are refused past the last slice. */
  lemma Refused(modulus: nat, seqStart: nat, dataSize: nat, mtu: nat, k: nat)
    requires seqStart < modulus && mtu > 0 && CeilDiv(dataSize, mtu) <= k < modulus
    requires (modulus - 1) * mtu < SIZE_LIMIT
    ensures Location(modulus, seqStart, dataSize, mtu, Nth(modulus, seqStart, k)).None?
  {
    hide CeilDiv, StartPos;
    PositionOf(modulus, seqStart, mtu, k);
    CeilDivBounds(dataSize, mtu, k);
    TimesMonotone(k, modulus - 1, mtu);
    assert k * mtu % SIZE_LIMIT == k * mtu;
  }

  lemma WrapsBack(modulus: nat, seqStart: nat, dataSize: nat, mtu: nat) returns (k: nat)
    requires seqStart < modulus && 0 < mtu <= dataSize < SIZE_LIMIT
    requires (modulus - 1) * mtu >= SIZE_LIMIT
    ensures CeilDiv(dataSize, mtu) <= k < modulus
    ensures Location(modulus, seqStart, dataSize, mtu, Nth(modulus, seqStart, k)).Some?
  {
    hide StartPos;
    k := FirstPast(modulus - 1, mtu);
    CeilDivBounds(dataSize, mtu, k);
    PositionOf(modulus, seqStart, mtu, k);
    assert k * mtu % SIZE_LIMIT == k * mtu - SIZE_LIMIT;
  }

  /** For data shorter than one packet that is not necessary: positions may wrap past the data. */
  lemma ShortDataMayStillBeRefused()
    ensures var mtu := SIZE_LIMIT / 2 + 1;
            && (3 - 1) * mtu >= SIZE_LIMIT
            && forall k: nat :: CeilDiv(1, mtu) <= k < 3 ==> Location(3, 0, 1, mtu, Nth(3, 0, k)).None?
  {
    var mtu := SIZE_LIMIT / 2 + 1;
    forall k: nat | CeilDiv(1, mtu) <= k < 3
      ensures Location(3, 0, 1, mtu, Nth(3, 0, k)).None?
    {
      assert k == 1 || k == 2;
    }
  }

  /** The first multiple that does not fit is less than one step past the limit. */
  lemma {:induction false} FirstPast(k: nat, mtu: nat) returns (first: nat)
    requires 0 < mtu < SIZE_LIMIT && k * mtu >= SIZE_LIMIT
    ensures first <= k && SIZE_LIMIT <= first * mtu < SIZE_LIMIT + mtu
    decreases k
  {
    if k > 0 && (k - 1) * mtu >= SIZE_LIMIT {
      first := FirstPast(k - 1, mtu);
    } else {
      first := k;
      assert k * mtu == (k - 1) * mtu + mtu;
    }
  }
}
