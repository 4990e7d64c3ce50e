/**
 * `BitBufferReader` (proto/bit_reader.h): how many bits are left, when reading ends, and which
 * words of the buffer are touched. The values it returns are not modelled.
 */
module BitReader {
  import opened Arithmetic

  class BitBufferReader {
    const elemBits: nat
    const bufSize: nat             // words of the buffer
    var itemsRead: nat
    var bitSize: nat
    var curItemBits: nat

    /** The buffer holds the stream, no word past it has been read, and the bits of the current
        word that are counted as left are bits of the stream. */
    ghost predicate Valid()
      reads this
    {
      && elemBits > 0
      && bufSize == CeilDiv(bitSize, elemBits)
      && itemsRead <= bufSize
      && curItemBits <= elemBits
      && (itemsRead == 0 ==> bitSize == 0 && curItemBits == 0)
    }

    /** Bits not yet handed out. */
    ghost function Remaining(): nat
      reads this
    {
      if itemsRead * elemBits >= bitSize then curItemBits else bitSize - itemsRead * elemBits + curItemBits
    }

    constructor (elemBits: nat, bitSize: nat)
      requires elemBits > 0
      ensures Valid() && Remaining() == bitSize && this.bitSize == bitSize && this.elemBits == elemBits
    {
      this.elemBits, this.bitSize, this.bufSize := elemBits, bitSize, CeilDiv(bitSize, elemBits);
      itemsRead, curItemBits := 0, 0;
      CeilDivBounds(bitSize, elemBits, 0);
      if bitSize > 0 {
        itemsRead := 1;
        curItemBits := if bitSize > elemBits then elemBits else bitSize;
      }
    }

    /** The second constructor starts `bitShift` bits into the first word. */
    constructor Shifted(elemBits: nat, bitSize_: nat, bitShift: nat)
      requires elemBits > 0 && bitShift <= elemBits
      ensures Valid() && Remaining() == bitSize_ && this.bitSize == bitSize_ + bitShift && this.elemBits == elemBits
    {
      var size := bitSize_ + bitShift;
      this.elemBits, this.bitSize, this.bufSize := elemBits, size, CeilDiv(size, elemBits);
      itemsRead, curItemBits := 0, 0;
      CeilDivBounds(size, elemBits, 0);
      if size > 0 {
        itemsRead := 1;
        curItemBits := (if size > elemBits then elemBits else size) - bitShift;
      }
    }

    /** Loads the next word, or reports the end of the stream and changes nothing. */
    method ReadItem() returns (finished: bool)
      requires Valid()
      modifies `itemsRead, `curItemBits
      ensures Valid()
      ensures finished <==> old(itemsRead) * elemBits >= bitSize
      ensures finished ==> unchanged(this)
      ensures !finished ==> itemsRead == old(itemsRead) + 1 && curItemBits > 0
      ensures !finished ==> Remaining() + old(curItemBits) == old(Remaining())
    {
      var bitsRead := itemsRead * elemBits;
      if bitsRead >= bitSize {
        return true;
      }
      CeilDivBounds(bitSize, elemBits, itemsRead);
      assert itemsRead < bufSize;        // the word is inside the buffer
      assert (itemsRead + 1) * elemBits == itemsRead * elemBits + elemBits;
      itemsRead := itemsRead + 1;
      if bitsRead + elemBits <= bitSize {
        curItemBits := elemBits;
      } else {
        curItemBits := bitSize - bitsRead;
      }
      return false;
    }

    /** Throws exactly when fewer than `n` bits are left; otherwise `n` bits fewer are left. */
    method ReadBits(n: nat) returns (finished: bool)
      requires Valid()
      modifies `itemsRead, `curItemBits
      ensures Valid()
      ensures finished <==> n > old(Remaining())
      ensures !finished ==> Remaining() == old(Remaining()) - n
    {
      if n <= curItemBits {
        curItemBits := curItemBits - n;
        return false;
      }
      var left := n - curItemBits;
      finished := ReadItem();
      if finished {
        return;
      }
      while left > curItemBits
        invariant Valid() && 0 <= left <= n && curItemBits > 0
        invariant Remaining() + n == old(Remaining()) + left
        decreases left
      {
        left := left - curItemBits;
        ghost var cur := curItemBits;
        finished := ReadItem();
        if finished {
          return;
        }
      }
      curItemBits := curItemBits - left;
    }
  }

  function Sum(ns: seq<nat>): nat {
    if ns == [] then 0 else Sum(ns[..|ns| - 1]) + ns[|ns| - 1]
  }

  /** A sequence of reads stops at the first one that does not fit into the bits that are left,
      whichever constructor made the reader. */
  method ReadAll(elemBits: nat, bitSize: nat, bitShift: nat, ns: seq<nat>) returns (done: nat)
    requires elemBits > 0 && bitShift <= elemBits
    ensures done <= |ns|
    ensures Sum(ns[..done]) <= bitSize
    ensures done < |ns| ==> Sum(ns[..done + 1]) > bitSize
  {
    var r;
    if bitShift == 0 {
      r := new BitBufferReader(elemBits, bitSize);
    } else {
      r := new BitBufferReader.Shifted(elemBits, bitSize, bitShift);
    }
    done := 0;
    assert ns[..0] == [];
    while done < |ns|
      invariant done <= |ns| && fresh(r) && r.Valid()
      invariant Sum(ns[..done]) + r.Remaining() == bitSize
    {
      assert ns[..done + 1][..done] == ns[..done];
      var finished := r.ReadBits(ns[done]);
      if finished {
        return;
      }
      done := done + 1;
    }
  }
}
