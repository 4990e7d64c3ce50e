/**
 * `BitBufferWriter` (proto/bit_writer.h) for words of any width. The word being filled is kept
 * outside the vector and may stay full until the next bit arrives.
 */
module BitWriter {
  import opened Arithmetic
  import opened BitStream
  import opened Sequences

  class BitBufferWriter {
    const wordBits: nat
    var out: seq<nat>
    var outV: nat
    var bitsOut: nat

    ghost predicate Valid()
      reads this
    {
      && wordBits > 0 && bitsOut <= wordBits && outV < Pow2(bitsOut)
      && (out != [] ==> bitsOut > 0)
    }

    /** All bits written so far, in order. */
    ghost function Stream(): Bits
      reads this
    {
      WordBits(out, wordBits) + BitsOf(outV, bitsOut)
    }

    constructor (wordBits: nat)
      requires wordBits > 0
      ensures Valid() && this.wordBits == wordBits && Stream() == []
    {
      this.wordBits := wordBits;
      out, outV, bitsOut := [], 0, 0;
    }

    method GetBitPos() returns (pos: nat)
      requires Valid()
      ensures pos == |Stream()|
    {
      pos := |out| * wordBits + bitsOut;
    }

    method Put(v: nat)
      modifies `out
      ensures out == old(out) + [Low(v, wordBits)]
    {
      out := out + [Low(v, wordBits)];
    }

    /** `out_v |= v << bits_out`, the shift done in a type of `width` bits. */
    method MergeLow(v: nat, width: nat)
      requires Valid() && bitsOut < width
      modifies `outV
      ensures outV == old(outV) + Low(v, Min(wordBits, width) - bitsOut) * Pow2(bitsOut)
    {
      hide Low;
      ShiftIntoWord(v, bitsOut, wordBits, width);
      OrAbove(outV, Low(v, Min(wordBits, width) - bitsOut), bitsOut);
      outV := Or(outV, Low(Low(v * Pow2(bitsOut), width), wordBits));
    }

    /** Appends the bits of `v` that `Appends` says, which are all `n` of them, lowest first, when
        the write fits. `width` is the width of the unsigned type of `v`; C++ defines a shift only
        for less than that. */
    method WriteUint(v: nat, n: nat, width: nat)
      requires Valid() && v < Pow2(n)
      requires n <= width && bitsOut < width
      modifies this
      ensures Valid()
      ensures Stream() == old(Stream()) + Appends(v, n, old(bitsOut), wordBits, width)
      ensures Fits(n, old(bitsOut), wordBits, width) ==> Stream() == old(Stream()) + BitsOf(v, n)
    {
      hide Pow2, BitsOf, Low, High, WordBits;
      if Fits(n, bitsOut, wordBits, width) {
        FittingAppendsAll(v, n, bitsOut, wordBits, width);
      }
      ghost var oldLow, appended := BitsOf(outV, bitsOut), Appends(v, n, bitsOut, wordBits, width);
      ghost var part := Low(v, Min(wordBits, width) - bitsOut);
      var b := wordBits - bitsOut;
      MergeFirst(outV, v, n, bitsOut, wordBits, width);
      MergeLow(v, width);
      if n <= b {
        bitsOut := bitsOut + n;
        assert appended == BitsOf(part, n) + [];
        Regroup(WordBits(out, wordBits), oldLow, appended);
        return;
      }
      HighSmall(v, b, n - b);
      var rest: nat, left: nat := High(v, b), n - b;
      Regroup(oldLow, BitsOf(part, b), BitsOf(rest, left));
      Regroup(WordBits(out, wordBits), BitsOf(outV, wordBits), BitsOf(rest, left));
      Regroup(WordBits(out, wordBits), oldLow, appended);
      ghost var goal := WordBits(out, wordBits) + (oldLow + appended);
      WordBitsSnoc(out, outV, wordBits);
      LowIsSame(outV, wordBits, wordBits);
      Put(outV);
      bitsOut := 0;
      outV := 0;
      while left > wordBits
        invariant rest < Pow2(left) && outV == 0 && bitsOut == 0 && 0 < left <= n
        invariant WordBits(out, wordBits) + BitsOf(rest, left) == goal
        decreases left
      {
        WholeWord(out, rest, left, wordBits);
        Put(rest);
        rest := High(rest, wordBits);
        left := left - wordBits;
      }
      LowIsSame(rest, left, wordBits);
      outV := Low(rest, wordBits);
      bitsOut := left;
    }

    /** The words, with the last one flushed: the stream, then zeros up to a whole word. The writer
        keeps the flushed word, so only a zero one leaves it usable. */
    method PickData() returns (words: seq<nat>)
      requires Valid()
      modifies this
      ensures old(Stream()) <= WordBits(words, wordBits)
      ensures |words| * wordBits < |old(Stream())| + wordBits
      ensures forall i :: |old(Stream())| <= i < |words| * wordBits ==> !WordBits(words, wordBits)[i]
      ensures old(bitsOut) > 0 ==> (Valid() <==> old(outV) == 0)
    {
      if bitsOut > 0 {
        PadWord(outV, bitsOut, wordBits);
        WordBitsSnoc(out, outV, wordBits);
        assert (|out| + 1) * wordBits == |out| * wordBits + wordBits;
        out := out + [outV];
        bitsOut := 0;
      }
      words := out;
      out := [];
    }
  }

  lemma WordBitsSnoc(words: seq<nat>, word: nat, w: nat)
    ensures WordBits(words + [word], w) == WordBits(words, w) + BitsOf(word, w)
  {
    assert (words + [word])[..|words|] == words;
  }

  // ---------------------------------------------------------------- what one write appends

  /** The bits that a write of `n` bits at `k` bits into a word appends. Those that go into this word
      are shifted in the value's type first, which drops what is shifted out of it. */
  function Appends(v: nat, n: nat, k: nat, w: nat, width: nat): (r: Bits)
    requires k <= w && k < width
    ensures |r| == n
  {
    var b := Min(n, w - k);
    BitsOf(Low(v, Min(w, width) - k), b) + BitsOf(High(v, b), n - b)
  }

  /** The part of the value that goes into the current word is not shifted out of its type. */
  predicate Fits(n: nat, k: nat, w: nat, width: nat) {
    Min(k + n, w) <= width
  }

  /** After the merge the word holds its own bits and the first part of the write. */
  lemma MergeFirst(low: nat, v: nat, n: nat, k: nat, w: nat, width: nat)
    requires low < Pow2(k) && v < Pow2(n) && k <= w && k < width
    ensures var part, b := Low(v, Min(w, width) - k), Min(n, w - k);
            && low + part * Pow2(k) < Pow2(k + b)
            && BitsOf(low + part * Pow2(k), k + b) == BitsOf(low, k) + BitsOf(part, b)
  {
    hide Pow2, BitsOf, Low;
    var room, b := Min(w, width) - k, Min(n, w - k);
    var part := Low(v, room);
    if n <= w - k {
      LowAtMost(v, room);
    } else {
      Pow2Grows(room, b);
    }
    SumFits(low, part, k, b);
    BitsOfSum(low, part, k, b);
  }

  lemma LowAtMost(v: nat, k: nat)
    ensures Low(v, k) <= v
  {
    hide Pow2, Low, High;
    LowHigh(v, k);
  }

  /** Either the type has all the room of the word, or all of the value fits into its room. */
  lemma FittingKeepsPart(v: nat, n: nat, k: nat, w: nat, width: nat)
    requires v < Pow2(n) && k <= w && k < width && Fits(n, k, w, width)
    ensures Low(v, Min(w, width) - k) == Low(v, Min(n, w - k))
  {
    hide Pow2, Low;
    if n <= w - k {
      LowIsSame(v, n, n);
      LowIsSame(v, n, Min(w, width) - k);
    }
  }

  lemma FittingAppendsAll(v: nat, n: nat, k: nat, w: nat, width: nat)
    requires v < Pow2(n) && k <= w && k < width && Fits(n, k, w, width)
    ensures Appends(v, n, k, w, width) == BitsOf(v, n)
  {
    hide Pow2, BitsOf, Low, High, Fits;
    FittingKeepsPart(v, n, k, w, width);
    BitsOfSplit(v, Min(n, w - k), n - Min(n, w - k));
  }

  /** A write appends just its value, whatever the value is, exactly when it fits. The position, the
      number of bits and the two widths tell. */
  lemma AppendsAllExactlyWhen(n: nat, k: nat, w: nat, width: nat)
    requires k <= w && k < width
    ensures (forall v: nat | v < Pow2(n) :: Appends(v, n, k, w, width) == BitsOf(v, n)) <==> Fits(n, k, w, width)
  {
    hide Pow2, BitsOf, Low, High, Appends;
    if Fits(n, k, w, width) {
      forall v: nat | v < Pow2(n)
        ensures Appends(v, n, k, w, width) == BitsOf(v, n)
      {
        FittingAppendsAll(v, n, k, w, width);
      }
    } else {
      DroppedBit(n, k, w, width);
    }
  }

  /** The lowest bit that is shifted out is lost. */
  lemma DroppedBit(n: nat, k: nat, w: nat, width: nat)
    requires k <= w && k < width && !Fits(n, k, w, width)
    ensures Pow2(width - k) < Pow2(n) && Appends(Pow2(width - k), n, k, w, width) != BitsOf(Pow2(width - k), n)
  {
    hide BitsOf, Low, High;
    var j, b := width - k, Min(n, w - k);
    var v := Pow2(j);
    Pow2Grows(j + 1, b);
    Pow2Grows(b, n);
    BitsOfSplit(v, b, n - b);
    LowIsSame(v, b, b);
    LowOfPow2(j);
    if BitsOf(0, b) == BitsOf(v, b) {
      ValueOfBits(0, b);
      ValueOfBits(v, b);
    }
    assert Appends(v, n, k, w, width)[..b] == BitsOf(0, b) && BitsOf(v, n)[..b] == BitsOf(v, b);
  }

  lemma LowOfPow2(j: nat)
    ensures Low(Pow2(j), j) == 0
  {
    DivUnique(Pow2(j), Pow2(j), 1, 0);
  }

  lemma SumFits(low: nat, v: nat, k: nat, n: nat)
    requires low < Pow2(k) && v < Pow2(n)
    ensures low + v * Pow2(k) < Pow2(k + n)
  {
    hide Pow2;
    Pow2Add(n, k);
    TimesMonotone(v + 1, Pow2(n), Pow2(k));
    assert (v + 1) * Pow2(k) == v * Pow2(k) + Pow2(k);
  }

  /** One turn of the loop: a whole word of the value. */
  lemma WholeWord(out: seq<nat>, v: nat, n: nat, w: nat)
    requires v < Pow2(n) && w < n
    ensures WordBits(out + [Low(v, w)], w) + BitsOf(High(v, w), n - w) == WordBits(out, w) + BitsOf(v, n)
    ensures High(v, w) < Pow2(n - w)
  {
    hide Pow2, BitsOf, Low, High, WordBits;
    WordBitsSnoc(out, Low(v, w), w);
    BitsOfSplit(v, w, n - w);
    HighSmall(v, w, n - w);
    Regroup(WordBits(out, w), BitsOf(Low(v, w), w), BitsOf(High(v, w), n - w));
  }

  /** A word that is not full is its bits and zeros. */
  lemma PadWord(v: nat, k: nat, w: nat)
    requires v < Pow2(k) && k <= w
    ensures BitsOf(v, w) == BitsOf(v, k) + BitsOf(0, w - k)
    ensures var zeros := BitsOf(0, w - k); forall i :: 0 <= i < |zeros| ==> !zeros[i]
  {
    BitsOfSum(v, 0, k, w - k);
    ZeroBits(w - k);
  }

  lemma {:induction false} ZeroBits(n: nat)
    ensures var zeros := BitsOf(0, n); forall i :: 0 <= i < |zeros| ==> !zeros[i]
    decreases n
  {
    if n > 0 {
      ZeroBits(n - 1);
      assert BitsOf(0, n) == [false] + BitsOf(0 / 2, n - 1);
    }
  }

  // ---------------------------------------------------------------- a sequence of writes

  datatype Write = Write(v: nat, n: nat)

  function Total(writes: seq<Write>): nat {
    if writes == [] then 0 else Total(writes[..|writes| - 1]) + writes[|writes| - 1].n
  }

  /** Bits in the current word after `pos` bits: a full word stays until the next bit. */
  function Fill(pos: nat, w: nat): (k: nat)
    requires w > 0
    ensures k <= w
  {
    if pos == 0 then 0 else (pos - 1) % w + 1
  }

  lemma FillOfStream(words: nat, k: nat, w: nat)
    requires w > 0 && k <= w && (words > 0 ==> k > 0)
    ensures Fill(words * w + k, w) == k
  {
    if k > 0 {
      DivUnique(words * w + k - 1, w, words, k - 1);
    }
  }

  /** With values as wide as the word, a write's shift is one that C++ defines exactly when the write
      does not start at a full word. */
  lemma WordWideShiftDefinedExactlyWhen(pos: nat, w: nat)
    requires w > 0
    ensures Fill(pos, w) < w <==> pos == 0 || pos % w != 0
  {
    if pos > 0 {
      var q, r := (pos - 1) / w, (pos - 1) % w;
      assert pos == q * w + (r + 1);
      if r + 1 < w {
        DivUnique(pos, w, q, r + 1);
      } else {
        assert pos == (q + 1) * w;
        DivUnique(pos, w, q + 1, 0);
      }
    }
  }

  /** The values have the bits they are written with, and every shift is by less than the width. */
  predicate Writable(writes: seq<Write>, wordBits: nat, width: nat)
    requires wordBits > 0
  {
    forall i :: 0 <= i < |writes| ==>
      && writes[i].n <= width && writes[i].v < Pow2(writes[i].n)
      && Fill(Total(writes[..i]), wordBits) < width
  }

  /** Any sequence of writes of values of any width, each position noted before its write: the
      decoder finds what the write appended at its position in the words, and that is the value if
      the write fits. */
  method WriteAll(writes: seq<Write>, wordBits: nat, width: nat) returns (words: seq<nat>, positions: seq<nat>)
    requires wordBits > 0 && Writable(writes, wordBits, width)
    ensures |positions| == |writes|
    ensures forall i :: 0 <= i < |writes| ==>
              positions[i] == Total(writes[..i]) && positions[i] + writes[i].n <= |words| * wordBits
    ensures forall i :: 0 <= i < |writes| ==>
              var k := Fill(positions[i], wordBits);
              && k < width
              && Decode(words, wordBits, positions[i], writes[i].n)
                 == ValueOf(Appends(writes[i].v, writes[i].n, k, wordBits, width))
              && (Fits(writes[i].n, k, wordBits, width) ==>
                    Decode(words, wordBits, positions[i], writes[i].n) == writes[i].v)
  {
    hide Pow2, BitsOf, WordBits, ValueOf, Appends, Fits, Fill, Low, High, Found, Total;
    FoundNone(writes);
    var w := new BitBufferWriter(wordBits);
    positions := [];
    ghost var parts: seq<Bits> := [];
    for i := 0 to |writes|
      invariant w.Valid() && w.wordBits == wordBits && fresh(w) && |positions| == i
      invariant |w.Stream()| == Total(writes[..i])
      invariant forall j :: 0 <= j < i ==> positions[j] == Total(writes[..j])
      invariant Found(writes, parts, positions, w.Stream(), i)
      invariant |parts| == i && forall j :: 0 <= j < i ==> Part(writes[j], positions[j], wordBits, width, parts[j])
    {
      ghost var before := w.Stream();
      var pos := w.GetBitPos();
      FillOfStream(|w.out|, w.bitsOut, wordBits);
      TotalStep(writes, i);
      ghost var part := Appends(writes[i].v, writes[i].n, w.bitsOut, wordBits, width);
      PartIs(writes[i], pos, wordBits, width, part);
      w.WriteUint(writes[i].v, writes[i].n, width);
      FoundMore(writes, parts, positions, before, i, pos, part);
      positions := positions + [pos];
      parts := parts + [part];
    }
    assert writes[..|writes|] == writes;
    ghost var stream := w.Stream();
    words := w.PickData();
    DecodeFound(writes, parts, positions, stream, words, wordBits);
  }

  /** The part of the stream that a write appended at `pos` is, and its value when the write fits. */
  ghost predicate Part(write: Write, pos: nat, w: nat, width: nat, part: Bits)
    requires w > 0
  {
    var k := Fill(pos, w);
    && k < width
    && part == Appends(write.v, write.n, k, w, width)
    && (Fits(write.n, k, w, width) ==> ValueOf(part) == write.v)
  }

  lemma PartIs(write: Write, pos: nat, w: nat, width: nat, part: Bits)
    requires w > 0 && write.v < Pow2(write.n) && Fill(pos, w) < width
    requires part == Appends(write.v, write.n, Fill(pos, w), w, width)
    ensures Part(write, pos, w, width, part)
  {
    hide Pow2, BitsOf, Low, High, Appends, ValueOf;
    if Fits(write.n, Fill(pos, w), w, width) {
      FittingAppendsAll(write.v, write.n, Fill(pos, w), w, width);
      ValueOfBits(write.v, write.n);
    }
  }

  /** The first `i` parts stand at their positions in the stream. */
  ghost predicate Found(writes: seq<Write>, parts: seq<Bits>, positions: seq<nat>, stream: Bits, i: nat) {
    && i <= |writes| && |parts| == i <= |positions|
    && forall j :: 0 <= j < i ==>
         && |parts[j]| == writes[j].n && positions[j] + writes[j].n <= |stream|
         && stream[positions[j]..positions[j] + writes[j].n] == parts[j]
  }

  lemma FoundNone(writes: seq<Write>)
    ensures Found(writes, [], [], [], 0) && Total(writes[..0]) == 0
  {
  }

  lemma TotalStep(writes: seq<Write>, i: nat)
    requires i < |writes|
    ensures Total(writes[..i + 1]) == Total(writes[..i]) + writes[i].n
  {
    assert writes[..i + 1][..i] == writes[..i];
  }

  lemma FoundMore(writes: seq<Write>, parts: seq<Bits>, positions: seq<nat>, before: Bits, i: nat, pos: nat, part: Bits)
    requires i < |writes| && |part| == writes[i].n && pos == |before|
    requires Found(writes, parts, positions, before, i) && |positions| == i
    ensures Found(writes, parts + [part], positions + [pos], before + part, i + 1)
  {
    Appended(before, part);
    forall j | 0 <= j < i
      ensures (before + part)[positions[j]..positions[j] + writes[j].n] == parts[j]
    {
      PrefixSlice(before, before + part, positions[j], positions[j] + writes[j].n);
    }
  }

  lemma DecodeFound(writes: seq<Write>, parts: seq<Bits>, positions: seq<nat>, stream: Bits, words: seq<nat>, w: nat)
    requires Found(writes, parts, positions, stream, |writes|) && stream <= WordBits(words, w)
    ensures forall i :: 0 <= i < |writes| ==>
              && positions[i] + writes[i].n <= |words| * w
              && Decode(words, w, positions[i], writes[i].n) == ValueOf(parts[i])
  {
    hide ValueOf, BitsOf;
    forall i | 0 <= i < |writes|
      ensures positions[i] + writes[i].n <= |words| * w
      ensures Decode(words, w, positions[i], writes[i].n) == ValueOf(parts[i])
    {
      PrefixSlice(stream, WordBits(words, w), positions[i], positions[i] + writes[i].n);
    }
  }

  lemma Appended(before: Bits, added: Bits)
    ensures (before + added)[|before|..|before| + |added|] == added
  {
  }

  lemma PrefixSlice(a: Bits, b: Bits, from: nat, to: nat)
    requires a <= b && from <= to <= |a|
    ensures a[from..to] == b[from..to]
  {
    assert b[..|a|] == a;
  }
}
