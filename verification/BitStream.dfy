/**
 * Bits as the serializer sees them: numbers as little-endian bit lists, the shifts and the OR
 * that pack them into words, and a decoder that only slices bits.
 */
module BitStream {
  import opened Arithmetic

  type Bits = seq<bool>

  function Pow2(n: nat): (r: nat)
    ensures r > 0
  {
    if n == 0 then 1 else 2 * Pow2(n - 1)
  }

  /** The `n` lowest bits of `v`, lowest first. */
  function BitsOf(v: nat, n: nat): (r: Bits)
    ensures |r| == n
  {
    if n == 0 then [] else [v % 2 == 1] + BitsOf(v / 2, n - 1)
  }

  /** The number whose bits these are. */
  function ValueOf(b: Bits): nat {
    if b == [] then 0 else (if b[0] then 1 else 0) + 2 * ValueOf(b[1..])
  }

  /** Bitwise OR. */
  function Or(a: nat, b: nat): nat {
    if a == 0 then b
    else if b == 0 then a
    else (if a % 2 == 1 || b % 2 == 1 then 1 else 0) + 2 * Or(a / 2, b / 2)
  }

  /** All bits of a list of words of `w` bits. */
  function WordBits(words: seq<nat>, w: nat): (r: Bits)
    ensures |r| == |words| * w
  {
    if words == [] then [] else WordBits(words[..|words| - 1], w) + BitsOf(words[|words| - 1], w)
  }

  /** The specification decoder: the value of `n` bits from bit position `pos` on. */
  function Decode(words: seq<nat>, w: nat, pos: nat, n: nat): nat
    requires pos + n <= |words| * w
  {
    ValueOf(WordBits(words, w)[pos..pos + n])
  }

  lemma {:induction false} ValueOfBits(v: nat, n: nat)
    requires v < Pow2(n)
    ensures ValueOf(BitsOf(v, n)) == v
    decreases n
  {
    if n > 0 {
      ValueOfBits(v / 2, n - 1);
      assert BitsOf(v, n)[1..] == BitsOf(v / 2, n - 1);
    }
  }

  lemma {:induction false} Pow2Add(a: nat, b: nat)
    ensures Pow2(a + b) == Pow2(a) * Pow2(b)
    decreases a
  {
    if a > 0 {
      Pow2Add(a - 1, b);
      Associates(2, Pow2(a - 1), Pow2(b));
    }
  }

  lemma Halve(low: nat, v: nat, k: nat)
    requires k > 0
    ensures (low + v * Pow2(k)) % 2 == low % 2
    ensures (low + v * Pow2(k)) / 2 == low / 2 + v * Pow2(k - 1)
  {
    var h := v * Pow2(k - 1);
    Associates(2, v, Pow2(k - 1));
    assert v * Pow2(k) == 2 * h by {
      assert v * (2 * Pow2(k - 1)) == 2 * h;
    }
  }

  /** Putting `v` above `k` bits of `low` puts their bits one after the other. */
  lemma {:induction false} BitsOfSum(low: nat, v: nat, k: nat, n: nat)
    requires low < Pow2(k)
    ensures BitsOf(low + v * Pow2(k), k + n) == BitsOf(low, k) + BitsOf(v, n)
    decreases k
  {
    if k > 0 {
      Halve(low, v, k);
      BitsOfSum(low / 2, v, k - 1, n);
      assert [low % 2 == 1] + (BitsOf(low / 2, k - 1) + BitsOf(v, n)) == BitsOf(low, k) + BitsOf(v, n);
    }
  }

  /** Conversion to `k` bits: the low bits of a number. */
  function Low(v: nat, k: nat): (r: nat)
    ensures r < Pow2(k)
  {
    var p := Pow2(k);
    v % p
  }

  /** A right shift by `k`. */
  function High(v: nat, k: nat): nat {
    var p := Pow2(k);
    DivNat(v, p);
    v / p
  }

  lemma DivNat(v: nat, d: nat)
    requires d > 0
    ensures v / d >= 0 && v == v % d + v / d * d
  {
  }

  lemma LowHigh(v: nat, k: nat)
    ensures v == Low(v, k) + High(v, k) * Pow2(k)
  {
    DivNat(v, Pow2(k));
  }

  /** The low `a` bits of a number, and the rest shifted down. */
  lemma BitsOfSplit(v: nat, a: nat, b: nat)
    ensures BitsOf(v, a + b) == BitsOf(Low(v, a), a) + BitsOf(High(v, a), b)
  {
    hide Pow2, BitsOf, Low, High;
    LowHigh(v, a);
    BitsOfSum(Low(v, a), High(v, a), a, b);
  }

  lemma HighSmall(v: nat, a: nat, b: nat)
    requires v < Pow2(a + b)
    ensures High(v, a) < Pow2(b)
  {
    hide Pow2, Low, High;
    LowHigh(v, a);
    Pow2Add(a, b);
    if High(v, a) >= Pow2(b) {
      TimesMonotone(Pow2(b), High(v, a), Pow2(a));
    }
  }

  lemma BitAt(v: nat, n: nat, i: nat)
    requires i < n
    ensures BitsOf(v, n)[i] == if i == 0 then v % 2 == 1 else BitsOf(v / 2, n - 1)[i - 1]
  {
  }

  lemma OrHalves(a: nat, b: nat)
    requires a != 0 && b != 0
    ensures Or(a, b) % 2 == 1 <==> a % 2 == 1 || b % 2 == 1
    ensures Or(a, b) / 2 == Or(a / 2, b / 2)
  {
  }

  /** Bitwise OR, bit by bit. */
  lemma {:induction false} OrBits(a: nat, b: nat, n: nat, i: nat)
    requires i < n
    ensures BitsOf(Or(a, b), n)[i] == (BitsOf(a, n)[i] || BitsOf(b, n)[i])
    decreases n
  {
    hide BitsOf, Or;
    if a == 0 || b == 0 {
      ZeroBit(n, i);
      OrZero(a, b);
    } else {
      OrHalves(a, b);
      BitAt(a, n, i);
      BitAt(b, n, i);
      BitAt(Or(a, b), n, i);
      if i > 0 {
        OrBits(a / 2, b / 2, n - 1, i - 1);
      }
    }
  }

  lemma OrZero(a: nat, b: nat)
    requires a == 0 || b == 0
    ensures Or(a, b) == a + b
  {
  }

  lemma {:induction false} ZeroBit(n: nat, i: nat)
    requires i < n
    ensures !BitsOf(0, n)[i]
    decreases n
  {
    BitAt(0, n, i);
    if i > 0 {
      ZeroBit(n - 1, i - 1);
    }
  }

  /** OR with a number shifted past the bits already there is addition. */
  lemma {:induction false} OrAbove(low: nat, v: nat, k: nat)
    requires low < Pow2(k)
    ensures Or(low, v * Pow2(k)) == low + v * Pow2(k)
    decreases k
  {
    if low > 0 && v * Pow2(k) > 0 {
      Halve(0, v, k);
      OrAbove(low / 2, v, k - 1);
    }
  }

  lemma MulMod(v: nat, a: nat, b: nat)
    requires a > 0 && b > 0
    ensures v * a % (b * a) == v % b * a
  {
    var q, r := v / b, v % b;
    assert v == q * b + r;
    assert v * a == (q * b + r) * a == q * b * a + r * a;
    Associates(q, b, a);
    assert r * a < b * a;
    DivUnique(v * a, b * a, q, r * a);
  }

  function Min(a: nat, b: nat): nat {
    if a <= b then a else b
  }

  /** A left shift in a type of `width` bits, converted to a word of `w` bits: above `k` zeros come
      the low bits of `v`, as many as both the type and the word have room for. */
  lemma ShiftIntoWord(v: nat, k: nat, w: nat, width: nat)
    requires k <= w && k <= width
    ensures Low(Low(v * Pow2(k), width), w) == Low(v, Min(w, width) - k) * Pow2(k)
  {
    hide Pow2;
    var m := Min(w, width);
    LowOfLow(v * Pow2(k), width, w);
    Pow2Add(m - k, k);
    MulMod(v, Pow2(k), Pow2(m - k));
  }

  /** Two truncations are the narrower one. */
  lemma LowOfLow(x: nat, a: nat, b: nat)
    ensures Low(Low(x, a), b) == Low(x, Min(a, b))
  {
    hide Pow2;
    if a <= b {
      LowIsSame(Low(x, a), a, b);
    } else {
      Pow2Add(a - b, b);
      ModMod(x, Pow2(b), Pow2(a - b));
    }
  }

  lemma LowIsSame(v: nat, n: nat, w: nat)
    requires v < Pow2(n) && n <= w
    ensures Low(v, w) == v
  {
    Pow2Grows(n, w);
    DivUnique(v, Pow2(w), 0, v);
  }

  lemma {:induction false} Pow2Grows(a: nat, b: nat)
    requires a <= b
    ensures Pow2(a) <= Pow2(b)
    decreases b
  {
    if a < b {
      Pow2Grows(a, b - 1);
    }
  }

  lemma ModMod(x: nat, a: nat, b: nat)
    requires a > 0 && b > 0
    ensures b * a > 0 && x % (b * a) % a == x % a
  {
    AtLeast(b, a);
    var q, r := x / (b * a), x % (b * a);
    assert x == q * (b * a) + r;
    Associates(q, b, a);
    assert r == r / a * a + r % a;
    assert x == (q * b + r / a) * a + r % a by {
      assert (q * b + r / a) * a == q * b * a + r / a * a;
    }
    DivUnique(x, a, q * b + r / a, r % a);
  }
}
