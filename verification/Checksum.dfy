/**
 * `ChecksumCalculator` and its use for UDP packets (udp4.h): the internet checksum of RFC 1071,
 * sections 1 and 2, in a 32-bit accumulator on a little-endian host.
 */
module Checksum {
  import opened Arithmetic
  import opened Bytes

  const WRAP: nat := 0x1_0000_0000

  /** `uint32_t` */
  type u32 = x: int | 0 <= x < 0x1_0000_0000

  /** The sum of the 16-bit words of the data, an odd last byte counting as a word with a zero. */
  function WordSum(d: seq<byte>): nat {
    if d == [] then 0
    else if |d| == 1 then d[0]
    else d[0] as int + 256 * d[1] as int + WordSum(d[2..])
  }

  /** End-around carry: the 16-bit number that the one's complement sum comes to. */
  function Fold(s: nat): (r: nat)
    ensures r <= 0xFFFF
  {
    if s <= 0xFFFF then s else Fold(s / 0x1_0000 + s % 0x1_0000)
  }

  /** Words that `add` reads for a length of `l`: its loop runs at least once. */
  function WordsRead(l: nat): nat {
    if l / 2 == 0 then 1 else l / 2
  }

  function BytesRead(l: nat): (r: nat)
    ensures r >= l
  {
    2 * WordsRead(l) + l % 2
  }

  /** The 16-bit word that the host loads from address `i`. */
  function Load(mem: seq<byte>, i: nat): u16
    requires i + 1 < |mem|
  {
    mem[i] as int + 256 * mem[i + 1] as int
  }

  function Plus32(s: u32, n: nat): u32 {
    (s + n) % WRAP
  }

  lemma Plus32Plus(s: u32, m: nat, n: nat)
    ensures Plus32(Plus32(s, m), n) == Plus32(s, m + n)
  {
  }

  class ChecksumCalculator {
    var sum: u32

    constructor ()
      ensures sum == 0
    {
      sum := 0;
    }

    /** Adds `l` bytes of `mem`, which goes on after them. */
    method Add(mem: seq<byte>, l: nat)
      requires BytesRead(l) <= |mem|
      modifies this
      ensures sum == Plus32(old(sum), WordSum(mem[..BytesRead(l)]))
    {
      hide Plus32, WordSum;
      ghost var start := sum;
      var buf, bufE := 0, l / 2;
      WordSumStep(mem, 0);
      sum := Plus32(sum, Load(mem, 0));
      buf := 1;
      while buf < bufE
        invariant 1 <= buf <= WordsRead(l)
        invariant sum == Plus32(start, WordSum(mem[..2 * buf]))
      {
        WordSumStep(mem, 2 * buf);
        Plus32Plus(start, WordSum(mem[..2 * buf]), Load(mem, 2 * buf));
        sum := Plus32(sum, Load(mem, 2 * buf));
        buf := buf + 1;
      }
      if l % 2 == 1 {
        WordSumOdd(mem, 2 * buf);
        Plus32Plus(start, WordSum(mem[..2 * buf]), mem[2 * buf]);
        sum := Plus32(sum, mem[2 * buf]);
      }
    }

    /** Folds the sum and returns its complement. */
    method Finish() returns (check: u16)
      modifies this
      ensures sum == Fold(old(sum)) && check == 0xFFFF - sum
    {
      while sum > 0xFFFF
        invariant Fold(sum) == Fold(old(sum))
      {
        sum := sum / 0x1_0000 + sum % 0x1_0000;
      }
      check := 0xFFFF - sum;
    }
  }

  /** Data of even length is summed separately from what follows: regrouping changes nothing. */
  lemma {:induction false} WordSumAppend(a: seq<byte>, b: seq<byte>)
    requires |a| % 2 == 0
    ensures WordSum(a + b) == WordSum(a) + WordSum(b)
    decreases |a|
  {
    if a == [] {
      assert a + b == b;
    } else {
      assert (a + b)[2..] == a[2..] + b;
      WordSumAppend(a[2..], b);
    }
  }

  lemma WordSumStep(mem: seq<byte>, i: nat)
    requires i % 2 == 0 && i + 2 <= |mem|
    ensures WordSum(mem[..0]) == 0
    ensures WordSum(mem[..i + 2]) == WordSum(mem[..i]) + Load(mem, i)
  {
    var word := [mem[i], mem[i + 1]];
    assert mem[..i + 2] == mem[..i] + word;
    WordSumAppend(mem[..i], word);
    assert word[2..] == [];
  }

  lemma WordSumOdd(mem: seq<byte>, i: nat)
    requires i % 2 == 0 && i < |mem|
    ensures WordSum(mem[..i + 1]) == WordSum(mem[..i]) + mem[i]
  {
    assert mem[..i + 1] == mem[..i] + [mem[i]];
    WordSumAppend(mem[..i], [mem[i]]);
  }

  /**
   * A length of at least two is what the sum of exactly those bytes needs, whatever follows them in
   * memory; for a length of 0 or 1 the loop has already taken a whole word.
   */
  lemma ReadsItsBytesExactlyWhen(l: nat)
    ensures (forall mem: seq<byte> | |mem| >= BytesRead(l) ::
               WordSum(mem[..BytesRead(l)]) == WordSum(mem[..l])) <==> l >= 2
  {
    if l < 2 {
      var mem: seq<byte> := [0, 1, 0];
      assert mem[..BytesRead(l)][2..] == if l == 0 then [] else [0];
      assert WordSum(mem[..BytesRead(l)]) != WordSum(mem[..l]);
    }
  }

  /** What folding computes: zero only for zero, otherwise the residue in 1 to 65535. */
  lemma {:induction false} FoldIs(s: nat)
    ensures Fold(s) == if s == 0 then 0 else 1 + (s - 1) % 0xFFFF
  {
    if s > 0xFFFF {
      var t := s / 0x1_0000 + s % 0x1_0000;
      assert s - 1 == (t - 1) + 0xFFFF * (s / 0x1_0000);
      FoldIs(t);
    }
  }

  lemma FoldIsOnesExactlyWhen(s: nat)
    ensures Fold(s) == 0xFFFF <==> s > 0 && s % 0xFFFF == 0
  {
    hide Fold;
    FoldIs(s);
    assert s > 0 ==> s == (s - 1) + 1;
  }

  /** A sum and its checksum cancel. */
  lemma ComplementCancels(s: nat)
    ensures (s + (0xFFFF - Fold(s))) % 0xFFFF == 0
  {
    hide Fold;
    FoldIs(s);
    if s > 0 {
      var q, r := (s - 1) / 0xFFFF, (s - 1) % 0xFFFF;
      assert s + (0xFFFF - (1 + r)) == 0xFFFF * (q + 1);
    }
  }

  /** A sum and its checksum come to all ones, which is what the receiver looks for. */
  lemma ComplementAddsToOnes(s: nat)
    ensures Fold(s + (0xFFFF - Fold(s))) == 0xFFFF
  {
    hide Fold;
    ComplementCancels(s);
    FoldIs(s);
    FoldIsOnesExactlyWhen(s + (0xFFFF - Fold(s)));
  }

  lemma {:induction false} WordSumBound(d: seq<byte>)
    ensures WordSum(d) <= 0xFFFF * (|d| / 2) + 255 * (|d| % 2)
    decreases |d|
  {
    if |d| >= 2 {
      WordSumBound(d[2..]);
    }
  }

  function Ones(n: nat): (d: seq<byte>)
    ensures |d| == n
  {
    seq(n, i => 255)
  }

  lemma {:induction false} OnesSum(n: nat)
    ensures WordSum(Ones(n)) == 0xFFFF * (n / 2) + 255 * (n % 2)
  {
    if n >= 2 {
      assert Ones(n)[2..] == Ones(n - 2);
      OnesSum(n - 2);
    }
  }

  /** 65537 words are exactly what 32 bits can hold: one byte more can overflow. */
  lemma NeverWrapsExactlyWhen(n: nat)
    ensures (forall d: seq<byte> | |d| == n :: WordSum(d) < WRAP) <==> n <= 131074
  {
    forall d: seq<byte> | |d| == n
      ensures n <= 131074 ==> WordSum(d) < WRAP
    {
      WordSumBound(d);
    }
    if n > 131074 {
      OnesSum(n);
      assert |Ones(n)| == n && WordSum(Ones(n)) >= WRAP;
    }
  }

  function Flatten(parts: seq<seq<byte>>): seq<byte> {
    if parts == [] then [] else Flatten(parts[..|parts| - 1]) + parts[|parts| - 1]
  }

  /** Parts that can be added one by one: none too short, all but the last of even length. */
  predicate Addable(parts: seq<seq<byte>>) {
    forall i :: 0 <= i < |parts| ==> |parts[i]| >= 2 && (i < |parts| - 1 ==> |parts[i]| % 2 == 0)
  }

  lemma {:induction false} FlattenEven(parts: seq<seq<byte>>)
    requires forall i :: 0 <= i < |parts| ==> |parts[i]| % 2 == 0
    ensures |Flatten(parts)| % 2 == 0
  {
    if parts != [] {
      FlattenEven(parts[..|parts| - 1]);
    }
  }

  lemma FlattenStep(parts: seq<seq<byte>>, i: nat)
    requires i < |parts|
    ensures Flatten(parts[..i + 1]) == Flatten(parts[..i]) + parts[i]
  {
    assert parts[..i + 1][..i] == parts[..i];
  }

  lemma {:induction false} FlattenPrefix(parts: seq<seq<byte>>, k: nat)
    requires k <= |parts|
    ensures |Flatten(parts[..k])| <= |Flatten(parts)|
  {
    if k < |parts| {
      assert parts[..|parts| - 1][..k] == parts[..k];
      FlattenPrefix(parts[..|parts| - 1], k);
    } else {
      assert parts[..k] == parts;
    }
  }

  lemma WordSumNone()
    ensures WordSum([]) == 0
  {
  }

  /** One `add` brings the exact sum from a prefix of the parts to the next. */
  lemma PartAdds(parts: seq<seq<byte>>, i: nat)
    requires i < |parts| && Addable(parts) && |Flatten(parts)| <= 131074
    ensures parts[i][..BytesRead(|parts[i]|)] == parts[i]
    ensures WordSum(Flatten(parts[..i])) < WRAP
    ensures WordSum(Flatten(parts[..i + 1])) == Plus32(WordSum(Flatten(parts[..i])), WordSum(parts[i]))
  {
    hide WordSum, Flatten;
    FlattenStep(parts, i);
    FlattenEven(parts[..i]);
    WordSumAppend(Flatten(parts[..i]), parts[i]);
    FlattenPrefix(parts, i + 1);
    NeverWrapsExactlyWhen(|Flatten(parts[..i + 1])|);
  }

  /**
   * However the data is divided into calls of `add`, the checksum is that of the whole, and within
   * the bound the 32-bit accumulator holds the exact sum.
   */
  method ChecksumOf(parts: seq<seq<byte>>) returns (check: u16)
    requires Addable(parts) && |Flatten(parts)| <= 131074
    ensures check == 0xFFFF - Fold(WordSum(Flatten(parts)))
    ensures Fold(WordSum(Flatten(parts)) + check) == 0xFFFF
  {
    hide WordSum, Fold, Plus32;
    var calculator := new ChecksumCalculator();
    WordSumNone();
    for i := 0 to |parts|
      invariant calculator.sum == WordSum(Flatten(parts[..i]))
    {
      PartAdds(parts, i);
      calculator.Add(parts[i], |parts[i]|);
    }
    assert parts[..|parts|] == parts;
    check := calculator.Finish();
    ComplementAddsToOnes(WordSum(Flatten(parts)));
  }

  /** The two bytes of a `uint16_t` as the host stores it, and as `htons` makes it stored. */
  function HostOrder(v: u16): (r: seq<byte>)
    ensures |r| == 2 && r[0] as int + 256 * r[1] as int == v
  {
    [v % 256, v / 256]
  }

  function NetworkOrder(v: u16): (r: seq<byte>)
    ensures |r| == 2 && 256 * r[0] as int + r[1] as int == v
  {
    [v / 256, v % 256]
  }

  /** Addresses, protocol number and length, which the checksum covers but UDP does not send. */
  function PseudoHeader(saddr: seq<byte>, daddr: seq<byte>, len: seq<byte>): seq<byte> {
    saddr + daddr + NetworkOrder(17) + len
  }

  function UdpHeader(source: seq<byte>, dest: seq<byte>, len: seq<byte>, check: seq<byte>): seq<byte> {
    source + dest + len + check
  }

  /** Where a receiver finds the ports, the length and the checksum, and what it puts in front. */
  lemma HeaderLayout(source: seq<byte>, dest: seq<byte>, len: seq<byte>, check: seq<byte>)
    requires |source| == 2 && |dest| == 2 && |len| == 2 && |check| == 2
    ensures var h := UdpHeader(source, dest, len, check);
            |h| == 8 && h[..2] == source && h[2..4] == dest && h[4..6] == len && h[6..] == check
    ensures forall saddr, daddr :: PseudoHeader(saddr, daddr, len) == saddr + daddr + [0, 17] + len
  {
  }

  /** The receiver's test of section 1 of RFC 1071: everything, the checksum included, sums to ones. */
  predicate Accepted(pseudo: seq<byte>, datagram: seq<byte>) {
    Fold(WordSum(pseudo + datagram)) == 0xFFFF
  }

  /** Filling the zero checksum field at an even offset adds its value to the sum. */
  lemma FieldAdds(before: seq<byte>, check: u16, after: seq<byte>)
    requires |before| % 2 == 0
    ensures WordSum(before + HostOrder(check) + after) == WordSum(before) + check + WordSum(after)
    ensures WordSum(before + [0, 0] + after) == WordSum(before) + WordSum(after)
  {
    var field, zero := HostOrder(check), [0, 0];
    assert field[2..] == [] && zero[2..] == [];
    WordSumAppend(before, field);
    WordSumAppend(before + field, after);
    WordSumAppend(before, zero);
    WordSumAppend(before + zero, after);
  }

  /** The sum over a datagram with its checksum field filled in, part by part. */
  lemma DatagramSum(saddr: seq<byte>, daddr: seq<byte>, source: seq<byte>, dest: seq<byte>, len: seq<byte>,
                    check: u16, data: seq<byte>)
    requires |saddr| == 4 && |daddr| == 4 && |source| == 2 && |dest| == 2 && |len| == 2
    ensures WordSum(PseudoHeader(saddr, daddr, len) + (UdpHeader(source, dest, len, HostOrder(check)) + data)) ==
            WordSum(saddr) + WordSum(daddr) + WordSum(NetworkOrder(17)) + WordSum(len)
            + WordSum(UdpHeader(source, dest, len, [0, 0])) + check + WordSum(data)
    ensures WordSum(NetworkOrder(17)) == 17 * 256
  {
    hide WordSum;
    var pseudo, ports := PseudoHeader(saddr, daddr, len), source + dest + len;
    var header := UdpHeader(source, dest, len, HostOrder(check));
    WordSumAppend(pseudo, header + data);
    WordSumAppend(header, data);
    WordSumAppend(saddr + daddr + NetworkOrder(17), len);
    WordSumAppend(saddr + daddr, NetworkOrder(17));
    WordSumAppend(saddr, daddr);
    FieldAdds(ports, check, []);
    assert ports + HostOrder(check) + [] == header;
    assert ports + [0, 0] + [] == UdpHeader(source, dest, len, [0, 0]);
    WordSumStep(NetworkOrder(17), 0);
    assert NetworkOrder(17)[..2] == NetworkOrder(17);
  }

  /** The `add` of one of the short parts of the headers is exact. */
  lemma AddsPart(sum: u32, d: seq<byte>)
    requires |d| % 2 == 0 && 2 <= |d| <= 8 && sum <= 0xFFFF * (10 - |d| / 2)
    ensures BytesRead(|d|) == |d| && d[..|d|] == d
    ensures Plus32(sum, WordSum(d)) == sum + WordSum(d) <= sum + 0xFFFF * (|d| / 2)
  {
    WordSumBound(d);
  }

  /** Two sums with the same checksum are those that agree modulo 65535. */
  lemma ComplementFits(s: nat, t: nat)
    requires t > 0
    ensures Fold(t + (0xFFFF - Fold(s))) == 0xFFFF <==> (s - t) % 0xFFFF == 0
  {
    hide Fold;
    var check := 0xFFFF - Fold(s);
    ComplementCancels(s);
    FoldIsOnesExactlyWhen(t + check);
    SameResidue(s + check, t + check);
  }

  lemma SameResidue(a: nat, b: nat)
    requires a % 0xFFFF == 0
    ensures b % 0xFFFF == 0 <==> (a - b) % 0xFFFF == 0
  {
    var q := a / 0xFFFF;
    assert a - b == 0xFFFF * q - b;
  }

  /** Each wrap of the 32-bit sum takes off 2^32, which is 1 modulo 65535. */
  lemma WrapResidue(s: nat, t: nat)
    ensures (s % WRAP - t) % 0xFFFF == (s - s / WRAP - t) % 0xFFFF
  {
    var q := s / WRAP;
    SameModulo(s % WRAP - t, 0x1_0001 * q);
    assert s % WRAP - t + 0xFFFF * (0x1_0001 * q) == s - q - t;
  }

  lemma SameModulo(x: int, k: int)
    ensures (x + 0xFFFF * k) % 0xFFFF == x % 0xFFFF
  {
  }

  /** The sum that `send_packet` makes without wrapping: its checksum field is still zero, and the
      payload is what `add` reads. */
  function Covered(saddr: seq<byte>, daddr: seq<byte>, source: seq<byte>, dest: seq<byte>, len: seq<byte>,
                   read: seq<byte>): nat
  {
    WordSum(PseudoHeader(saddr, daddr, len) + (UdpHeader(source, dest, len, HostOrder(0)) + read))
  }

  lemma CoveredBelowWrap(saddr: seq<byte>, daddr: seq<byte>, source: seq<byte>, dest: seq<byte>, len: seq<byte>,
                         mem: seq<byte>, l: nat)
    requires |saddr| == 4 && |daddr| == 4 && |source| == 2 && |dest| == 2 && |len| == 2
    requires 2 <= l <= 131054 && BytesRead(l) <= |mem|
    ensures BytesRead(l) == l
    ensures Covered(saddr, daddr, source, dest, len, mem[..BytesRead(l)]) / WRAP == 0
  {
    hide WordSum;
    NeverWrapsExactlyWhen(20 + l);
    var read := mem[..BytesRead(l)];
    var d := PseudoHeader(saddr, daddr, len) + (UdpHeader(source, dest, len, HostOrder(0)) + read);
    assert |d| == 20 + l && WordSum(d) < WRAP;
  }

  /**
   * The checksum part of `send_packet`, for a payload that is the first `l` bytes of `mem`. The
   * receiver accepts the datagram exactly when the bytes `add` read stand for the payload modulo
   * 65535, less one for each time the 32-bit sum wrapped: so for every payload of two bytes or
   * more that cannot make it wrap.
   */
  method SendPacket(saddr: seq<byte>, daddr: seq<byte>, source: seq<byte>, dest: seq<byte>,
                    mem: seq<byte>, l: nat)
    returns (len: seq<byte>, check: u16)
    requires |saddr| == 4 && |daddr| == 4 && |source| == 2 && |dest| == 2
    requires BytesRead(l) <= |mem|
    ensures |len| == 2 && 256 * len[0] as int + len[1] as int == (8 + l) % 0x1_0000
    ensures var wraps := Covered(saddr, daddr, source, dest, len, mem[..BytesRead(l)]) / WRAP;
            Accepted(PseudoHeader(saddr, daddr, len), UdpHeader(source, dest, len, HostOrder(check)) + mem[..l])
            <==> (WordSum(mem[..BytesRead(l)]) - wraps - WordSum(mem[..l])) % 0xFFFF == 0
    ensures 2 <= l <= 131054 ==>
              Accepted(PseudoHeader(saddr, daddr, len), UdpHeader(source, dest, len, HostOrder(check)) + mem[..l])
  {
    hide WordSum, Fold, Plus32, BytesRead, PseudoHeader;
    len := NetworkOrder((8 + l) % 0x1_0000);
    var proto := NetworkOrder(17);
    var udph := UdpHeader(source, dest, len, [0, 0]);
    var calculator := new ChecksumCalculator();
    AddsPart(calculator.sum, saddr);
    calculator.Add(saddr, 4);
    AddsPart(calculator.sum, daddr);
    calculator.Add(daddr, 4);
    AddsPart(calculator.sum, proto);
    calculator.Add(proto, 2);
    AddsPart(calculator.sum, len);
    calculator.Add(len, 2);
    AddsPart(calculator.sum, udph);
    calculator.Add(udph, 8);
    ghost var headers := calculator.sum;
    calculator.Add(mem, l);
    ghost var sum, read := calculator.sum, mem[..BytesRead(l)];
    check := calculator.Finish();
    DatagramSum(saddr, daddr, source, dest, len, check, mem[..l]);
    DatagramSum(saddr, daddr, source, dest, len, 0, read);
    ReceiverSees(headers, read, mem[..l], sum, check);
    if 2 <= l <= 131054 {
      CoveredBelowWrap(saddr, daddr, source, dest, len, mem, l);
    }
  }

  /** What the receiver's sum comes to, from the sum of the headers and of the payload. */
  lemma ReceiverSees(headers: nat, read: seq<byte>, data: seq<byte>, sum: u32, check: u16)
    requires headers > 0 && headers < WRAP && sum == Plus32(headers, WordSum(read)) && check == 0xFFFF - Fold(sum)
    ensures Fold(headers + check + WordSum(data)) == 0xFFFF <==>
            (WordSum(read) - (headers + WordSum(read)) / WRAP - WordSum(data)) % 0xFFFF == 0
  {
    hide WordSum, Fold;
    var t := headers + WordSum(data);
    ComplementFits(sum, t);
    WrapResidue(headers + WordSum(read), t);
  }
}
