// The raw CRC32C of tools/ext4_image.py (_crc32c_raw): no final inversion, any starting state. Registers and
// words are their bits, least significant first.

module Crc32c {
  import opened Arithmetic
  import opened Bytes

  type Bits = seq<bool>

  // Numbers as bits

  function Zero(n: nat): (r: Bits)
    ensures |r| == n && forall i :: 0 <= i < n ==> !r[i]
  {
    seq(n, _ => false)
  }

  function BitsOf(v: nat, n: nat): (r: Bits)
    ensures |r| == n
    decreases n
  {
    if n == 0 then [] else [v % 2 == 1] + BitsOf(v / 2, n - 1)
  }

  function ValueOf(bits: Bits): (v: nat) {
    if bits == [] then 0 else (if bits[0] then 1 else 0) + 2 * ValueOf(bits[1..])
  }

  function Power(n: nat): (p: nat)
    ensures p > 0
  {
    if n == 0 then 1 else 2 * Power(n - 1)
  }

  lemma {:induction false} ValueOfBits(v: nat, n: nat)
    requires v < Power(n)
    ensures ValueOf(BitsOf(v, n)) == v
    decreases n
  {
    if n > 0 {
      ValueOfBits(v / 2, n - 1);
    }
  }

  lemma {:induction false} BitsOfValue(bits: Bits)
    ensures ValueOf(bits) < Power(|bits|) && BitsOf(ValueOf(bits), |bits|) == bits
    decreases |bits|
  {
    if bits != [] {
      BitsOfValue(bits[1..]);
      var v := ValueOf(bits[1..]);
      assert ValueOf(bits) / 2 == v && (ValueOf(bits) % 2 == 1 <==> bits[0]);
    }
  }

  lemma {:induction false} PowerSum(m: nat, n: nat)
    ensures Power(m + n) == Power(m) * Power(n)
    decreases n
  {
    if n > 0 {
      PowerSum(m, n - 1);
      Doubled(Power(m), Power(n - 1));
    }
  }

  lemma Doubled(a: nat, b: nat)
    ensures a * (2 * b) == 2 * (a * b)
  {
  }

  lemma PowersOfTwo()
    ensures Power(8) == 0x100 && Power(31) == 0x8000_0000 && Power(32) == 0x1_0000_0000
  {
    assert Power(4) == 16;
    PowerSum(4, 4);
    PowerSum(8, 8);
    PowerSum(16, 16);
    assert Power(32) == 2 * Power(31);
  }

  lemma {:induction false} BitAt(v: nat, n: nat, i: nat)
    requires i < n
    ensures BitsOf(v, n)[i] <==> v / Power(i) % 2 == 1
    decreases n
  {
    if i > 0 {
      BitAt(v / 2, n - 1, i - 1);
      DivTwice(v, Power(i - 1));
    }
  }

  lemma DivTwice(v: nat, p: nat)
    requires p > 0
    ensures v / 2 / p == v / (2 * p)
  {
    var (q, r) := (v / 2 / p, v / 2 % p);
    DivMod(v / 2, p);
    assert v == q * (2 * p) + (2 * r + v % 2);
    QuotientIs(2 * p, q, 2 * r + v % 2);
  }

  function ByteBits(b: Byte): (r: Bits)
    ensures |r| == 8
  {
    BitsOf(b, 8)
  }

  function ByteOf(bits: Bits): (b: Byte)
    requires |bits| == 8
    ensures ByteBits(b) == bits
  {
    BitsOfValue(bits);
    PowersOfTwo();
    ValueOf(bits)
  }

  lemma ByteBitsInjective(a: Byte, b: Byte)
    requires ByteBits(a) == ByteBits(b)
    ensures a == b
  {
    PowersOfTwo();
    ValueOfBits(a, 8);
    ValueOfBits(b, 8);
  }

  /** A little-endian 32-bit word of four bytes. */
  function Word(s: seq<Byte>): (w: Bits)
    requires |s| == 4
    ensures |w| == 32
  {
    ByteBits(s[0]) + ByteBits(s[1]) + ByteBits(s[2]) + ByteBits(s[3])
  }

  function WordBytes(w: Bits): (s: seq<Byte>)
    requires |w| == 32
    ensures |s| == 4 && Word(s) == w
  {
    hide ByteBits, ByteOf;
    assert w == w[..8] + w[8..16] + w[16..24] + w[24..];
    [ByteOf(w[..8]), ByteOf(w[8..16]), ByteOf(w[16..24]), ByteOf(w[24..])]
  }

  lemma WordInjective(a: seq<Byte>, b: seq<Byte>)
    requires |a| == |b| == 4 && Word(a) == Word(b)
    ensures a == b
  {
    hide ByteBits;
    var w := Word(a);
    assert w[..8] == ByteBits(a[0]) == ByteBits(b[0]) && w[8..16] == ByteBits(a[1]) == ByteBits(b[1]);
    assert w[16..24] == ByteBits(a[2]) == ByteBits(b[2]) && w[24..] == ByteBits(a[3]) == ByteBits(b[3]);
    ByteBitsInjective(a[0], b[0]);
    ByteBitsInjective(a[1], b[1]);
    ByteBitsInjective(a[2], b[2]);
    ByteBitsInjective(a[3], b[3]);
  }

  // Exclusive or

  function Xor(a: Bits, b: Bits): (r: Bits)
    requires |a| == |b|
    ensures |r| == |a| && forall i :: 0 <= i < |a| ==> r[i] == (a[i] != b[i])
  {
    seq(|a|, i requires 0 <= i < |a| => a[i] != b[i])
  }

  lemma XorCancels(a: Bits, b: Bits, c: Bits)
    requires |a| == |b| == |c| && Xor(a, c) == Xor(b, c)
    ensures a == b
  {
    forall i | 0 <= i < |a|
      ensures a[i] == b[i]
    {
      assert Xor(a, c)[i] == Xor(b, c)[i];
    }
  }

  lemma XorZeroIff(a: Bits, b: Bits)
    requires |a| == |b|
    ensures Xor(a, b) == Zero(|a|) <==> a == b
  {
    if Xor(a, b) == Zero(|a|) {
      forall i | 0 <= i < |a|
        ensures a[i] == b[i]
      {
        assert !Xor(a, b)[i];
      }
    }
  }

  lemma XorAssociates(a: Bits, b: Bits, c: Bits)
    requires |a| == |b| == |c|
    ensures Xor(Xor(a, b), c) == Xor(a, Xor(b, c))
  {
  }

  // The register

  const POLYNOMIAL_VALUE := 0x82F6_3B78

  /** Its top bit is set, which is what makes a step reversible. */
  function Polynomial(): (p: Bits)
    ensures |p| == 32 && p[31]
  {
    hide BitsOf, Power;
    PowersOfTwo();
    BitAt(POLYNOMIAL_VALUE, 32, 31);
    BitsOf(POLYNOMIAL_VALUE, 32)
  }

  /** `crc >> 1`. */
  function Shift(crc: Bits): (r: Bits)
    requires |crc| == 32
    ensures |r| == 32
  {
    crc[1..] + [false]
  }

  function Step(crc: Bits): (r: Bits)
    requires |crc| == 32
    ensures |r| == 32
  {
    Xor(Shift(crc), if crc[0] then Polynomial() else Zero(32))
  }

  /** The polynomial's top bit tells which case was taken, so a step loses nothing. */
  lemma StepInjective(a: Bits, b: Bits)
    requires |a| == |b| == 32 && Step(a) == Step(b)
    ensures a == b
  {
    hide Polynomial;
    var s := Step(a);
    assert s[31] == a[0] && s[31] == b[0];
    forall i | 0 < i < 32
      ensures a[i] == b[i]
    {
      assert Shift(a)[i - 1] == a[i] && Shift(b)[i - 1] == b[i];
      assert s[i - 1] == Step(b)[i - 1];
    }
  }

  lemma StepLinear(a: Bits, b: Bits)
    requires |a| == |b| == 32
    ensures Step(Xor(a, b)) == Xor(Step(a), Step(b))
  {
    hide Polynomial;
  }

  function Steps(crc: Bits, n: nat): (r: Bits)
    requires |crc| == 32
    ensures |r| == 32
  {
    if n == 0 then crc else Step(Steps(crc, n - 1))
  }

  lemma {:induction false} StepsInjective(a: Bits, b: Bits, n: nat)
    requires |a| == |b| == 32 && Steps(a, n) == Steps(b, n)
    ensures a == b
    decreases n
  {
    hide Step;
    if n > 0 {
      StepInjective(Steps(a, n - 1), Steps(b, n - 1));
      StepsInjective(a, b, n - 1);
    }
  }

  lemma {:induction false} StepsLinear(a: Bits, b: Bits, n: nat)
    requires |a| == |b| == 32
    ensures Steps(Xor(a, b), n) == Xor(Steps(a, n), Steps(b, n))
    decreases n
  {
    hide Step, Xor;
    if n > 0 {
      StepsLinear(a, b, n - 1);
      StepLinear(Steps(a, n - 1), Steps(b, n - 1));
    }
  }

  lemma {:induction false} StepsAdd(crc: Bits, m: nat, n: nat)
    requires |crc| == 32
    ensures Steps(Steps(crc, m), n) == Steps(crc, m + n)
    decreases n
  {
    hide Step;
    if n > 0 {
      StepsAdd(crc, m, n - 1);
    }
  }

  /** Bits that have not reached the low end only move down. */
  lemma {:induction false} StepsShift(crc: Bits, n: nat)
    requires |crc| == 32 && n <= 32 && crc[..n] == Zero(n)
    ensures Steps(crc, n) == crc[n..] + Zero(n)
    decreases n
  {
    hide Step;
    if n > 0 {
      assert crc[..n - 1] == Zero(n - 1) by {
        assert crc[..n][..n - 1] == crc[..n - 1];
      }
      StepsShift(crc, n - 1);
      var before := crc[n - 1..] + Zero(n - 1);
      assert !before[0] by { assert crc[n - 1] == crc[..n][n - 1]; }
      StepShifts(before);
      assert before[1..] + [false] == crc[n..] + Zero(n);
    }
  }

  lemma StepShifts(crc: Bits)
    requires |crc| == 32 && !crc[0]
    ensures Step(crc) == crc[1..] + [false]
  {
    assert Shift(crc) == crc[1..] + [false];
  }

  // Messages

  /** `crc ^= value`, then eight steps. */
  function Feed(crc: Bits, b: Byte): (r: Bits)
    requires |crc| == 32
    ensures |r| == 32
  {
    Steps(Xor(crc, ByteBits(b) + Zero(24)), 8)
  }

  function Crc(data: seq<Byte>, seed: Bits): (r: Bits)
    requires |seed| == 32
    ensures |r| == 32
  {
    if data == [] then seed else Feed(Crc(data[..|data| - 1], seed), data[|data| - 1])
  }

  function Ones(): (r: Bits)
    ensures |r| == 32
  {
    seq(32, _ => true)
  }

  /** The source's nested loops. */
  method Crc32cRaw(data: seq<Byte>, seed: Bits) returns (crc: Bits)
    requires |seed| == 32
    ensures crc == Crc(data, seed)
  {
    hide Xor, ByteBits, Zero, Shift;
    crc := seed;
    for i := 0 to |data|
      invariant |crc| == 32 && crc == Crc(data[..i], seed)
    {
      assert data[..i + 1][..i] == data[..i];
      crc := Xor(crc, ByteBits(data[i]) + Zero(24));
      ghost var start := crc;
      for k := 0 to 8
        invariant |crc| == 32 && crc == Steps(start, k)
      {
        crc := Xor(Shift(crc), if crc[0] then Polynomial() else Zero(32));
      }
    }
    assert data[..|data|] == data;
  }

  lemma FeedInjective(a: Bits, b: Bits, x: Byte)
    requires |a| == |b| == 32 && Feed(a, x) == Feed(b, x)
    ensures a == b
  {
    hide Steps, Xor, ByteBits;
    var w := ByteBits(x) + Zero(24);
    StepsInjective(Xor(a, w), Xor(b, w), 8);
    XorCancels(a, b, w);
  }

  lemma {:induction false} CrcSplits(a: seq<Byte>, b: seq<Byte>, seed: Bits)
    requires |seed| == 32
    ensures Crc(a + b, seed) == Crc(b, Crc(a, seed))
    decreases |b|
  {
    hide Feed;
    if b == [] {
      assert a + b == a;
    } else {
      var n := |b| - 1;
      CrcSplits(a, b[..n], seed);
      assert (a + b)[..|a| + n] == a + b[..n];
    }
  }

  /** For a fixed message the result determines the seed. */
  lemma {:induction false} SeedInjective(data: seq<Byte>, a: Bits, b: Bits)
    requires |a| == |b| == 32 && Crc(data, a) == Crc(data, b)
    ensures a == b
    decreases |data|
  {
    hide Feed;
    if data != [] {
      var n := |data| - 1;
      FeedInjective(Crc(data[..n], a), Crc(data[..n], b), data[n]);
      SeedInjective(data[..n], a, b);
    }
  }

  // Four bytes at once

  /** Feeding a byte and then a pending word is feeding both: the pending bits move down meanwhile. */
  lemma FeedPending(crc: Bits, b: Byte, rest: Bits)
    requires |crc| == 32 && |rest| == 24
    ensures Steps(Xor(crc, ByteBits(b) + rest), 8) == Xor(Feed(crc, b), rest + Zero(8))
  {
    hide Steps, ByteBits;
    var low, high := ByteBits(b) + Zero(24), Zero(8) + rest;
    assert ByteBits(b) + rest == Xor(low, high);
    XorAssociates(crc, low, high);
    StepsLinear(Xor(crc, low), high, 8);
    assert high[..8] == Zero(8) && high[8..] == rest;
    StepsShift(high, 8);
  }

  /** Feeding four bytes is feeding their word. */
  lemma CrcOfFour(data: seq<Byte>, seed: Bits)
    requires |data| == 4 && |seed| == 32
    ensures Crc(data, seed) == Steps(Xor(seed, Word(data)), 32)
  {
    hide Steps, Xor, ByteBits, Crc, Zero;
    var (b0, b1, b2, b3) := (ByteBits(data[0]), ByteBits(data[1]), ByteBits(data[2]), ByteBits(data[3]));
    var (r1, r2, r3) := (b1 + b2 + b3, b2 + b3 + Zero(8), b3 + Zero(16));
    var (c1, c2, c3) := (Feed(seed, data[0]), Feed(Feed(seed, data[0]), data[1]), Feed(Feed(Feed(seed, data[0]), data[1]), data[2]));
    assert Word(data) == b0 + r1;
    FeedPending(seed, data[0], r1);
    assert r1 + Zero(8) == b1 + r2;
    FeedPending(c1, data[1], r2);
    ZerosJoin();
    assert r2 + Zero(8) == b2 + r3;
    FeedPending(c2, data[2], r3);
    assert r3 + Zero(8) == b3 + Zero(24);
    StepsAdd(Xor(seed, Word(data)), 8, 8);
    StepsAdd(Xor(seed, Word(data)), 16, 8);
    StepsAdd(Xor(seed, Word(data)), 24, 8);
    UnrollFour(data, seed);
  }

  lemma ZerosJoin()
    ensures Zero(8) + Zero(8) == Zero(16) && Zero(16) + Zero(8) == Zero(24)
  {
  }

  lemma UnrollFour(data: seq<Byte>, seed: Bits)
    requires |data| == 4 && |seed| == 32
    ensures Crc(data, seed) == Feed(Feed(Feed(Feed(seed, data[0]), data[1]), data[2]), data[3])
  {
    hide Feed;
    var (d3, d2, d1) := (data[..3], data[..2], data[..1]);
    assert d3[..2] == d2 && d2[..1] == d1 && d1[..0] == [];
    assert Crc(d1, seed) == Feed(seed, data[0]);
    assert Crc(d2, seed) == Feed(Crc(d1, seed), data[1]);
    assert Crc(d3, seed) == Feed(Crc(d2, seed), data[2]);
  }

  lemma FourBytesInjective(a: seq<Byte>, b: seq<Byte>, seed: Bits)
    requires |a| == |b| == 4 && |seed| == 32 && Crc(a, seed) == Crc(b, seed)
    ensures a == b
  {
    hide Crc, Steps, Xor, Word;
    CrcOfFour(a, seed);
    CrcOfFour(b, seed);
    StepsInjective(Xor(seed, Word(a)), Xor(seed, Word(b)), 32);
    XorCommutes(seed, Word(a));
    XorCommutes(seed, Word(b));
    XorCancels(Word(a), Word(b), seed);
    WordInjective(a, b);
  }

  lemma XorCommutes(a: Bits, b: Bits)
    requires |a| == |b|
    ensures Xor(a, b) == Xor(b, a)
  {
  }

  /** Up to four bytes are determined by what they do to the register. */
  lemma FewBytesInjective(a: seq<Byte>, b: seq<Byte>, seed: Bits)
    requires |a| == |b| <= 4 && |seed| == 32 && Crc(a, seed) == Crc(b, seed)
    ensures a == b
  {
    hide Crc;
    var pad := Zeros(4 - |a|);
    CrcSplits(a, pad, seed);
    CrcSplits(b, pad, seed);
    FourBytesInjective(a + pad, b + pad, seed);
    assert a == (a + pad)[..|a|] && b == (b + pad)[..|a|];
  }

  /** In a message of any length, a change confined to four consecutive bytes always changes the result. */
  lemma BurstDetected(before: seq<Byte>, a: seq<Byte>, b: seq<Byte>, after: seq<Byte>, seed: Bits)
    requires |a| == |b| <= 4 && a != b && |seed| == 32
    ensures Crc(before + a + after, seed) != Crc(before + b + after, seed)
  {
    hide Crc;
    var c := Crc(before, seed);
    CrcSplits(before + a, after, seed);
    CrcSplits(before + b, after, seed);
    CrcSplits(before, a, seed);
    CrcSplits(before, b, seed);
    if Crc(after, Crc(a, c)) == Crc(after, Crc(b, c)) {
      SeedInjective(after, Crc(a, c), Crc(b, c));
      FewBytesInjective(a, b, c);
    }
  }

  /** In particular, equal-length messages that differ in one byte have different results. */
  lemma SingleByteDetected(data: seq<Byte>, at: nat, value: Byte, seed: Bits)
    requires at < |data| && data[at] != value && |seed| == 32
    ensures Crc(data[at := value], seed) != Crc(data, seed)
  {
    hide Crc;
    var (before, after) := (data[..at], data[at + 1..]);
    BurstDetected(before, [data[at]], [value], after, seed);
    assert data == before + [data[at]] + after && data[at := value] == before + [value] + after;
  }

  /** A message followed by its own checksum leaves zero, and only its own checksum does. */
  lemma ResidueIff(data: seq<Byte>, stored: seq<Byte>, seed: Bits)
    requires |stored| == 4 && |seed| == 32
    ensures Crc(data + stored, seed) == Zero(32) <==> Word(stored) == Crc(data, seed)
  {
    hide Crc, Steps, Xor, Word, Zero;
    CrcSplits(data, stored, seed);
    var c := Crc(data, seed);
    var x := Xor(c, Word(stored));
    CrcOfFour(stored, c);
    ZeroStays(32);
    if Steps(x, 32) == Zero(32) {
      StepsInjective(x, Zero(32), 32);
    }
    XorZeroIff(c, Word(stored));
  }

  lemma {:induction false} ZeroStays(n: nat)
    ensures Steps(Zero(32), n) == Zero(32)
    decreases n
  {
    hide Step;
    if n > 0 {
      ZeroStays(n - 1);
      ZeroStep();
    }
  }

  lemma ZeroStep()
    ensures Step(Zero(32)) == Zero(32)
  {
  }
}
