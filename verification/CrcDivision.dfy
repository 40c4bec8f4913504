// CRC32C as division of polynomials over GF(2) by the Castagnoli polynomial. A polynomial is the set of exponents
// whose coefficient is one, so addition is symmetric difference.

module CrcDivision {
  import opened Arithmetic
  import opened Bytes
  import opened Crc32c

  type Poly = set<nat>

  ghost function Castagnoli(): (p: Poly)
    ensures 32 in p && forall e :: e in p ==> e <= 32
  {
    {32, 28, 27, 26, 25, 23, 22, 20, 19, 18, 14, 13, 11, 10, 9, 8, 6, 0}
  }

  ghost function Plus(p: Poly, q: Poly): (r: Poly)
    ensures forall e :: e in r <==> (e in p) != (e in q)
  {
    (p - q) + (q - p)
  }

  /** Multiplication by x to the `k`. */
  ghost function Raise(p: Poly, k: nat): (r: Poly)
    ensures forall e :: e in r <==> e >= k && e - k in p
  {
    var r := set e | e in p :: e + k;
    assert forall e: nat | e >= k && e - k in p :: e in r by {
      forall e: nat | e >= k && e - k in p
        ensures e in r
      {
        assert (e - k) + k in r;
      }
    }
    r
  }

  /** Multiplication by the polynomial with these coefficients, constant term first. */
  ghost function Times(q: Bits, p: Poly): (r: Poly) {
    if q == [] then {} else Plus(if q[0] then p else {}, Raise(Times(q[1..], p), 1))
  }

  ghost predicate Multiple(m: Poly) {
    exists q: Bits :: m == Times(q, Castagnoli())
  }

  /** Equal remainders under division by the Castagnoli polynomial. */
  ghost predicate Congruent(p: Poly, q: Poly) {
    Multiple(Plus(p, q))
  }

  /** The polynomial of some bits, highest power first. */
  ghost function PolyOf(bits: Bits): (p: Poly)
    ensures forall e: nat :: e in p <==> e < |bits| && bits[|bits| - 1 - e]
  {
    var p := set i | 0 <= i < |bits| && bits[i] :: |bits| - 1 - i;
    assert forall e: nat | e < |bits| && bits[|bits| - 1 - e] :: e in p by {
      forall e: nat | e < |bits| && bits[|bits| - 1 - e]
        ensures e in p
      {
        var i := |bits| - 1 - e;
        assert |bits| - 1 - i in p;
      }
    }
    p
  }

  /** A message as bits: bytes in order, each from its lowest bit. */
  function DataBits(data: seq<Byte>): (bits: Bits)
    ensures |bits| == 8 * |data|
  {
    if data == [] then [] else DataBits(data[..|data| - 1]) + ByteBits(data[|data| - 1])
  }

  // Multiples are closed under addition and raising

  lemma PlusShuffles(a: Poly, b: Poly, c: Poly, d: Poly)
    ensures Plus(Plus(a, b), Plus(c, d)) == Plus(Plus(a, c), Plus(b, d))
    ensures Plus(a, Plus(b, c)) == Plus(Plus(a, b), c) && Plus(a, b) == Plus(b, a)
    ensures Plus(a, a) == {} && Plus(a, {}) == a
  {
  }

  lemma RaisePlus(a: Poly, b: Poly, k: nat)
    ensures Raise(Plus(a, b), k) == Plus(Raise(a, k), Raise(b, k))
  {
  }

  lemma RaiseTwice(p: Poly, k: nat, m: nat)
    ensures Raise(Raise(p, k), m) == Raise(p, k + m) && Raise(p, 0) == p && Raise({}, k) == {}
  {
  }

  lemma {:induction false} TimesPlus(q: Bits, r: Bits, p: Poly)
    requires |q| == |r|
    ensures Times(Xor(q, r), p) == Plus(Times(q, p), Times(r, p))
    decreases |q|
  {
    if q != [] {
      assert Xor(q, r)[1..] == Xor(q[1..], r[1..]);
      TimesPlus(q[1..], r[1..], p);
      RaisePlus(Times(q[1..], p), Times(r[1..], p), 1);
      PlusShuffles(if q[0] then p else {}, Raise(Times(q[1..], p), 1), if r[0] then p else {}, Raise(Times(r[1..], p), 1));
    } else {
      assert Xor(q, r) == [];
    }
  }

  lemma {:induction false} TimesPadded(q: Bits, n: nat, p: Poly)
    ensures Times(q + Zero(n), p) == Times(q, p)
    decreases |q| + n
  {
    if q != [] {
      assert (q + Zero(n))[1..] == q[1..] + Zero(n);
      TimesPadded(q[1..], n, p);
    } else if n > 0 {
      assert (q + Zero(n))[1..] == q + Zero(n - 1);
      TimesPadded(q, n - 1, p);
      RaiseTwice(p, 1, 0);
    } else {
      assert q + Zero(n) == [];
    }
  }

  lemma MultiplePlus(a: Poly, b: Poly)
    requires Multiple(a) && Multiple(b)
    ensures Multiple(Plus(a, b))
  {
    hide Castagnoli;
    var q: Bits :| a == Times(q, Castagnoli());
    var r: Bits :| b == Times(r, Castagnoli());
    TimesPadded(q, |r|, Castagnoli());
    TimesPadded(r, |q|, Castagnoli());
    TimesPlus(q + Zero(|r|), r + Zero(|q|), Castagnoli());
  }

  lemma TimesX(q: Bits, p: Poly)
    ensures Times([false] + q, p) == Raise(Times(q, p), 1)
  {
    assert ([false] + q)[1..] == q;
  }

  lemma {:induction false} MultipleRaise(a: Poly, k: nat)
    requires Multiple(a)
    ensures Multiple(Raise(a, k))
    decreases k
  {
    hide Castagnoli, Times;
    if k == 0 {
      RaiseTwice(a, 0, 0);
    } else {
      MultipleRaise(a, k - 1);
      var q: Bits :| Raise(a, k - 1) == Times(q, Castagnoli());
      TimesX(q, Castagnoli());
      RaiseTwice(a, k - 1, 1);
    }
  }

  lemma CongruentSame(a: Poly)
    ensures Congruent(a, a)
  {
    hide Castagnoli;
    assert Times([], Castagnoli()) == Plus(a, a);
  }

  lemma CongruentTrans(a: Poly, b: Poly, c: Poly)
    requires Congruent(a, b) && Congruent(b, c)
    ensures Congruent(a, c)
  {
    hide Castagnoli;
    MultiplePlus(Plus(a, b), Plus(b, c));
    assert Plus(Plus(a, b), Plus(b, c)) == Plus(a, c);
  }

  lemma CongruentRaise(a: Poly, b: Poly, k: nat)
    requires Congruent(a, b)
    ensures Congruent(Raise(a, k), Raise(b, k))
  {
    hide Castagnoli;
    MultipleRaise(Plus(a, b), k);
    RaisePlus(a, b, k);
  }

  lemma CongruentPlus(a: Poly, b: Poly, c: Poly)
    requires Congruent(a, b)
    ensures Congruent(Plus(a, c), Plus(b, c))
  {
    hide Castagnoli;
    PlusShuffles(a, c, b, c);
    assert Plus(Plus(a, c), Plus(b, c)) == Plus(a, b);
  }

  // One step multiplies by x

  lemma NextBit(v: nat, n: nat)
    ensures BitsOf(v, n + 1) == [v % 2 == 1] + BitsOf(v / 2, n)
  {
  }

  /** The four low bits. */
  function Digit(v: nat): (b: Bits)
    ensures |b| == 4
  {
    [v % 2 == 1, v / 2 % 2 == 1, v / 4 % 2 == 1, v / 8 % 2 == 1]
  }

  lemma NextDigit(v: nat, n: nat)
    ensures BitsOf(v, n + 4) == Digit(v) + BitsOf(v / 16, n)
  {
    hide BitsOf;
    NextBit(v, n + 3);
    NextBit(v / 2, n + 2);
    NextBit(v / 4, n + 1);
    NextBit(v / 8, n);
    assert v / 2 / 2 == v / 4 && v / 4 / 2 == v / 8 && v / 8 / 2 == v / 16;
  }

  /** The constant of the source, one hexadecimal digit after another. */
  lemma PolynomialBits()
    ensures Polynomial() == Digit(0x8) + Digit(0x7) + Digit(0xB) + Digit(0x3) + Digit(0x6) + Digit(0xF) + Digit(0x2) + Digit(0x8)
  {
    hide BitsOf, Digit;
    LastDigits();
    NextDigit(0x82F6_3B78, 28);
    NextDigit(0x82F6_3B7, 24);
    NextDigit(0x82F6_3B, 20);
    NextDigit(0x82F6_3, 16);
    NextDigit(0x82F6, 12);
    NextDigit(0x82F, 8);
    NextDigit(0x82, 4);
    NextDigit(0x8, 0);
    NoBits();
    Reassociate(Digit(0x8), Digit(0x7), Digit(0xB), Digit(0x3), Digit(0x6), Digit(0xF), Digit(0x2), Digit(0x8));
  }

  lemma LastDigits()
    ensures Digit(0x82F6_3B78) == Digit(0x8) && Digit(0x82F6_3B7) == Digit(0x7) && Digit(0x82F6_3B) == Digit(0xB)
    ensures Digit(0x82F6_3) == Digit(0x3) && Digit(0x82F6) == Digit(0x6) && Digit(0x82F) == Digit(0xF) && Digit(0x82) == Digit(0x2)
  {
  }

  lemma Reassociate(a: Bits, b: Bits, c: Bits, d: Bits, e: Bits, f: Bits, g: Bits, h: Bits)
    ensures a + (b + (c + (d + (e + (f + (g + (h + []))))))) == a + b + c + d + e + f + g + h
  {
  }

  lemma JoinedAt(a: Bits, b: Bits, c: Bits, d: Bits, e: Bits, f: Bits, g: Bits, h: Bits, i: nat)
    requires |a| == |b| == |c| == |d| == |e| == |f| == |g| == |h| == 4 && i < 32
    ensures (a + b + c + d + e + f + g + h)[i] == [a, b, c, d, e, f, g, h][i / 4][i % 4]
  {
  }

  lemma NoBits()
    ensures BitsOf(0, 0) == []
  {
  }

  /** It is the Castagnoli polynomial without its leading term. */
  lemma PolynomialIs(e: nat)
    ensures e in PolyOf(Polynomial()) <==> e in Castagnoli() && e != 32
  {
    hide Polynomial, Castagnoli, Digit;
    PolynomialBits();
    var p := Polynomial();
    assert e in PolyOf(p) <==> e < 32 && p[31 - e];
    if e < 32 {
      JoinedAt(Digit(0x8), Digit(0x7), Digit(0xB), Digit(0x3), Digit(0x6), Digit(0xF), Digit(0x2), Digit(0x8), 31 - e);
      Exponents(e);
    }
  }

  lemma Exponents(e: nat)
    requires e < 32
    ensures var i := 31 - e;
            var digits := [Digit(0x8), Digit(0x7), Digit(0xB), Digit(0x3), Digit(0x6), Digit(0xF), Digit(0x2), Digit(0x8)];
            digits[i / 4][i % 4] <==> e in Castagnoli()
  {
  }

  lemma StepMultiplies(crc: Bits)
    requires |crc| == 32
    ensures Congruent(PolyOf(Step(crc)), Raise(PolyOf(crc), 1))
  {
    hide PolyOf, Polynomial, Castagnoli;
    var (a, b) := (PolyOf(Step(crc)), Raise(PolyOf(crc), 1));
    var sum := Plus(a, b);
    forall e: nat
      ensures e in sum <==> crc[0] && e in Castagnoli()
    {
      StepBit(crc, e);
    }
    RaiseTwice(Castagnoli(), 1, 0);
    if crc[0] {
      assert [true][1..] == [];
      assert Times([true], Castagnoli()) == Castagnoli();
      assert sum == Castagnoli();
    } else {
      assert sum == Times([], Castagnoli());
    }
  }

  lemma StepBit(crc: Bits, e: nat)
    requires |crc| == 32
    ensures (e in PolyOf(Step(crc))) != (e in Raise(PolyOf(crc), 1)) <==> crc[0] && e in Castagnoli()
  {
    hide Polynomial, Castagnoli;
    var p := Polynomial();
    PolynomialIs(e);
    assert e in PolyOf(p) <==> e < 32 && p[31 - e];
    if e < 32 {
      assert Step(crc)[31 - e] == (Shift(crc)[31 - e] != (crc[0] && p[31 - e]));
      assert e > 0 ==> Shift(crc)[31 - e] == crc[31 - (e - 1)];
    }
  }

  lemma {:induction false} StepsMultiply(crc: Bits, n: nat)
    requires |crc| == 32
    ensures Congruent(PolyOf(Steps(crc, n)), Raise(PolyOf(crc), n))
    decreases n
  {
    hide Step, PolyOf, Congruent;
    if n == 0 {
      RaiseTwice(PolyOf(crc), 0, 0);
      CongruentSame(PolyOf(crc));
    } else {
      StepsMultiply(crc, n - 1);
      var before := Steps(crc, n - 1);
      StepMultiplies(before);
      CongruentRaise(PolyOf(before), Raise(PolyOf(crc), n - 1), 1);
      RaiseTwice(PolyOf(crc), n - 1, 1);
      CongruentTrans(PolyOf(Steps(crc, n)), Raise(PolyOf(before), 1), Raise(PolyOf(crc), n));
    }
  }

  // Messages

  lemma PolyPlus(a: Bits, b: Bits)
    requires |a| == |b|
    ensures PolyOf(Xor(a, b)) == Plus(PolyOf(a), PolyOf(b))
  {
  }

  lemma PolyAppend(a: Bits, b: Bits)
    ensures PolyOf(a + b) == Plus(Raise(PolyOf(a), |b|), PolyOf(b))
  {
    forall e: nat
      ensures e in PolyOf(a + b) <==> e in Plus(Raise(PolyOf(a), |b|), PolyOf(b))
    {
    }
  }

  lemma PolyZero(n: nat)
    ensures PolyOf(Zero(n)) == {}
  {
  }

  /** What feeding a byte does: the register and the byte above it, moved up eight places. */
  lemma FeedMultiplies(crc: Bits, b: Byte)
    requires |crc| == 32
    ensures Congruent(PolyOf(Feed(crc, b)), Plus(Raise(PolyOf(crc), 8), Raise(PolyOf(ByteBits(b)), 32)))
  {
    hide Steps, PolyOf, Congruent, ByteBits, Xor;
    var low := ByteBits(b) + Zero(24);
    PolyAppend(ByteBits(b), Zero(24));
    PolyZero(24);
    PolyPlus(crc, low);
    StepsMultiply(Xor(crc, low), 8);
    PlusShuffles(Raise(PolyOf(ByteBits(b)), 24), {}, {}, {});
    RaisePlus(PolyOf(crc), PolyOf(low), 8);
    RaiseTwice(PolyOf(ByteBits(b)), 24, 8);
  }

  /** The dividend: the seed above the message, and the message moved up to make room for the remainder. */
  ghost function Dividend(data: seq<Byte>, seed: Bits): (p: Poly) {
    Plus(Raise(PolyOf(seed), 8 * |data|), Raise(PolyOf(DataBits(data)), 32))
  }

  lemma {:induction false} CrcCongruent(data: seq<Byte>, seed: Bits)
    requires |seed| == 32
    ensures Congruent(PolyOf(Crc(data, seed)), Dividend(data, seed))
    decreases |data|
  {
    hide Feed, PolyOf, Congruent, ByteBits;
    if data == [] {
      assert DataBits(data) == Zero(0);
      PolyZero(0);
      RaiseTwice(PolyOf(seed), 0, 0);
      RaiseTwice({}, 32, 0);
      CongruentSame(PolyOf(seed));
      assert Dividend(data, seed) == PolyOf(seed);
    } else {
      var (init, b) := (data[..|data| - 1], data[|data| - 1]);
      CrcCongruent(init, seed);
      var crc := Crc(init, seed);
      FeedMultiplies(crc, b);
      var byte := Raise(PolyOf(ByteBits(b)), 32);
      CongruentRaise(PolyOf(crc), Dividend(init, seed), 8);
      CongruentPlus(Raise(PolyOf(crc), 8), Raise(Dividend(init, seed), 8), byte);
      DividendStep(init, b, seed);
      assert data == init + [b];
      CongruentTrans(PolyOf(Feed(crc, b)), Plus(Raise(PolyOf(crc), 8), byte), Dividend(data, seed));
    }
  }

  lemma DividendStep(init: seq<Byte>, b: Byte, seed: Bits)
    requires |seed| == 32
    ensures Dividend(init + [b], seed) == Plus(Raise(Dividend(init, seed), 8), Raise(PolyOf(ByteBits(b)), 32))
  {
    hide PolyOf, ByteBits;
    var data := init + [b];
    assert data[..|init|] == init;
    var (s, d, y) := (PolyOf(seed), PolyOf(DataBits(init)), PolyOf(ByteBits(b)));
    PolyAppend(DataBits(init), ByteBits(b));
    RaisePlus(Raise(d, 8), y, 32);
    RaiseTwice(d, 8, 32);
    RaiseTwice(d, 32, 8);
    RaiseTwice(s, 8 * |init|, 8);
    RaisePlus(Raise(s, 8 * |init|), Raise(d, 32), 8);
    PlusShuffles(Raise(s, 8 * |data|), Raise(d, 40), Raise(y, 32), {});
  }

  // Remainders are unique

  lemma {:induction false} TopTerm(q: Bits)
    requires q != [] && q[|q| - 1]
    ensures |q| + 31 in Times(q, Castagnoli())
    decreases |q|
  {
    hide Castagnoli, Times;
    TimesTerm(q, Castagnoli(), |q| + 31);
    if |q| == 1 {
      NoTerms(Castagnoli());
      assert q[1..] == [];
    } else {
      TopTerm(q[1..]);
    }
  }

  lemma TimesTerm(q: Bits, p: Poly, e: nat)
    requires q != []
    ensures e in Times(q, p) <==> (q[0] && e in p) != (e >= 1 && e - 1 in Times(q[1..], p))
  {
  }

  lemma NoTerms(p: Poly)
    ensures Times([], p) == {}
  {
  }

  lemma {:induction false} LowMultiple(q: Bits)
    requires forall e :: e in Times(q, Castagnoli()) ==> e < 32
    ensures Times(q, Castagnoli()) == {}
    decreases |q|
  {
    hide Castagnoli;
    if q != [] {
      if q[|q| - 1] {
        TopTerm(q);
      } else {
        var n := |q| - 1;
        assert q == q[..n] + Zero(1);
        TimesPadded(q[..n], 1, Castagnoli());
        LowMultiple(q[..n]);
      }
    }
  }

  lemma RemainderUnique(a: Bits, b: Bits)
    requires |a| == |b| == 32 && Congruent(PolyOf(a), PolyOf(b))
    ensures a == b
  {
    hide Castagnoli;
    var q: Bits :| Plus(PolyOf(a), PolyOf(b)) == Times(q, Castagnoli());
    LowMultiple(q);
    forall i | 0 <= i < 32
      ensures a[i] == b[i]
    {
      assert 31 - i in PolyOf(a) <==> a[i];
      assert 31 - i in PolyOf(b) <==> b[i];
      assert 31 - i !in Plus(PolyOf(a), PolyOf(b));
    }
  }

  /** The register is the remainder: for every message and seed it is the one polynomial of degree below 32 that
      differs from the seeded message by a multiple of the Castagnoli polynomial. */
  lemma CrcIsRemainder(data: seq<Byte>, seed: Bits, r: Bits)
    requires |seed| == 32 && |r| == 32
    ensures r == Crc(data, seed) <==> Congruent(PolyOf(r), Dividend(data, seed))
  {
    hide Crc, PolyOf, Congruent, Dividend;
    CrcCongruent(data, seed);
    if Congruent(PolyOf(r), Dividend(data, seed)) {
      CongruentSwap(PolyOf(Crc(data, seed)), Dividend(data, seed));
      CongruentTrans(PolyOf(r), Dividend(data, seed), PolyOf(Crc(data, seed)));
      RemainderUnique(r, Crc(data, seed));
    }
  }

  lemma CongruentSwap(a: Poly, b: Poly)
    requires Congruent(a, b)
    ensures Congruent(b, a)
  {
    hide Castagnoli;
    PlusShuffles(a, b, {}, {});
  }
}
