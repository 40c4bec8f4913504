// Known answers of the register (tools/ext4_image.py, _crc32c_raw), computed one hexadecimal digit at a time.

module CrcAnswers {
  import opened Bytes
  import opened Crc32c
  import D = CrcDivision

  datatype Hex = Hex(b0: bool, b1: bool, b2: bool, b3: bool)

  /** Eight digits, the lowest first. */
  datatype Register = Register(d0: Hex, d1: Hex, d2: Hex, d3: Hex, d4: Hex, d5: Hex, d6: Hex, d7: Hex)

  const H0 := Hex(false, false, false, false)
  const H1 := Hex(true, false, false, false)
  const H2 := Hex(false, true, false, false)
  const H3 := Hex(true, true, false, false)
  const H4 := Hex(false, false, true, false)
  const H5 := Hex(true, false, true, false)
  const H6 := Hex(false, true, true, false)
  const H7 := Hex(true, true, true, false)
  const H8 := Hex(false, false, false, true)
  const H9 := Hex(true, false, false, true)
  const HA := Hex(false, true, false, true)
  const HB := Hex(true, true, false, true)
  const HC := Hex(false, false, true, true)
  const HD := Hex(true, false, true, true)
  const HE := Hex(false, true, true, true)
  const HF := Hex(true, true, true, true)

  /** A number by its hexadecimal digits, the highest first. */
  function Number(h7: Hex, h6: Hex, h5: Hex, h4: Hex, h3: Hex, h2: Hex, h1: Hex, h0: Hex): (r: Register) {
    Register(h0, h1, h2, h3, h4, h5, h6, h7)
  }

  function HexBits(d: Hex): (b: Bits)
    ensures |b| == 4
  {
    [d.b0, d.b1, d.b2, d.b3]
  }

  function BitsIn(r: Register): (b: Bits)
    ensures |b| == 32
  {
    HexBits(r.d0) + HexBits(r.d1) + HexBits(r.d2) + HexBits(r.d3) + HexBits(r.d4) + HexBits(r.d5) + HexBits(r.d6) + HexBits(r.d7)
  }

  function Sum(a: Hex, b: Hex): (r: Hex) {
    Hex(a.b0 != b.b0, a.b1 != b.b1, a.b2 != b.b2, a.b3 != b.b3)
  }

  function Added(r: Register, s: Register): (t: Register) {
    Register(Sum(r.d0, s.d0), Sum(r.d1, s.d1), Sum(r.d2, s.d2), Sum(r.d3, s.d3), Sum(r.d4, s.d4), Sum(r.d5, s.d5),
             Sum(r.d6, s.d6), Sum(r.d7, s.d7))
  }

  /** Four steps at once: the digit that falls out adds a fixed number for each of its bits. */
  function Quarter(r: Register): (s: Register) {
    var s := Register(r.d1, r.d2, r.d3, r.d4, r.d5, r.d6, r.d7, H0);
    var s := if r.d0.b0 then Added(s, Number(H1, H0, H5, HE, HC, H7, H6, HF)) else s;
    var s := if r.d0.b1 then Added(s, Number(H2, H0, HB, HD, H8, HE, HD, HE)) else s;
    var s := if r.d0.b2 then Added(s, Number(H4, H1, H7, HB, H1, HD, HB, HC)) else s;
    if r.d0.b3 then Added(s, Number(H8, H2, HF, H6, H3, HB, H7, H8)) else s
  }

  /** A byte of two digits, then eight steps. */
  function Fed(r: Register, high: Hex, low: Hex): (s: Register) {
    Quarter(Quarter(r.(d0 := Sum(r.d0, low), d1 := Sum(r.d1, high))))
  }

  // Digits and bits agree

  lemma AddedBits(r: Register, s: Register)
    ensures BitsIn(Added(r, s)) == Xor(BitsIn(r), BitsIn(s))
  {
    hide HexBits;
    XorEight(HexBits(r.d0), HexBits(r.d1), HexBits(r.d2), HexBits(r.d3), HexBits(r.d4), HexBits(r.d5), HexBits(r.d6),
             HexBits(r.d7), HexBits(s.d0), HexBits(s.d1), HexBits(s.d2), HexBits(s.d3), HexBits(s.d4), HexBits(s.d5),
             HexBits(s.d6), HexBits(s.d7));
    SumBits(r.d0, s.d0);
    SumBits(r.d1, s.d1);
    SumBits(r.d2, s.d2);
    SumBits(r.d3, s.d3);
    SumBits(r.d4, s.d4);
    SumBits(r.d5, s.d5);
    SumBits(r.d6, s.d6);
    SumBits(r.d7, s.d7);
  }

  lemma SumBits(a: Hex, b: Hex)
    ensures HexBits(Sum(a, b)) == Xor(HexBits(a), HexBits(b))
  {
  }

  lemma XorJoin(a: Bits, b: Bits, c: Bits, d: Bits)
    requires |a| == |c| && |b| == |d|
    ensures Xor(a + b, c + d) == Xor(a, c) + Xor(b, d)
  {
  }

  lemma XorEight(a0: Bits, a1: Bits, a2: Bits, a3: Bits, a4: Bits, a5: Bits, a6: Bits, a7: Bits,
                 b0: Bits, b1: Bits, b2: Bits, b3: Bits, b4: Bits, b5: Bits, b6: Bits, b7: Bits)
    requires |a0| == |b0| && |a1| == |b1| && |a2| == |b2| && |a3| == |b3|
    requires |a4| == |b4| && |a5| == |b5| && |a6| == |b6| && |a7| == |b7|
    ensures Xor(a0 + a1 + a2 + a3 + a4 + a5 + a6 + a7, b0 + b1 + b2 + b3 + b4 + b5 + b6 + b7)
            == Xor(a0, b0) + Xor(a1, b1) + Xor(a2, b2) + Xor(a3, b3) + Xor(a4, b4) + Xor(a5, b5) + Xor(a6, b6) + Xor(a7, b7)
  {
    hide Xor;
    var (a, b) := (a0 + a1, b0 + b1);
    XorJoin(a0, a1, b0, b1);
    XorJoin(a, a2, b, b2);
    XorJoin(a + a2, a3, b + b2, b3);
    XorJoin(a + a2 + a3, a4, b + b2 + b3, b4);
    XorJoin(a + a2 + a3 + a4, a5, b + b2 + b3 + b4, b5);
    XorJoin(a + a2 + a3 + a4 + a5, a6, b + b2 + b3 + b4 + b5, b6);
    XorJoin(a + a2 + a3 + a4 + a5 + a6, a7, b + b2 + b3 + b4 + b5 + b6, b7);
  }

  // Four steps

  /** The bit `k` alone. */
  function Unit(k: nat, on: bool): (b: Bits)
    requires k < 32
    ensures |b| == 32 && forall i :: 0 <= i < 32 ==> b[i] == (i == k && on)
  {
    Zero(k) + [on] + Zero(31 - k)
  }

  /** A bit of the lowest digit reaches the low end and turns into the polynomial, which then only moves down. */
  lemma UnitSteps(k: nat)
    requires k < 4
    ensures Steps(Unit(k, true), 4) == Polynomial()[3 - k..] + Zero(3 - k)
  {
    hide Polynomial, Steps, Unit;
    var u := Unit(k, true);
    UnitArrives(k);
    LowEnd();
    var p := Polynomial();
    assert p[..3 - k] == Zero(3 - k);
    StepsShift(p, 3 - k);
    StepsAdd(u, k + 1, 3 - k);
  }

  lemma UnitArrives(k: nat)
    requires k < 4
    ensures Steps(Unit(k, true), k + 1) == Polynomial()
  {
    hide Polynomial, Steps, Unit, Step;
    var u := Unit(k, true);
    assert u[..k] == Zero(k);
    StepsShift(u, k);
    assert u[k..] + Zero(k) == Unit(0, true);
    StepsAdd(u, k, 1);
    OneStep(Unit(0, true));
    UnitTurns();
  }

  lemma UnitTurns()
    ensures Step(Unit(0, true)) == Polynomial()
  {
    hide Polynomial, Unit;
    assert Shift(Unit(0, true)) == Zero(32);
    assert Xor(Zero(32), Polynomial()) == Polynomial();
  }

  lemma OneStep(crc: Bits)
    requires |crc| == 32
    ensures Steps(crc, 1) == Step(crc)
  {
    hide Step;
    assert Steps(crc, 0) == crc;
  }

  lemma LowEnd()
    ensures var p := Polynomial(); !p[0] && !p[1] && !p[2]
  {
    hide Polynomial;
    D.PolynomialBits();
  }

  lemma UnitOff(k: nat, n: nat)
    requires k < 32
    ensures Steps(Unit(k, false), n) == Zero(32)
  {
    hide Steps;
    assert Unit(k, false) == Zero(32);
    ZeroStays(n);
  }

  /** What bit `k` of the lowest digit contributes after four steps. */
  function Part(k: nat, on: bool): (b: Bits)
    requires k < 4
    ensures |b| == 32
  {
    if on then Polynomial()[3 - k..] + Zero(3 - k) else Zero(32)
  }

  lemma UnitPart(k: nat, on: bool)
    requires k < 4
    ensures Steps(Unit(k, on), 4) == Part(k, on)
  {
    hide Polynomial, Steps, Unit;
    if on {
      UnitSteps(k);
    } else {
      UnitOff(k, 4);
    }
  }

  lemma FourSteps(crc: Bits)
    requires |crc| == 32
    ensures Steps(crc, 4) ==
            Xor(Xor(Xor(Xor(crc[4..] + Zero(4), Part(0, crc[0])), Part(1, crc[1])), Part(2, crc[2])), Part(3, crc[3]))
  {
    hide Steps, Part, Xor;
    var rest := Zero(4) + crc[4..];
    var (u0, u1, u2, u3) := (Unit(0, crc[0]), Unit(1, crc[1]), Unit(2, crc[2]), Unit(3, crc[3]));
    LowDigit(crc);
    StepsLinear(Xor(Xor(Xor(rest, u0), u1), u2), u3, 4);
    StepsLinear(Xor(Xor(rest, u0), u1), u2, 4);
    StepsLinear(Xor(rest, u0), u1, 4);
    StepsLinear(rest, u0, 4);
    UnitPart(0, crc[0]);
    UnitPart(1, crc[1]);
    UnitPart(2, crc[2]);
    UnitPart(3, crc[3]);
    assert rest[..4] == Zero(4) && rest[4..] == crc[4..];
    StepsShift(rest, 4);
  }

  lemma LowDigit(crc: Bits)
    requires |crc| == 32
    ensures crc == Xor(Xor(Xor(Xor(Zero(4) + crc[4..], Unit(0, crc[0])), Unit(1, crc[1])), Unit(2, crc[2])), Unit(3, crc[3]))
  {
  }

  // The constants of a quarter

  lemma PartBits(k: nat)
    requires k < 4
    ensures Part(k, true) == BitsIn([Number(H1, H0, H5, HE, HC, H7, H6, HF), Number(H2, H0, HB, HD, H8, HE, HD, HE),
                                     Number(H4, H1, H7, HB, H1, HD, HB, HC), Number(H8, H2, HF, H6, H3, HB, H7, H8)][k])
  {
    hide Polynomial, BitsIn, Number;
    PolynomialNumber();
    MovedDown();
    var p := Polynomial();
    assert p[0..] + Zero(0) == p;
  }

  lemma PolynomialNumber()
    ensures Polynomial() == BitsIn(Number(H8, H2, HF, H6, H3, HB, H7, H8))
  {
    hide Polynomial, D.Digit;
    D.PolynomialBits();
    ConstantDigits();
  }

  lemma MovedDown()
    ensures BitsIn(Number(H8, H2, HF, H6, H3, HB, H7, H8))[1..] + Zero(1) == BitsIn(Number(H4, H1, H7, HB, H1, HD, HB, HC))
    ensures BitsIn(Number(H8, H2, HF, H6, H3, HB, H7, H8))[2..] + Zero(2) == BitsIn(Number(H2, H0, HB, HD, H8, HE, HD, HE))
    ensures BitsIn(Number(H8, H2, HF, H6, H3, HB, H7, H8))[3..] + Zero(3) == BitsIn(Number(H1, H0, H5, HE, HC, H7, H6, HF))
  {
    hide BitsIn;
    var (a, b, c, d) := (Number(H8, H2, HF, H6, H3, HB, H7, H8), Number(H4, H1, H7, HB, H1, HD, HB, HC),
                         Number(H2, H0, HB, HD, H8, HE, HD, HE), Number(H1, H0, H5, HE, HC, H7, H6, HF));
    LoweredBits(a);
    LoweredBits(b);
    LoweredBits(c);
    assert Lowered(a) == b && Lowered(b) == c && Lowered(c) == d;
    var p := BitsIn(a);
    DropAgain(p, 1);
    DropAgain(p, 2);
    assert Zero(1) == [false];
  }

  lemma DropAgain(p: Bits, n: nat)
    requires |p| == 32 && 1 <= n < 32
    ensures (p[n..] + Zero(n))[1..] + [false] == p[n + 1..] + Zero(n + 1)
  {
  }

  function Half(d: Hex, next: Hex): (r: Hex) {
    Hex(d.b1, d.b2, d.b3, next.b0)
  }

  function Lowered(r: Register): (s: Register) {
    Register(Half(r.d0, r.d1), Half(r.d1, r.d2), Half(r.d2, r.d3), Half(r.d3, r.d4), Half(r.d4, r.d5), Half(r.d5, r.d6),
             Half(r.d6, r.d7), Half(r.d7, H0))
  }

  function Nth(r: Register, k: nat): (d: Hex)
    requires k < 8
  {
    if k == 0 then r.d0 else if k == 1 then r.d1 else if k == 2 then r.d2 else if k == 3 then r.d3
    else if k == 4 then r.d4 else if k == 5 then r.d5 else if k == 6 then r.d6 else r.d7
  }

  lemma BitsInAt(r: Register, i: nat)
    requires i < 32
    ensures BitsIn(r)[i] == HexBits(Nth(r, i / 4))[i % 4]
  {
    hide HexBits;
    D.JoinedAt(HexBits(r.d0), HexBits(r.d1), HexBits(r.d2), HexBits(r.d3), HexBits(r.d4), HexBits(r.d5), HexBits(r.d6),
               HexBits(r.d7), i);
  }

  lemma LoweredAt(r: Register, i: nat)
    requires i < 32
    ensures HexBits(Nth(Lowered(r), i / 4))[i % 4] == if i == 31 then false else HexBits(Nth(r, (i + 1) / 4))[(i + 1) % 4]
  {
    hide HexBits, Lowered, Nth;
    var (k, j) := (i / 4, i % 4);
    NthLowered(r, k);
    HalfBits(Nth(r, k), if k == 7 then H0 else Nth(r, k + 1), j);
    assert i + 1 == if j < 3 then 4 * k + (j + 1) else 4 * (k + 1);
  }

  lemma NthLowered(r: Register, k: nat)
    requires k < 8
    ensures Nth(Lowered(r), k) == Half(Nth(r, k), if k == 7 then H0 else Nth(r, k + 1))
  {
  }

  lemma HalfBits(d: Hex, next: Hex, j: nat)
    requires j < 4
    ensures HexBits(Half(d, next))[j] == if j < 3 then HexBits(d)[j + 1] else HexBits(next)[0]
    ensures HexBits(H0)[0] == false
  {
  }

  lemma LoweredBits(r: Register)
    ensures BitsIn(r)[1..] + [false] == BitsIn(Lowered(r))
  {
    hide BitsIn, HexBits, Lowered, Nth;
    var (a, b) := (BitsIn(r)[1..] + [false], BitsIn(Lowered(r)));
    forall i | 0 <= i < 32
      ensures a[i] == b[i]
    {
      BitsInAt(Lowered(r), i);
      LoweredAt(r, i);
      if i < 31 {
        BitsInAt(r, i + 1);
      }
    }
  }

  lemma ConstantDigits()
    ensures D.Digit(0x8) == HexBits(H8) && D.Digit(0x7) == HexBits(H7) && D.Digit(0xB) == HexBits(HB) && D.Digit(0x3) == HexBits(H3)
    ensures D.Digit(0x6) == HexBits(H6) && D.Digit(0xF) == HexBits(HF) && D.Digit(0x2) == HexBits(H2)
  {
  }

  lemma AddPart(s: Register, k: nat, on: bool)
    requires k < 4
    ensures Xor(BitsIn(s), Part(k, on)) ==
            BitsIn(if on then Added(s, [Number(H1, H0, H5, HE, HC, H7, H6, HF), Number(H2, H0, HB, HD, H8, HE, HD, HE),
                                        Number(H4, H1, H7, HB, H1, HD, HB, HC), Number(H8, H2, HF, H6, H3, HB, H7, H8)][k]) else s)
  {
    hide BitsIn, Added, Number;
    if on {
      hide Part;
      PartBits(k);
      AddedBits(s, [Number(H1, H0, H5, HE, HC, H7, H6, HF), Number(H2, H0, HB, HD, H8, HE, HD, HE),
                    Number(H4, H1, H7, HB, H1, HD, HB, HC), Number(H8, H2, HF, H6, H3, HB, H7, H8)][k]);
    } else {
      assert Xor(BitsIn(s), Zero(32)) == BitsIn(s);
    }
  }

  lemma QuarterBits(r: Register)
    ensures Steps(BitsIn(r), 4) == BitsIn(Quarter(r))
  {
    hide Steps, Part, Xor, Added, Number;
    var crc := BitsIn(r);
    FourSteps(crc);
    var s := Register(r.d1, r.d2, r.d3, r.d4, r.d5, r.d6, r.d7, H0);
    DroppedDigit(r);
    AddPart(s, 0, crc[0]);
    var s0 := if r.d0.b0 then Added(s, Number(H1, H0, H5, HE, HC, H7, H6, HF)) else s;
    AddPart(s0, 1, crc[1]);
    var s1 := if r.d0.b1 then Added(s0, Number(H2, H0, HB, HD, H8, HE, HD, HE)) else s0;
    AddPart(s1, 2, crc[2]);
    var s2 := if r.d0.b2 then Added(s1, Number(H4, H1, H7, HB, H1, HD, HB, HC)) else s1;
    AddPart(s2, 3, crc[3]);
  }

  lemma DroppedDigit(r: Register)
    ensures BitsIn(r)[4..] + Zero(4) == BitsIn(Register(r.d1, r.d2, r.d3, r.d4, r.d5, r.d6, r.d7, H0))
  {
  }

  /** The byte of two digits. */
  ghost predicate IsByte(b: Byte, high: Hex, low: Hex) {
    ByteBits(b) == HexBits(low) + HexBits(high)
  }

  lemma ByteAdded(r: Register, b: Byte, high: Hex, low: Hex)
    requires IsByte(b, high, low)
    ensures Xor(BitsIn(r), ByteBits(b) + Zero(24)) == BitsIn(r.(d0 := Sum(r.d0, low), d1 := Sum(r.d1, high)))
  {
    hide ByteBits;
    var n := Number(H0, H0, H0, H0, H0, H0, high, low);
    assert ByteBits(b) + Zero(24) == BitsIn(n);
    AddedBits(r, n);
  }

  /** Feeding a byte digit by digit is feeding it. */
  lemma FedBits(r: Register, b: Byte, high: Hex, low: Hex)
    requires IsByte(b, high, low)
    ensures Feed(BitsIn(r), b) == BitsIn(Fed(r, high, low))
  {
    hide Steps, BitsIn, Quarter, Sum, ByteBits, Xor;
    ByteAdded(r, b, high, low);
    var s := r.(d0 := Sum(r.d0, low), d1 := Sum(r.d1, high));
    QuarterBits(s);
    QuarterBits(Quarter(s));
    StepsAdd(BitsIn(s), 4, 4);
  }

  lemma TwoDigits(b: Byte)
    ensures ByteBits(b) == D.Digit(b) + D.Digit(b / 16)
  {
    hide BitsOf, D.Digit;
    D.NextDigit(b, 4);
    D.NextDigit(b / 16, 0);
    D.NoBits();
    assert D.Digit(b / 16) + [] == D.Digit(b / 16);
  }

  lemma Byte1()
    ensures IsByte(0x01, H0, H1)
  {
    hide ByteBits;
    TwoDigits(0x01);
  }

  lemma Byte31()
    ensures IsByte(0x31, H3, H1)
  {
    hide ByteBits;
    TwoDigits(0x31);
  }

  lemma Byte32()
    ensures IsByte(0x32, H3, H2)
  {
    hide ByteBits;
    TwoDigits(0x32);
  }

  lemma Byte33()
    ensures IsByte(0x33, H3, H3)
  {
    hide ByteBits;
    TwoDigits(0x33);
  }

  lemma Byte34()
    ensures IsByte(0x34, H3, H4)
  {
    hide ByteBits;
    TwoDigits(0x34);
  }

  lemma Byte35()
    ensures IsByte(0x35, H3, H5)
  {
    hide ByteBits;
    TwoDigits(0x35);
  }

  lemma Byte36()
    ensures IsByte(0x36, H3, H6)
  {
    hide ByteBits;
    TwoDigits(0x36);
  }

  lemma Byte37()
    ensures IsByte(0x37, H3, H7)
  {
    hide ByteBits;
    TwoDigits(0x37);
  }

  lemma Byte38()
    ensures IsByte(0x38, H3, H8)
  {
    hide ByteBits;
    TwoDigits(0x38);
  }

  lemma Byte39()
    ensures IsByte(0x39, H3, H9)
  {
    hide ByteBits;
    TwoDigits(0x39);
  }

  // The answers

  lemma Answer1()
    ensures Fed(Number(HF, HF, HF, HF, HF, HF, HF, HF), H3, H1) == Number(H6, HF, H0, HA, H6, H6, H1, HC)
  {
  }

  lemma Answer2()
    ensures Fed(Number(H6, HF, H0, HA, H6, H6, H1, HC), H3, H2) == Number(H8, HC, HA, HA, H3, HB, H9, HF)
  {
  }

  lemma Answer3()
    ensures Fed(Number(H8, HC, HA, HA, H3, HB, H9, HF), H3, H3) == Number(HE, HF, H8, H4, HD, H0, H4, HD)
  {
  }

  lemma Answer4()
    ensures Fed(Number(HE, HF, H8, H4, HD, H0, H4, HD), H3, H4) == Number(H0, H9, HC, H5, H0, HB, H1, H1)
  {
  }

  lemma Answer5()
    ensures Fed(Number(H0, H9, HC, H5, H0, HB, H1, H1), H3, H5) == Number(HE, H7, H2, HE, HD, HC, HC, HA)
  {
  }

  lemma Answer6()
    ensures Fed(Number(HE, H7, H2, HE, HD, HC, HC, HA), H3, H6) == Number(HB, HE, HC, HA, H8, HE, H7, H9)
  {
  }

  lemma Answer7()
    ensures Fed(Number(HB, HE, HC, HA, H8, HE, H7, H9), H3, H7) == Number(HE, HD, HB, HD, H6, H8, H1, H5)
  {
  }

  lemma Answer8()
    ensures Fed(Number(HE, HD, HB, HD, H6, H8, H1, H5), H3, H8) == Number(H9, HF, H7, H8, H7, HF, H6, H5)
  {
  }

  lemma Answer9()
    ensures Fed(Number(H9, HF, H7, H8, H7, HF, H6, H5), H3, H9) == Number(H1, HC, HF, H9, H6, HD, H7, HC)
  {
  }

  lemma OnesAre()
    ensures Ones() == BitsIn(Number(HF, HF, HF, HF, HF, HF, HF, HF))
  {
  }

  lemma NextByte(data: seq<Byte>, seed: Bits, b: Byte, r: Register, high: Hex, low: Hex)
    requires |seed| == 32 && Crc(data, seed) == BitsIn(r) && IsByte(b, high, low)
    ensures Crc(data + [b], seed) == BitsIn(Fed(r, high, low))
  {
    hide Feed, BitsIn, Fed, IsByte;
    assert (data + [b])[..|data|] == data;
    FedBits(r, b, high, low);
  }

  const CHECK_TEXT: seq<Byte> := [0x31, 0x32, 0x33, 0x34, 0x35, 0x36, 0x37, 0x38, 0x39]

  /** The nine digits "123456789" from all ones leave the complement of 0xE3069283, the check value of CRC32C. */
  lemma CheckValue()
    ensures Crc(CHECK_TEXT, Ones()) == BitsIn(Number(H1, HC, HF, H9, H6, HD, H7, HC))
    ensures Added(Number(H1, HC, HF, H9, H6, HD, H7, HC), Number(HF, HF, HF, HF, HF, HF, HF, HF)) == Number(HE, H3, H0, H6, H9, H2, H8, H3)
  {
    hide Crc, BitsIn, Fed, Number, IsByte;
    OnesAre();
    NoBytes();
    Answer1();
    Byte31();
    NextByte([], Ones(), 0x31, Number(HF, HF, HF, HF, HF, HF, HF, HF), H3, H1);
    assert [] + [0x31] == [0x31];
    Answer2();
    Byte32();
    NextByte([0x31], Ones(), 0x32, Number(H6, HF, H0, HA, H6, H6, H1, HC), H3, H2);
    assert [0x31] + [0x32] == [0x31, 0x32];
    Answer3();
    Byte33();
    NextByte([0x31, 0x32], Ones(), 0x33, Number(H8, HC, HA, HA, H3, HB, H9, HF), H3, H3);
    assert [0x31, 0x32] + [0x33] == [0x31, 0x32, 0x33];
    Answer4();
    Byte34();
    NextByte([0x31, 0x32, 0x33], Ones(), 0x34, Number(HE, HF, H8, H4, HD, H0, H4, HD), H3, H4);
    assert [0x31, 0x32, 0x33] + [0x34] == [0x31, 0x32, 0x33, 0x34];
    Answer5();
    Byte35();
    NextByte([0x31, 0x32, 0x33, 0x34], Ones(), 0x35, Number(H0, H9, HC, H5, H0, HB, H1, H1), H3, H5);
    assert [0x31, 0x32, 0x33, 0x34] + [0x35] == [0x31, 0x32, 0x33, 0x34, 0x35];
    Answer6();
    Byte36();
    NextByte([0x31, 0x32, 0x33, 0x34, 0x35], Ones(), 0x36, Number(HE, H7, H2, HE, HD, HC, HC, HA), H3, H6);
    assert [0x31, 0x32, 0x33, 0x34, 0x35] + [0x36] == [0x31, 0x32, 0x33, 0x34, 0x35, 0x36];
    Answer7();
    Byte37();
    NextByte([0x31, 0x32, 0x33, 0x34, 0x35, 0x36], Ones(), 0x37, Number(HB, HE, HC, HA, H8, HE, H7, H9), H3, H7);
    assert [0x31, 0x32, 0x33, 0x34, 0x35, 0x36] + [0x37] == [0x31, 0x32, 0x33, 0x34, 0x35, 0x36, 0x37];
    Answer8();
    Byte38();
    NextByte([0x31, 0x32, 0x33, 0x34, 0x35, 0x36, 0x37], Ones(), 0x38, Number(HE, HD, HB, HD, H6, H8, H1, H5), H3, H8);
    assert [0x31, 0x32, 0x33, 0x34, 0x35, 0x36, 0x37] + [0x38] == [0x31, 0x32, 0x33, 0x34, 0x35, 0x36, 0x37, 0x38];
    Answer9();
    Byte39();
    NextByte([0x31, 0x32, 0x33, 0x34, 0x35, 0x36, 0x37, 0x38], Ones(), 0x39, Number(H9, HF, H7, H8, H7, HF, H6, H5), H3, H9);
    assert [0x31, 0x32, 0x33, 0x34, 0x35, 0x36, 0x37, 0x38] + [0x39] == [0x31, 0x32, 0x33, 0x34, 0x35, 0x36, 0x37, 0x38, 0x39];
    Complement();
  }

  lemma Complement()
    ensures Added(Number(H1, HC, HF, H9, H6, HD, H7, HC), Number(HF, HF, HF, HF, HF, HF, HF, HF)) == Number(HE, H3, H0, H6, H9, H2, H8, H3)
  {
  }

  lemma NoBytes()
    ensures Crc([], Ones()) == Ones()
  {
  }

  /** The single byte 1 from zero leaves 0xF26B8303. */
  lemma OneByteValue()
    ensures Crc([1], Zero(32)) == BitsIn(Number(HF, H2, H6, HB, H8, H3, H0, H3))
  {
    hide Feed, BitsIn, Fed, IsByte;
    NothingIs();
    assert Crc([], Zero(32)) == Zero(32);
    Byte1();
    NextByte([], Zero(32), 1, Number(H0, H0, H0, H0, H0, H0, H0, H0), H0, H1);
    assert [] + [1] == [1];
    OneByteFed();
  }

  lemma OneByteFed()
    ensures Fed(Number(H0, H0, H0, H0, H0, H0, H0, H0), H0, H1) == Number(HF, H2, H6, HB, H8, H3, H0, H3)
  {
  }

  lemma NothingIs()
    ensures Zero(32) == BitsIn(Number(H0, H0, H0, H0, H0, H0, H0, H0))
  {
  }
}
