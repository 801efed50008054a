/** The table-driven check sum, and the polynomial division that it carries out. */
module Crc {
  import opened Bytes
  import opened Bits
  import opened Polynomials
  import opened CrcTables

  /** x^16 + x^12 + x^5 + 1. */
  const GENERATOR: nat := 0x11021

  /** The polynomial held in a 16-bit register. */
  function Value(x: bv16): nat {
    if x == 0 then 0 else 2 * Value(x >> 1) + (if x & 1 == 1 then 1 else 0)
  }

  /** The polynomial whose coefficients, highest power first, are bits. */
  function PolynomialOf(bits: seq<bool>): nat {
    if bits == [] then 0 else 2 * PolynomialOf(bits[..|bits| - 1]) + (if bits[|bits| - 1] then 1 else 0)
  }

  /** The bits of a message in the order they are divided: every byte lowest bit first. */
  function MessageBits(p: seq<byte>): seq<bool> {
    if p == [] then [] else MessageBits(p[..|p| - 1]) + BitsOf(p[|p| - 1], 8)
  }

  /** crc is the remainder of the message modulo GENERATOR, nothing appended to the message. */
  ghost predicate IsRemainder(p: seq<byte>, crc: bv16) {
    Congruent(PolynomialOf(MessageBits(p)), Value(crc), GENERATOR)
  }

  // ---- the register as a polynomial

  lemma ValueParts(x: bv16)
    ensures Value(x) / 2 == Value(x >> 1)
    ensures (Value(x) % 2 == 1) == (x & 1 == 1)
    ensures Value(x) == 0 ==> x == 0
  {
    if x != 0 && x & 1 == 0 { NotZero(x >> 1); }
  }

  lemma {:induction false} NotZero(x: bv16)
    requires x != 0
    ensures Value(x) > 0
    decreases x
  {
    if x & 1 == 0 {
      assert x >> 1 != 0;
      NotZero(x >> 1);
    }
  }

  lemma XorHalves(x: bv16, y: bv16)
    ensures (x ^ y) >> 1 == (x >> 1) ^ (y >> 1)
    ensures ((x ^ y) & 1 == 1) == ((x & 1 == 1) != (y & 1 == 1))
  {
  }

  lemma {:induction false} ValueXor(x: bv16, y: bv16)
    ensures Value(x ^ y) == Xor(Value(x), Value(y))
    decreases x
  {
    if x == 0 {
      assert x ^ y == y;
    } else {
      ValueXor(x >> 1, y >> 1);
      ValueXorStep(x, y, x ^ y);
    }
  }

  lemma ValueXorStep(x: bv16, y: bv16, z: bv16)
    requires z == x ^ y
    requires Value((x >> 1) ^ (y >> 1)) == Xor(Value(x >> 1), Value(y >> 1))
    ensures Value(z) == Xor(Value(x), Value(y))
  {
    XorHalves(x, y);
    ValueParts(x);
    ValueParts(y);
    ValueParts(z);
    XorFromParts(Value(x), Value(y), Value(z));
  }

  lemma ValueOf(x: bv16, y: bv16)
    requires y >> 1 == x
    ensures Value(y) == 2 * Value(x) + if y & 1 == 1 then 1 else 0
  {
    ValueParts(y);
  }

  lemma OddParts(x: bv16)
    requires x < 0x8000
    ensures ((x << 1) | 1) >> 1 == x && ((x << 1) | 1) & 1 == 1
  {
  }

  lemma ValueOdd(x: bv16)
    requires x < 0x8000
    ensures Value((x << 1) | 1) == 2 * Value(x) + 1
  {
    OddParts(x);
    ValueOf(x, (x << 1) | 1);
  }

  lemma LowPowers()
    ensures Value(1) == 1 && Value(0x80) == 0x80
  {
    ValueOdd(0);
    ValueLow(1); ValueLow(2); ValueLow(4); ValueLow(8);
    ValueLow(0x10); ValueLow(0x20); ValueLow(0x40);
  }

  lemma TopPower()
    ensures Value(0x8000) == 0x8000
  {
    LowPowers();
    ValueLow(0x80); ValueLow(0x100); ValueLow(0x200); ValueLow(0x400);
    ValueLow(0x800); ValueLow(0x1000); ValueLow(0x2000); ValueLow(0x4000);
  }

  lemma GeneratorValue()
    ensures Value(0x1021) == 0x1021
  {
    LowPowers();
    ValueOdd(0x40);
    ValueLow(0x80);
    GeneratorParts();
  }

  lemma GeneratorParts()
    ensures Value(0x1021) == 32 * Value(0x81) + 1
  {
    ValueLow(0x81); ValueLow(0x102); ValueLow(0x204); ValueLow(0x408);
    ValueOdd(0x810);
  }

  lemma OnesValues()
    ensures Ones(7) == 127 && Ones(8) == 255 && Ones(16) == 65535 && Ones(17) == 131071
  {
    assert Ones(4) == 15;
    assert Ones(8) == 255;
    assert Ones(12) == 4095;
  }

  lemma Powers()
    ensures Shl(1, 7) == 128 && Shl(1, 16) == 65536
  {
    assert Shl(1, 4) == 16;
    assert Shl(1, 8) == 256;
    assert Shl(1, 12) == 4096;
  }

  function Halved(x: bv16, n: nat): bv16 {
    if n == 0 then x else Halved(x >> 1, n - 1)
  }

  lemma {:induction false} HalvedBound(x: bv16, n: nat)
    requires Halved(x, n) == 0
    ensures Value(x) <= Ones(n)
  {
    if n > 0 {
      HalvedBound(x >> 1, n - 1);
      ValueParts(x);
    }
  }

  lemma {:induction false} HalvedSplits(x: bv16, m: nat, n: nat)
    ensures Halved(x, m + n) == Halved(Halved(x, m), n)
  {
    if m > 0 { HalvedSplits(x >> 1, m - 1, n); }
  }

  lemma Halved4(x: bv16)
    ensures Halved(x, 4) == x >> 4
  {
    assert (x >> 1) >> 1 == x >> 2 && (x >> 2) >> 1 == x >> 3 && (x >> 3) >> 1 == x >> 4;
    assert Halved(x, 4) == Halved(x >> 1, 3);
    assert Halved(x >> 1, 3) == Halved(x >> 2, 2);
    assert Halved(x >> 2, 2) == Halved(x >> 3, 1);
  }

  lemma Halved8(x: bv16)
    ensures Halved(x, 8) == x >> 8
  {
    Halved4(x);
    Halved4(x >> 4);
    HalvedSplits(x, 4, 4);
    assert (x >> 4) >> 4 == x >> 8;
  }

  lemma ByteBound(x: bv16)
    requires x < 0x100
    ensures Value(x) <= Ones(8)
  {
    Halved8(x);
    assert x >> 8 == 0;
    HalvedBound(x, 8);
  }

  /** A 16-bit register holds a polynomial of degree below 16. */
  lemma ValueBound(x: bv16)
    ensures Value(x) <= Ones(16)
  {
    Halved8(x);
    Halved8(x >> 8);
    HalvedSplits(x, 8, 8);
    assert (x >> 8) >> 8 == 0;
    HalvedBound(x, 16);
  }

  lemma SameHalves(x: bv16, y: bv16)
    requires x >> 1 == y >> 1 && (x & 1 == 1) == (y & 1 == 1)
    ensures x == y
  {
  }

  /** And distinct registers hold distinct polynomials. */
  lemma {:induction false} ValueDistinguishes(x: bv16, y: bv16)
    requires Value(x) == Value(y)
    ensures x == y
    decreases Value(x)
  {
    if x == 0 {
      if y != 0 { NotZero(y); }
    } else {
      NotZero(x);
      DistinguishesStep(x, y);
      ValueDistinguishes(x >> 1, y >> 1);
      SameHalves(x, y);
    }
  }

  lemma DistinguishesStep(x: bv16, y: bv16)
    requires Value(x) == Value(y)
    ensures Value(x >> 1) == Value(y >> 1) == Value(x) / 2 && (x & 1 == 1) == (y & 1 == 1)
  {
    SameParity(x, y);
    ValueParts(x);
  }

  lemma SameParity(x: bv16, y: bv16)
    requires Value(x) == Value(y)
    ensures Value(x >> 1) == Value(y >> 1) && (x & 1 == 1) == (y & 1 == 1)
  {
    ValueParts(x);
    ValueParts(y);
  }

  // ---- turns are multiplications modulo GENERATOR

  lemma ValueLow(x: bv16)
    requires x < 0x8000
    ensures Value(x << 1) == 2 * Value(x)
  {
    assert (x << 1) >> 1 == x && (x << 1) & 1 == 0;
    ValueParts(x << 1);
  }

  lemma SameIsCongruent(x: nat)
    ensures Congruent(x, x, GENERATOR)
  {
    XorSelf(x);
    assert Product(0, GENERATOR) == 0;
  }

  lemma GIsMultiple()
    ensures Multiple(GENERATOR, GENERATOR)
  {
    assert Product(1, GENERATOR) == GENERATOR;
  }

  lemma TimesIsDouble(x: bv16)
    ensures Congruent(Value(Times(x)), 2 * Value(x), GENERATOR)
  {
    if x < 0x8000 { LowTurn(x); } else { HighTurn(x); }
  }

  lemma LowTurn(x: bv16)
    requires x < 0x8000
    ensures Congruent(Value(Times(x)), 2 * Value(x), GENERATOR)
  {
    ValueLow(x);
    SameIsCongruent(2 * Value(x));
  }

  lemma HighTurn(x: bv16)
    requires x >= 0x8000
    ensures Congruent(Value(Times(x)), 2 * Value(x), GENERATOR)
  {
    var v := TopTurn(x);
    TopTermIsReduced(v);
  }

  lemma TopParts(x: bv16) returns (y: bv16)
    requires x >= 0x8000
    ensures y < 0x8000 && x == y ^ 0x8000 && Times(x) == (y << 1) ^ 0x1021
  {
    y := x & 0x7fff;
  }

  lemma AddTop(y: bv16)
    ensures Value(y ^ 0x8000) == Xor(Value(y), 0x8000)
  {
    ValueXor(y, 0x8000);
    TopPower();
  }

  lemma AddGenerator(y: bv16)
    ensures Value(y ^ 0x1021) == Xor(Value(y), 0x1021)
  {
    ValueXor(y, 0x1021);
    GeneratorValue();
  }

  lemma TopSource(x: bv16, y: bv16)
    requires x == y ^ 0x8000
    ensures Value(x) == Xor(Value(y), 0x8000)
  {
    AddTop(y);
  }

  lemma TopTarget(y: bv16, t: bv16)
    requires y < 0x8000 && t == (y << 1) ^ 0x1021
    ensures Value(t) == Xor(2 * Value(y), 0x1021)
  {
    ValueLow(y);
    AddGenerator(y << 1);
  }

  /** The rest v of x below its top term turns into 2v and what replaces that term. */
  lemma TopTurn(x: bv16) returns (v: nat)
    requires x >= 0x8000
    ensures Value(x) == Xor(v, 0x8000) && Value(Times(x)) == Xor(2 * v, 0x1021)
  {
    var y := TopParts(x);
    TopSource(x, y);
    TopTarget(y, Times(x));
    v := Value(y);
  }

  /** Adding the top term on one side and what replaces it on the other. */
  lemma ReplaceTerm(x: nat, y: nat, top: nat, low: nat)
    requires Congruent(x, y, GENERATOR) && Xor(top, low) == GENERATOR
    ensures Congruent(Xor(x, top), Xor(y, low), GENERATOR)
  {
    XorPairs(x, top, y, low);
    GIsMultiple();
    MultipleOfSum(Xor(x, y), GENERATOR, GENERATOR);
  }

  lemma TopTermIsReduced(v: nat)
    ensures Congruent(Xor(2 * v, 0x1021), 2 * Xor(v, 0x8000), GENERATOR)
  {
    XorDoubles(v, 0x8000);
    SameIsCongruent(2 * v);
    var top, low := GeneratorTerms();
    ReplaceTerm(2 * v, 2 * v, low, top);
  }

  lemma CongruentCommutes(x: nat, y: nat)
    requires Congruent(x, y, GENERATOR)
    ensures Congruent(y, x, GENERATOR)
  {
    XorCommutes(x, y);
  }

  lemma {:induction false} CongruentShifts(x: nat, y: nat, n: nat)
    requires Congruent(x, y, GENERATOR)
    ensures Congruent(Shl(x, n), Shl(y, n), GENERATOR)
  {
    if n > 0 {
      CongruentShifts(x, y, n - 1);
      CongruentDoubles(Shl(x, n - 1), Shl(y, n - 1), GENERATOR);
    }
  }

  lemma {:induction false} ShlDoubles(x: nat, n: nat)
    ensures Shl(2 * x, n) == 2 * Shl(x, n)
  {
    if n > 0 { ShlDoubles(x, n - 1); }
  }

  /** Entry i of the table is what remains of i once it has been carried 16 places up. */
  lemma {:induction false} ReducedIsShift(i: nat)
    ensures Congruent(Shl(i, 16), Value(Reduced(i)), GENERATOR)
  {
    if i == 0 {
      ShlZero(16);
      SameIsCongruent(0);
    } else {
      ReducedIsShift(i / 2);
      var t := ReducedDoubles(i / 2, Reduced(i / 2));
      ReducedNext(i - i % 2, t, i % 2);
    }
  }

  lemma ReducedDoubles(j: nat, r: bv16) returns (t: bv16)
    requires Congruent(Shl(j, 16), Value(r), GENERATOR)
    ensures t == Times(r) && Congruent(Shl(2 * j, 16), Value(t), GENERATOR)
  {
    TimesIsDouble(r);
    t := Times(r);
    DoubledTwice(j, Value(r), Value(t));
  }

  lemma DoubledTwice(j: nat, r: nat, t: nat)
    requires Congruent(Shl(j, 16), r, GENERATOR) && Congruent(t, 2 * r, GENERATOR)
    ensures Congruent(Shl(2 * j, 16), t, GENERATOR)
  {
    ShlDoubles(j, 16);
    CongruentDoubles(Shl(j, 16), r, GENERATOR);
    CongruentCommutes(t, 2 * r);
    CongruentChains(Shl(2 * j, 16), 2 * r, t, GENERATOR);
  }

  lemma ReducedNext(x: nat, t: bv16, bit: nat)
    requires x % 2 == 0 && bit < 2 && Congruent(Shl(x, 16), Value(t), GENERATOR)
    ensures Congruent(Shl(x + bit, 16), Value(PlusGenerator(t, bit)), GENERATOR)
  {
    if bit == 1 {
      AddGenerator(t);
      AddOne(x, Value(t));
    }
  }

  lemma AddOne(x: nat, v: nat)
    requires x % 2 == 0 && Congruent(Shl(x, 16), v, GENERATOR)
    ensures Congruent(Shl(x + 1, 16), Xor(v, 0x1021), GENERATOR)
  {
    ShlOdd(x);
    var top, low := GeneratorTerms();
    ReplaceTerm(Shl(x, 16), v, top, low);
  }

  lemma ShlOdd(x: nat)
    requires x % 2 == 0
    ensures Shl(x + 1, 16) == Xor(Shl(x, 16), 65536)
  {
    XorEven(x);
    ShlXor(x, 1, 16);
    Powers();
  }

  lemma XorEven(x: nat)
    requires x % 2 == 0
    ensures Xor(x, 1) == x + 1
  {
    XorParts(x, 1);
  }

  /** x^16 and x^12 + x^5 + 1 add up to the modulus. */
  lemma GeneratorTerms() returns (top: nat, low: nat)
    ensures top == 65536 && low == 0x1021 && Xor(top, low) == GENERATOR && Xor(low, top) == GENERATOR
  {
    top, low := 65536, 0x1021;
    Powers();
    OnesValues();
    XorDisjoint(1, low, 16);
    XorCommutes(top, low);
  }

  // ---- the two bytes of the register

  lemma ShiftNibble(x: bv16)
    requires x < 0x1000
    ensures Value(x << 4) == Shl(Value(x), 4)
  {
    ShiftPairs(x);
    ValueLow(x);
    ValueLow(x << 1);
    ValueLow(x << 2);
    ValueLow(x << 3);
    ShlByFour(Value(x));
  }

  lemma ShiftPairs(x: bv16)
    ensures (x << 1) << 1 == x << 2 && (x << 2) << 1 == x << 3 && (x << 3) << 1 == x << 4
  {
  }

  lemma ShlByFour(v: nat)
    ensures Shl(v, 4) == 2 * (2 * (2 * (2 * v)))
  {
    assert Shl(v, 1) == 2 * v;
    assert Shl(v, 2) == 2 * (2 * v);
    assert Shl(v, 3) == 2 * (2 * (2 * v));
  }

  lemma {:induction false} ShlSplits(x: nat, m: nat, n: nat)
    ensures Shl(x, m + n) == Shl(Shl(x, m), n)
  {
    if n > 0 { ShlSplits(x, m, n - 1); }
  }

  lemma ShiftByte(x: bv16)
    requires x < 0x100
    ensures Value(x << 8) == Shl(Value(x), 8)
  {
    ShiftNibble(x);
    ShiftNibble(x << 4);
    assert (x << 4) << 4 == x << 8;
    ShlSplits(Value(x), 4, 4);
  }

  lemma TwoBytes(c: bv16) returns (h: bv16, l: bv16)
    ensures h == c >> 8 && h < 0x100 && l < 0x100
    ensures c == (h << 8) ^ l && c << 8 == l << 8
  {
    h := HighByte(c);
    l := LowByte(c);
    BytesApart(c, h, l);
  }

  lemma HighByte(c: bv16) returns (h: bv16)
    ensures h == c >> 8 && h < 0x100
  {
    h := c >> 8;
  }

  lemma LowByte(c: bv16) returns (l: bv16)
    ensures l == c & 0xff && l < 0x100 && c << 8 == l << 8
  {
    l := c & 0xff;
  }

  lemma BytesApart(c: bv16, h: bv16, l: bv16)
    requires h == c >> 8 && l == c & 0xff
    ensures c == (h << 8) ^ l
  {
  }

  lemma TwoHalves(c: bv16, h: bv16, l: bv16)
    requires h < 0x100 && c == (h << 8) ^ l
    ensures Value(c) == Xor(Shl(Value(h), 8), Value(l))
  {
    ValueXor(h << 8, l);
    ShiftByte(h);
  }

  /** One table look-up and one shift multiply the register by x^8 modulo GENERATOR. */
  lemma LookupIsShift(c: bv16, r: bv16)
    requires Congruent(Shl(Value(c >> 8), 16), Value(r), GENERATOR)
    ensures Congruent(Shl(Value(c), 8), Value(r ^ (c << 8)), GENERATOR)
  {
    var h, l := TwoBytes(c);
    LookupOfBytes(c, h, l, c << 8, r);
  }

  lemma LookupOfBytes(c: bv16, h: bv16, l: bv16, up: bv16, r: bv16)
    requires h < 0x100 && l < 0x100 && c == (h << 8) ^ l && up == l << 8
    requires Congruent(Shl(Value(h), 16), Value(r), GENERATOR)
    ensures Congruent(Shl(Value(c), 8), Value(r ^ up), GENERATOR)
  {
    ShiftByte(l);
    TwoHalves(c, h, l);
    ValueXor(r, up);
    LookupValues(Value(c), Value(h), Value(l), Value(r));
  }

  lemma LookupValues(v: nat, h: nat, l: nat, r: nat)
    requires v == Xor(Shl(h, 8), l) && Congruent(Shl(h, 16), r, GENERATOR)
    ensures Congruent(Shl(v, 8), Xor(r, Shl(l, 8)), GENERATOR)
  {
    ShlXor(Shl(h, 8), l, 8);
    ShlSplits(h, 8, 8);
    CongruentAdds(Shl(h, 16), r, Shl(l, 8), GENERATOR);
  }

  // ---- the bits of one byte

  lemma {:induction false} PolynomialAppend(a: seq<bool>, b: seq<bool>)
    ensures PolynomialOf(a + b) == Shl(PolynomialOf(a), |b|) + PolynomialOf(b)
  {
    if b == [] {
      assert a + b == a;
    } else {
      PolynomialAppend(a, b[..|b| - 1]);
      assert (a + b)[..|a + b| - 1] == a + b[..|b| - 1];
    }
  }

  lemma {:induction false} PolynomialBound(bits: seq<bool>)
    ensures PolynomialOf(bits) <= Ones(|bits|)
  {
    if bits != [] { PolynomialBound(bits[..|bits| - 1]); }
  }

  lemma {:induction false} TopBitClear(x: nat, n: nat)
    requires x <= Ones(n)
    ensures BitsOf(x, n + 1) == BitsOf(x, n) + [false]
  {
    if n > 0 { TopBitClear(x / 2, n - 1); }
  }

  /** The mirrored byte is the polynomial whose coefficients are the byte's bits, lowest first. */
  lemma {:induction false} MirroredIsPolynomial(i: nat)
    requires i < 256
    ensures Value(Mirrored(i)) == PolynomialOf(BitsOf(i, 8))
  {
    if i == 0 {
      AllClear(8);
    } else {
      MirroredIsPolynomial(i / 2);
      HalfOfBits(i / 2);
      FirstBit(i % 2 == 1, BitsOf(i / 2, 7));
      MirroredNext(Mirrored(i / 2), PolynomialOf(BitsOf(i / 2, 7)), i % 2);
    }
  }

  lemma MirroredNext(x: bv16, p: nat, bit: nat)
    requires Value(x) == 2 * p && p < 128 && bit < 2
    ensures Value(BitNext(x, bit)) == p + if bit == 1 then 128 else 0
  {
    HalfValue(x, p);
    if bit == 1 { AddTopBit(x); }
  }

  lemma HalfValue(x: bv16, p: nat)
    requires Value(x) == 2 * p
    ensures Value(Half(x)) == p
  {
    ValueParts(x);
  }

  lemma HalfOfBits(j: nat)
    requires j < 128
    ensures PolynomialOf(BitsOf(j, 8)) == 2 * PolynomialOf(BitsOf(j, 7))
    ensures PolynomialOf(BitsOf(j, 7)) < 128
  {
    OnesValues();
    TopBitClear(j, 7);
    LastClear(BitsOf(j, 7));
    PolynomialBound(BitsOf(j, 7));
  }

  lemma {:induction false} AllClear(n: nat)
    ensures PolynomialOf(BitsOf(0, n)) == 0
  {
    if n > 0 {
      AllClear(n - 1);
      TopBitClear(0, n - 1);
      LastClear(BitsOf(0, n - 1));
    }
  }

  lemma LastClear(bits: seq<bool>)
    ensures PolynomialOf(bits + [false]) == 2 * PolynomialOf(bits)
  {
    assert (bits + [false])[..|bits|] == bits;
  }

  lemma FirstBit(b: bool, bits: seq<bool>)
    requires |bits| == 7
    ensures PolynomialOf([b] + bits) == (if b then 128 else 0) + PolynomialOf(bits)
  {
    PolynomialAppend([b], bits);
    assert PolynomialOf([b]) == if b then 1 else 0;
    Powers();
    ShlZero(7);
  }

  lemma AddTopBit(m: bv16)
    requires Value(m) / 2 < 128
    ensures Value(Half(m) ^ 0x80) == Value(m) / 2 + 128
  {
    ValueParts(m);
    ValueXor(Half(m), 0x80);
    LowPowers();
    XorCommutes(Value(Half(m)), 0x80);
    Powers();
    OnesValues();
    XorDisjoint(1, Value(Half(m)), 7);
  }

  // ---- the routine

  lemma MessageGrows(p: seq<byte>, b: byte)
    ensures PolynomialOf(MessageBits(p + [b])) == Xor(Shl(PolynomialOf(MessageBits(p)), 8), PolynomialOf(BitsOf(b, 8)))
  {
    assert (p + [b])[..|p|] == p;
    LastByteApart(p + [b]);
  }

  /** One more byte: if c is the remainder of p, the next register is that of p + [b]. */
  lemma NextByte(p: seq<byte>, c: bv16, b: byte, r: bv16)
    requires IsRemainder(p, c) && Congruent(Shl(Value(c >> 8), 16), Value(r), GENERATOR)
    ensures IsRemainder(p + [b], r ^ (c << 8) ^ Mirrored(b))
  {
    var up := r ^ (c << 8);
    LookupIsShift(c, r);
    MirroredIsPolynomial(b);
    ValueXor(up, Mirrored(b));
    NextMessage(p, Value(c), b, Value(up));
  }

  lemma NextMessage(p: seq<byte>, v: nat, b: byte, u: nat)
    requires Congruent(PolynomialOf(MessageBits(p)), v, GENERATOR) && Congruent(Shl(v, 8), u, GENERATOR)
    ensures Congruent(PolynomialOf(MessageBits(p + [b])), Xor(u, PolynomialOf(BitsOf(b, 8))), GENERATOR)
  {
    var m := PolynomialOf(MessageBits(p));
    MessageGrows(p, b);
    CongruentShifts(m, v, 8);
    CongruentChains(Shl(m, 8), Shl(v, 8), u, GENERATOR);
    CongruentAdds(Shl(m, 8), u, PolynomialOf(BitsOf(b, 8)), GENERATOR);
  }

  /** The check sum of the first size bytes at p. */
  method CheckCRC(p: array<byte>, size: int) returns (crc: bv16)
    requires size <= p.Length
    ensures IsRemainder(if size < 0 then [] else p[..size], crc)
  {
    crc := 0;
    SameIsCongruent(0);
    var i := 0;
    while i < size
      invariant 0 <= i && (i <= size || i == 0)
      invariant IsRemainder(p[..i], crc)
    {
      var h := (crc >> 8) & 0xff;
      assert h == crc >> 8;
      ByteBound(h);
      OnesValues();
      var r := At(CrcTab16Rows(), Value(h));
      CrcTab16Entries(Value(h));
      ReducedIsShift(Value(h));
      NextByte(p[..i], crc, p[i], r);
      BitTableEntries(p[i]);
      assert p[..i + 1] == p[..i] + [p[i]];
      crc := r ^ (crc << 8) ^ At(BitTableRows(), p[i]);
      i := i + 1;
    }
  }

  /** Only one register value is the remainder, so the routine's result is determined. */
  lemma RemainderUnique(p: seq<byte>, c: bv16, d: bv16)
    requires IsRemainder(p, c) && IsRemainder(p, d)
    ensures c == d
  {
    var m := PolynomialOf(MessageBits(p));
    CongruentCommutes(m, Value(c));
    CongruentChains(Value(c), m, Value(d), GENERATOR);
    ValueBound(c);
    ValueBound(d);
    OnesValues();
    RemainderIsUnique(Value(c), Value(d), GENERATOR, 16);
    ValueDistinguishes(c, d);
  }

  /** Two messages of one length, byte by byte exclusive-ored. */
  function XorBytes(p: seq<byte>, q: seq<byte>): (r: seq<byte>)
    requires |p| == |q|
    ensures |r| == |p|
  {
    if p == [] then [] else
      XorBytes(p[..|p| - 1], q[..|q| - 1]) + [XorByte(p[|p| - 1], q[|q| - 1])]
  }

  function XorByte(a: byte, b: byte): byte {
    assert Ones(8) == 255;
    XorBound(a, b, 8);
    Xor(a, b)
  }

  lemma {:induction false} BitsOfXor(a: nat, b: nat, n: nat)
    ensures PolynomialOf(BitsOf(Xor(a, b), n)) == Xor(PolynomialOf(BitsOf(a, n)), PolynomialOf(BitsOf(b, n)))
  {
    if n > 0 {
      var p, x := LastBit(a, n);
      var q, y := LastBit(b, n);
      var r, z := LastBit(Xor(a, b), n);
      BitsOfXor(a, b, n - 1);
      XorBit(a, b, n - 1);
      XorAppend(p, q, x, y);
    }
  }

  lemma LastBit(x: nat, n: nat) returns (p: nat, b: bool)
    requires n > 0
    ensures p == PolynomialOf(BitsOf(x, n - 1)) && b == Bit(x, n - 1)
    ensures PolynomialOf(BitsOf(x, n)) == 2 * p + if b then 1 else 0
  {
    p, b := PolynomialOf(BitsOf(x, n - 1)), Bit(x, n - 1);
    BitsOfLast(x, n);
  }

  lemma {:induction false} BitsOfLast(x: nat, n: nat)
    requires n > 0
    ensures BitsOf(x, n) == BitsOf(x, n - 1) + [Bit(x, n - 1)]
  {
    if n > 1 { BitsOfLast(x / 2, n - 1); }
  }

  lemma XorAppend(x: nat, y: nat, a: bool, b: bool)
    ensures Xor(2 * x + (if a then 1 else 0), 2 * y + (if b then 1 else 0)) == 2 * Xor(x, y) + if a != b then 1 else 0
  {
    XorParts(2 * x + (if a then 1 else 0), 2 * y + (if b then 1 else 0));
  }

  lemma {:induction false} MessageOfXor(p: seq<byte>, q: seq<byte>)
    requires |p| == |q|
    ensures PolynomialOf(MessageBits(XorBytes(p, q)))
         == Xor(PolynomialOf(MessageBits(p)), PolynomialOf(MessageBits(q)))
  {
    if p != [] {
      var a, b, n := p[|p| - 1], q[|q| - 1], |p| - 1;
      MessageOfXor(p[..n], q[..n]);
      BitsOfXor(a, b, 8);
      LastByteApart(p);
      LastByteApart(q);
      LastByteApart(XorBytes(p, q));
      assert XorBytes(p, q)[..n] == XorBytes(p[..n], q[..n]);
      ShlXor(PolynomialOf(MessageBits(p[..n])), PolynomialOf(MessageBits(q[..n])), 8);
      XorPairs(Shl(PolynomialOf(MessageBits(p[..n])), 8), PolynomialOf(BitsOf(a, 8)),
               Shl(PolynomialOf(MessageBits(q[..n])), 8), PolynomialOf(BitsOf(b, 8)));
    }
  }

  lemma LastByteApart(p: seq<byte>)
    requires p != []
    ensures PolynomialOf(MessageBits(p))
         == Xor(Shl(PolynomialOf(MessageBits(p[..|p| - 1])), 8), PolynomialOf(BitsOf(p[|p| - 1], 8)))
  {
    var bits := BitsOf(p[|p| - 1], 8);
    PolynomialAppend(MessageBits(p[..|p| - 1]), bits);
    PolynomialBound(bits);
    XorDisjoint(PolynomialOf(MessageBits(p[..|p| - 1])), PolynomialOf(bits), 8);
  }

  lemma {:induction false} ShlXor(x: nat, y: nat, n: nat)
    ensures Shl(Xor(x, y), n) == Xor(Shl(x, n), Shl(y, n))
  {
    if n > 0 {
      ShlXor(x, y, n - 1);
      XorDoubles(Shl(x, n - 1), Shl(y, n - 1));
    }
  }

  /** Check sums add as messages do. */
  lemma CrcIsLinear(p: seq<byte>, q: seq<byte>, c: bv16, d: bv16)
    requires |p| == |q| && IsRemainder(p, c) && IsRemainder(q, d)
    ensures IsRemainder(XorBytes(p, q), c ^ d)
  {
    var m, n := PolynomialOf(MessageBits(p)), PolynomialOf(MessageBits(q));
    MessageOfXor(p, q);
    ValueXor(c, d);
    XorPairs(m, n, Value(c), Value(d));
    MultipleOfSum(Xor(m, Value(c)), Xor(n, Value(d)), GENERATOR);
  }
}
