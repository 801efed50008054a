/** The bit packer of server_util.c: bits fill each byte from the low end, and a
    field may straddle two bytes.

    The mask tables are the intended ones, 2^n - 1.  The tables in the source
    spell those numbers' binary digits with a 0x prefix; LiteralMasks.dfy says
    what they do when read literally. */
module BitPacker {
  import opened Bytes
  import opened Bits

  /** modifymask_first[m][w] */
  function FirstMask(m: nat, w: nat): nat {
    if w == 0 then 0 else Ones(Min(8, m + w))
  }

  /** modifymask_second[m][w] */
  function SecondMask(m: nat, w: nat): nat {
    if w == 0 || m + w <= 8 then 0 else Ones(m + w - 8)
  }

  function PutFirst(old0: byte, m: nat, w: nat, b: byte): nat {
    Or(And(old0, FirstMask(m, w)), And(Shl(b, m), FirstMask(m, w)))
  }

  function PutSecond(old1: byte, m: nat, w: nat, b: byte): nat
    requires m < 8
  {
    Or(And(old1, SecondMask(m, w)), And(Shr(b, 8 - m), SecondMask(m, w)))
  }

  function Get(b0: byte, b1: byte, m: nat, w: nat): nat
    requires m < 8
  {
    Or(Shr(And(b0, FirstMask(m, w)), m), Shl(And(b1, SecondMask(m, w)), 8 - m))
  }

  lemma FirstMaskBit(m: nat, w: nat, k: nat)
    ensures Bit(FirstMask(m, w), k) == (w > 0 && k < 8 && k < m + w)
  {
    ZeroBit(k);
    if w > 0 { OnesBit(Min(8, m + w), k); }
  }

  lemma SecondMaskBit(m: nat, w: nat, k: nat)
    ensures Bit(SecondMask(m, w), k) == (w > 0 && k + 8 < m + w)
  {
    ZeroBit(k);
    if w > 0 && m + w > 8 { OnesBit(m + w - 8, k); }
  }

  lemma PutFirstBit(old0: byte, m: nat, w: nat, b: byte, k: nat)
    requires w > 0
    ensures Bit(PutFirst(old0, m, w, b), k) ==
            (k < 8 && k < m + w && (Bit(old0, k) || (k >= m && Bit(b, k - m))))
  {
    var mask := FirstMask(m, w);
    OrBit(And(old0, mask), And(Shl(b, m), mask), k);
    AndBit(old0, mask, k);
    AndBit(Shl(b, m), mask, k);
    FirstMaskBit(m, w, k);
    ShlBit(b, m, k);
  }

  lemma PutSecondBit(old1: byte, m: nat, w: nat, b: byte, k: nat)
    requires w > 0 && m < 8
    ensures Bit(PutSecond(old1, m, w, b), k) ==
            (k + 8 < m + w && (Bit(old1, k) || Bit(b, k + 8 - m)))
  {
    var mask := SecondMask(m, w);
    OrBit(And(old1, mask), And(Shr(b, 8 - m), mask), k);
    AndBit(old1, mask, k);
    AndBit(Shr(b, 8 - m), mask, k);
    SecondMaskBit(m, w, k);
    ShrBit(b, 8 - m, k);
  }

  lemma GetBit(b0: byte, b1: byte, m: nat, w: nat, k: nat)
    requires w > 0 && m < 8
    ensures Bit(Get(b0, b1, m, w), k) ==
            (k < w && (if m + k < 8 then Bit(b0, m + k) else Bit(b1, m + k - 8)))
  {
    var f, s := FirstMask(m, w), SecondMask(m, w);
    OrBit(Shr(And(b0, f), m), Shl(And(b1, s), 8 - m), k);
    ShrBit(And(b0, f), m, k);
    ShlBit(And(b1, s), 8 - m, k);
    AndBit(b0, f, k + m);
    FirstMaskBit(m, w, k + m);
    if k >= 8 - m {
      AndBit(b1, s, k - (8 - m));
      SecondMaskBit(m, w, k - (8 - m));
    }
  }

  lemma PutIsByte(old0: byte, old1: byte, m: nat, w: nat, b: byte)
    requires 1 <= w <= 8 && m < 8
    ensures PutFirst(old0, m, w, b) < 256 && PutSecond(old1, m, w, b) < 256
  {
    forall k: nat | k >= 8 ensures !Bit(PutFirst(old0, m, w, b), k) { PutFirstBit(old0, m, w, b, k); }
    forall k: nat | k >= 8 ensures !Bit(PutSecond(old1, m, w, b), k) { PutSecondBit(old1, m, w, b, k); }
    BitsBound(PutFirst(old0, m, w, b), 8);
    BitsBound(PutSecond(old1, m, w, b), 8);
    OnesByte();
  }

  lemma OnesByte()
    ensures Ones(8) == 255
  {
    assert Ones(4) == 15;
    assert Ones(6) == 63;
  }

  /** Bit p of a byte buffer. */
  predicate StreamBit(bs: seq<byte>, p: nat) {
    p / 8 < |bs| && Bit(bs[p / 8], p % 8)
  }

  /** The w bits from position p. */
  function Field(bs: seq<byte>, p: nat, w: nat): (bits: seq<bool>)
    ensures |bits| == w
  {
    seq(w, k requires 0 <= k < w => StreamBit(bs, p + k))
  }

  /** Below n, the buffer's set bits are exactly those of bits. */
  ghost predicate HoldsBelow(bs: seq<byte>, bits: seq<bool>, n: nat) {
    n == 0 || (StreamBit(bs, n - 1) == (n <= |bits| && bits[n - 1]) && HoldsBelow(bs, bits, n - 1))
  }

  /** Bits inside a prefix do not depend on what follows it. */
  lemma FieldInPrefix(bs: seq<byte>, part: seq<byte>, p: nat, w: nat)
    requires part <= bs && p + w <= 8 * |part|
    ensures Field(bs, p, w) == Field(part, p, w)
  {
    forall k | 0 <= k < w ensures Field(bs, p, w)[k] == Field(part, p, w)[k] {
      var q := (p + k) / 8;
      assert q < |part| && bs[q] == part[q];
      assert Field(bs, p, w)[k] == StreamBit(bs, p + k);
      assert Field(part, p, w)[k] == StreamBit(part, p + k);
    }
  }

  /** The buffer's set bits are those of bits, and none above them. */
  ghost predicate Holds(bs: seq<byte>, bits: seq<bool>) {
    HoldsBelow(bs, bits, 8 * |bs|)
  }

  lemma {:induction false} HoldsBelowIff(bs: seq<byte>, bits: seq<bool>, n: nat)
    ensures HoldsBelow(bs, bits, n) <==>
            forall q: nat :: q < n ==> StreamBit(bs, q) == (q < |bits| && bits[q])
  {
    if n > 0 { HoldsBelowIff(bs, bits, n - 1); }
  }

  lemma HoldsField(bs: seq<byte>, bits: seq<bool>, p: nat, w: nat)
    requires Holds(bs, bits) && p + w <= |bits| <= 8 * |bs|
    ensures Field(bs, p, w) == bits[p..p + w]
  {
    HoldsBelowIff(bs, bits, 8 * |bs|);
  }

  /** The two bytes that writeOutputBitStreamBody changes. */
  function Put(bs: seq<byte>, p: nat, w: nat, b: byte): (r: seq<byte>)
    requires 1 <= w <= 8 && p / 8 + 1 < |bs|
    ensures |r| == |bs|
  {
    var i, m := p / 8, p % 8;
    PutIsByte(bs[i], bs[i + 1], m, w, b);
    bs[i := PutFirst(bs[i], m, w, b)][i + 1 := PutSecond(bs[i + 1], m, w, b)]
  }

  lemma PutStreamBit(bs: seq<byte>, p: nat, w: nat, b: byte, q: nat)
    requires 1 <= w <= 8 && p / 8 + 1 < |bs| && (q >= p ==> !StreamBit(bs, q))
    ensures StreamBit(Put(bs, p, w, b), q) ==
            if q < p then StreamBit(bs, q) else q < p + w && Bit(b, q - p)
  {
    var i, m := p / 8, p % 8;
    if q / 8 == i {
      PutFirstBit(bs[i], m, w, b, q % 8);
    } else if q / 8 == i + 1 {
      PutSecondBit(bs[i + 1], m, w, b, q % 8);
      assert q % 8 + 8 - m == q - p;
    }
  }

  /** Writing appends the low w bits of b and leaves nothing above them. */
  lemma PutAppends(bs: seq<byte>, bits: seq<bool>, w: nat, b: byte)
    requires 1 <= w <= 8 && |bits| / 8 + 1 < |bs| && Holds(bs, bits)
    ensures Holds(Put(bs, |bits|, w, b), bits + BitsOf(b, w))
  {
    var p, r, bits' := |bits|, Put(bs, |bits|, w, b), bits + BitsOf(b, w);
    HoldsBelowIff(bs, bits, 8 * |bs|);
    forall q: nat | q < 8 * |bs| ensures StreamBit(r, q) == (q < |bits'| && bits'[q]) {
      PutStreamBit(bs, p, w, b, q);
      if p <= q < |bits'| { BitsOfAt(b, w, q - p); }
    }
    HoldsBelowIff(r, bits', 8 * |r|);
  }

  lemma GetReads(bs: seq<byte>, p: nat, w: nat)
    requires 1 <= w <= 8 && p / 8 + 1 < |bs|
    ensures Get(bs[p / 8], bs[p / 8 + 1], p % 8, w) == FromBits(Field(bs, p, w))
  {
    var m := p % 8;
    var x := Get(bs[p / 8], bs[p / 8 + 1], m, w);
    forall k: nat ensures Bit(x, k) == (k < w && Field(bs, p, w)[k]) {
      GetBit(bs[p / 8], bs[p / 8 + 1], m, w, k);
      if k < w {
        assert p + k == 8 * (p / 8) + (m + k);
        assert Field(bs, p, w)[k] == StreamBit(bs, p + k);
      }
    }
    IsFromBits(x, Field(bs, p, w));
  }

  lemma LowByteBit(x: nat, k: nat)
    ensures Bit(And(x, 255), k) == (k < 8 && Bit(x, k))
  {
    OnesByte();
    AndBit(x, 255, k);
    OnesBit(8, k);
  }

  /** The low byte and the rest, written one after the other, are dat. */
  lemma LowByteFirst(dat: nat, w: nat)
    requires w > 8
    ensures And(dat, 255) < 256
    ensures BitsOf(And(dat, 255), 8) + BitsOf(Shr(dat, 8), w - 8) == BitsOf(dat, w)
  {
    LowByte(dat, 8);
    var lo, hi := And(dat, 255), Shr(dat, 8);
    forall k | 0 <= k < w ensures (BitsOf(lo, 8) + BitsOf(hi, w - 8))[k] == BitsOf(dat, w)[k] {
      BitsOfAt(dat, w, k);
      if k < 8 {
        BitsOfAt(lo, 8, k);
        LowByteBit(dat, k);
      } else {
        BitsOfAt(hi, w - 8, k - 8);
        ShrBit(dat, 8, k - 8);
      }
    }
  }

  /** The low byte keeps the low eight bits. */
  lemma LowByte(dat: nat, w: nat)
    requires w <= 8
    ensures And(dat, 255) < 256 && BitsOf(And(dat, 255), w) == BitsOf(dat, w)
  {
    var lo := And(dat, 255);
    forall k: nat ensures Bit(lo, k) == (k < 8 && Bit(dat, k)) {
      LowByteBit(dat, k);
    }
    BitsBound(lo, 8);
    OnesByte();
    forall k | 0 <= k < w ensures BitsOf(lo, w)[k] == BitsOf(dat, w)[k] {
      BitsOfAt(lo, w, k);
      BitsOfAt(dat, w, k);
    }
  }

  /** (unsigned char)dat */
  function Low(dat: nat): byte {
    LowByte(dat, 8);
    And(dat, 255)
  }

  /** A piece at position p of a buffer of n bytes can be written: the byte behind the
      one that it starts in is there too. */
  predicate Room(p: nat, n: nat)
    decreases n
  {
    n >= 2 && (p < 8 || Room(p - 8, n - 1))
  }

  lemma {:induction false} RoomIff(p: nat, n: nat)
    ensures Room(p, n) <==> p + 8 < 8 * n
    ensures Room(p, n) <==> p / 8 + 1 < n
    decreases n
  {
    if n >= 2 && p >= 8 {
      RoomIff(p - 8, n - 1);
      assert (p - 8) / 8 == p / 8 - 1;
    }
  }

  /** A field of w bits can be written byte by byte. */
  predicate RoomFor(p: nat, w: nat, n: nat)
    decreases w
  {
    Room(p, n) && (w <= 8 || RoomFor(p + 8, w - 8, n))
  }

  /** The byte that the last of its pieces starts in. */
  function LastByte(p: nat, w: nat): (i: nat)
    ensures i >= p / 8
    decreases w
  {
    if w <= 8 then p / 8 else LastByte(p + 8, w - 8)
  }

  lemma {:induction false} RoomForIff(p: nat, w: nat, n: nat)
    ensures RoomFor(p, w, n) <==> LastByte(p, w) + 1 < n
    ensures RoomFor(p, w, n) ==> p + w <= 8 * n
    decreases w
  {
    RoomIff(p, n);
    if w > 8 { RoomForIff(p + 8, w - 8, n); }
  }

  lemma FieldSplits(bs: seq<byte>, p: nat, a: nat, b: nat)
    ensures Field(bs, p, a + b) == Field(bs, p, a) + Field(bs, p + a, b)
  {
  }

  /** A width and a value that fits it. */
  datatype Item = Item(width: nat, value: nat)

  predicate Packable(items: seq<Item>) {
    forall i :: 0 <= i < |items| ==> 1 <= items[i].width <= 16 && items[i].value <= Ones(items[i].width)
  }

  function Packed(items: seq<Item>): (bits: seq<bool>) {
    if items == [] then [] else BitsOf(items[0].value, items[0].width) + Packed(items[1..])
  }

  /** Every write of items, from position p of a buffer of n bytes, succeeds. */
  predicate FitsIn(p: nat, items: seq<Item>, n: nat)
    decreases |items|
  {
    items == [] ||
    (RoomFor(p, items[0].width, n) && FitsIn(p + items[0].width, items[1..], n))
  }

  lemma {:induction false} FitsInBits(p: nat, items: seq<Item>, n: nat)
    requires FitsIn(p, items, n) && p <= 8 * n
    ensures p + |Packed(items)| <= 8 * n
    decreases |items|
  {
    if items != [] {
      var w := items[0].width;
      RoomForIff(p, w, n);
      FitsInBits(p + w, items[1..], n);
    }
  }

  /** What reading the same widths in turn, from position p, returns. */
  function Unpacked(bs: seq<byte>, p: nat, items: seq<Item>): (values: seq<nat>)
    decreases |items|
  {
    if items == [] then [] else
      var w := items[0].width;
      [FromBits(Field(bs, p, w))] + Unpacked(bs, p + w, items[1..])
  }

  function Values(items: seq<Item>): (values: seq<nat>) {
    if items == [] then [] else [items[0].value] + Values(items[1..])
  }

  lemma {:induction false} PackedAppend(items: seq<Item>, it: Item)
    ensures Packed(items + [it]) == Packed(items) + BitsOf(it.value, it.width)
  {
    if items == [] {
      assert items + [it] == [it];
    } else {
      PackedAppend(items[1..], it);
      assert (items + [it])[1..] == items[1..] + [it];
    }
  }

  /** Packing and then reading the same widths gives the same values. */
  lemma {:induction false} PackerRoundTrip(bs: seq<byte>, p: nat, items: seq<Item>)
    requires Packable(items)
    requires Field(bs, p, |Packed(items)|) == Packed(items)
    ensures Unpacked(bs, p, items) == Values(items)
    decreases |items|
  {
    if items != [] {
      var it, more := items[0], Packed(items[1..]);
      FieldSplits(bs, p, it.width, |more|);
      var whole := Field(bs, p, |Packed(items)|);
      assert Field(bs, p, it.width) == whole[..it.width] == BitsOf(it.value, it.width);
      assert Field(bs, p + it.width, |more|) == whole[it.width..] == more;
      FromBitsOf(it.value, it.width);
      PackerRoundTrip(bs, p + it.width, items[1..]);
    }
  }
}
