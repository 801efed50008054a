/** The bit packer under the mask tables of server_util.c read literally.  Each
    entry is a row of hexadecimal ones (0x111 where 0x7 is meant), so it keeps
    one bit in four, and reaches past the end of its field. */
module LiteralMasks {
  import opened Bytes
  import opened Bits
  import opened BitPacker

  /** n hexadecimal digits, all one. */
  function HexOnes(n: nat): nat {
    if n == 0 then 0 else Shl(HexOnes(n - 1), 4) + 1
  }

  function LiteralFirst(m: nat, w: nat): nat {
    if w == 0 then 0 else HexOnes(Min(8, m + w))
  }

  function LiteralSecond(m: nat, w: nat): nat {
    if w == 0 || m + w <= 8 then 0 else HexOnes(m + w - 8)
  }

  /** A char of the buffer masked and merged with x, and stored again. */
  function Merged(old0: byte, mask: nat, x: nat): byte {
    LowByte(Or(And(old0, mask), And(x, mask)), 8);
    And(Or(And(old0, mask), And(x, mask)), 255)
  }

  /** The two bytes that writeOutputBitStreamBody changes, for a field at bit m of byte i. */
  function PutAt(bs: seq<byte>, i: nat, m: nat, w: nat, b: byte): (r: seq<byte>)
    requires i + 1 < |bs| && m < 8
    ensures |r| == |bs|
  {
    bs[i := Merged(bs[i], LiteralFirst(m, w), Shl(b, m))]
      [i + 1 := Merged(bs[i + 1], LiteralSecond(m, w), Shr(b, 8 - m))]
  }

  /** writeOutputBitStreamBody, byte by byte up to the one that position p is in. */
  function LiteralPut(bs: seq<byte>, p: nat, w: nat, b: byte): (r: seq<byte>)
    requires Room(p, |bs|)
    ensures |r| == |bs|
    decreases p
  {
    if p < 8 then PutAt(bs, 0, p, w, b) else [bs[0]] + LiteralPut(bs[1..], p - 8, w, b)
  }

  /** That byte is p / 8. */
  lemma {:induction false} LiteralPutIsAt(bs: seq<byte>, p: nat, i: nat, m: nat, w: nat, b: byte)
    requires p == 8 * i + m && i + 1 < |bs| && m < 8 && Room(p, |bs|)
    ensures LiteralPut(bs, p, w, b) == PutAt(bs, i, m, w, b)
    decreases i
  {
    if i > 0 {
      LiteralPutIsAt(bs[1..], p - 8, i - 1, m, w, b);
      assert LiteralPut(bs, p, w, b) == [bs[0]] + LiteralPut(bs[1..], p - 8, w, b);
      ShiftPut(bs, i, m, w, b);
    } else {
      assert p == m;
    }
  }

  lemma ShiftPut(bs: seq<byte>, i: nat, m: nat, w: nat, b: byte)
    requires 0 < i && i + 1 < |bs| && m < 8
    ensures [bs[0]] + PutAt(bs[1..], i - 1, m, w, b) == PutAt(bs, i, m, w, b)
  {
    ShiftUpdates(bs, i, Merged(bs[i], LiteralFirst(m, w), Shl(b, m)),
                 Merged(bs[i + 1], LiteralSecond(m, w), Shr(b, 8 - m)));
  }

  lemma ShiftUpdates(bs: seq<byte>, i: nat, x: byte, y: byte)
    requires 0 < i && i + 1 < |bs|
    ensures [bs[0]] + bs[1..][i - 1 := x][i := y] == bs[i := x][i + 1 := y]
    ensures bs[1..][i - 1] == bs[i] && bs[1..][i] == bs[i + 1]
  {
  }

  /** What readInputBitStreamBody makes of a byte and the one behind it, for a field at
      bit m.  The writer leaves the top bit of every byte clear, so it does not matter
      that char may be signed. */
  function GetAt(b0: byte, b1: byte, m: nat, w: nat): nat
    requires m < 8
  {
    Or(Shr(And(b0, LiteralFirst(m, w)), m), Shl(And(b1, LiteralSecond(m, w)), 8 - m))
  }

  /** readInputBitStreamBody. */
  function LiteralGet(bs: seq<byte>, p: nat, w: nat): nat
    requires Room(p, |bs|)
    decreases p
  {
    if p < 8 then GetAt(bs[0], bs[1], p, w) else LiteralGet(bs[1..], p - 8, w)
  }

  lemma {:induction false} LiteralGetIsAt(bs: seq<byte>, p: nat, i: nat, m: nat, w: nat)
    requires p == 8 * i + m && i + 1 < |bs| && m < 8 && Room(p, |bs|)
    ensures LiteralGet(bs, p, w) == GetAt(bs[i], bs[i + 1], m, w)
    decreases i
  {
    if i > 0 {
      LiteralGetIsAt(bs[1..], p - 8, i - 1, m, w);
      assert bs[1..][i - 1] == bs[i] && bs[1..][i] == bs[i + 1];
    } else {
      assert p == m;
    }
  }

  /** Pieces of at most eight bits. */
  predicate Narrow(pieces: seq<Item>) {
    forall i :: 0 <= i < |pieces| ==> 1 <= pieces[i].width <= 8 && pieces[i].value <= Ones(pieces[i].width)
  }

  /** The writes of writeOutputBitStreamBody that pieces stand for, from position p. */
  function PutPieces(bs: seq<byte>, p: nat, pieces: seq<Item>): (r: seq<byte>)
    requires Narrow(pieces) && FitsIn(p, pieces, |bs|)
    ensures |r| == |bs|
    decreases |pieces|
  {
    if pieces == [] then bs
    else
      OnePiece(p, pieces, |bs|);
      PutPieces(LiteralPut(bs, p, pieces[0].width, pieces[0].value), p + pieces[0].width, pieces[1..])
  }

  lemma OnePiece(p: nat, pieces: seq<Item>, n: nat)
    requires pieces != [] && Narrow(pieces) && FitsIn(p, pieces, n)
    ensures Room(p, n) && pieces[0].value < 256 && Narrow(pieces[1..])
    ensures FitsIn(p + pieces[0].width, pieces[1..], n)
  {
    OnesByte();
    OnesMonotone(pieces[0].width, 8);
  }

  /** The pieces in which writeOutputBitStream writes dat: whole bytes, low byte first, and the rest. */
  function PiecesOf(w: nat, dat: nat): (pieces: seq<Item>)
    requires 1 <= w
    ensures pieces != []
  {
    if w <= 8 then [Item(w, Low(dat))] else [Item(8, Low(dat))] + PiecesOf(w - 8, Shr(dat, 8))
  }

  function AllPieces(items: seq<Item>): seq<Item>
    requires Packable(items)
  {
    if items == [] then [] else PiecesOf(items[0].width, items[0].value) + AllPieces(items[1..])
  }

  /** readInputBitStream for widths up to 16. */
  function LiteralRead(bs: seq<byte>, p: nat, w: nat): nat
    requires 1 <= w <= 16 && RoomFor(p, w, |bs|)
  {
    if w <= 8 then LiteralGet(bs, p, w)
    else
      assert RoomFor(p + 8, w - 8, |bs|);
      LiteralGet(bs, p, 8) + Shl(LiteralGet(bs, p + 8, w - 8), 8)
  }

  /** Reading the widths of items in turn from position p. */
  function LiteralUnpacked(bs: seq<byte>, p: nat, items: seq<Item>): (values: seq<nat>)
    requires Packable(items) && FitsIn(p, items, |bs|)
    decreases |items|
  {
    if items == [] then []
    else [LiteralRead(bs, p, items[0].width)] + LiteralUnpacked(bs, p + items[0].width, items[1..])
  }

  // ---- what a run of items must look like to survive

  predicate BitAt(bits: seq<bool>, q: nat) {
    q < |bits| && bits[q]
  }

  /** The set bits of the w bits from p are at multiples of four. */
  predicate OnGrid(bits: seq<bool>, p: nat, w: nat) {
    forall q: nat :: p <= q < p + w && BitAt(bits, q) ==> q % 4 == 0
  }

  /** The one bit behind a field that ends at e which its mask takes in as well, or -1:
      the middle of the byte, if the field ends in the first half of it. */
  function StrayOf(e: nat): int {
    if e >= 8 then ByteOn(StrayOf(e - 8)) else if 2 <= e <= 4 then 4 else -1
  }

  /** The same place in the next byte. */
  function ByteOn(s: int): int {
    if s < 0 then s else s + 8
  }

  lemma {:induction false} StrayPlace(e: nat)
    ensures StrayOf(e) == if 2 <= e % 8 <= 4 then 8 * (e / 8) + 4 else -1
  {
    if e >= 8 {
      StrayPlace(e - 8);
      assert (e - 8) / 8 == e / 8 - 1 && (e - 8) % 8 == e % 8;
    }
  }

  predicate NoStray(bits: seq<bool>, s: int) {
    s >= 0 ==> !BitAt(bits, s)
  }

  /** The mask of a field that ends at e takes in no set bit behind it. */
  predicate ClearBehind(bits: seq<bool>, e: nat) {
    NoStray(bits, StrayOf(e))
  }

  /** Of the bits of a run, the field of w bits from p comes back: each of its set
      bits is on the grid, and so are its neighbours that the masks of its pieces
      take in clear. */
  predicate FieldSurvives(bits: seq<bool>, p: nat, w: nat) {
    OnGrid(bits, p, w) && ClearBehind(bits, p + w) && (w > 8 ==> ClearBehind(bits, p + 8))
  }

  predicate Survives(bits: seq<bool>, p: nat, items: seq<Item>)
    decreases |items|
  {
    items == [] || (FieldSurvives(bits, p, items[0].width) && Survives(bits, p + items[0].width, items[1..]))
  }

  // ---- the masks, bit by bit

  lemma {:induction false} HexOnesBit(n: nat, k: nat)
    ensures Bit(HexOnes(n), k) == (k % 4 == 0 && k / 4 < n)
  {
    ZeroBit(k);
    if n > 0 {
      var x := Shl(HexOnes(n - 1), 4);
      ShlBit(HexOnes(n - 1), 4, k);
      EvenShift(HexOnes(n - 1));
      if k > 0 { assert Bit(x + 1, k) == Bit(x, k) by { assert (x + 1) / 2 == x / 2; } }
      if k >= 4 { HexOnesBit(n - 1, k - 4); }
    }
  }

  lemma EvenShift(x: nat)
    ensures Shl(x, 4) % 2 == 0
  {
    assert Shl(x, 4) == 2 * Shl(x, 3);
  }

  lemma FirstBit(m: nat, w: nat, k: nat)
    requires w > 0 && k < 8
    ensures Bit(LiteralFirst(m, w), k) == (k % 4 == 0 && k / 4 < m + w)
  {
    HexOnesBit(Min(8, m + w), k);
  }

  lemma SecondBit(m: nat, w: nat, k: nat)
    requires w > 0 && k < 8
    ensures Bit(LiteralSecond(m, w), k) == (k % 4 == 0 && k / 4 + 8 < m + w)
  {
    ZeroBit(k);
    if m + w > 8 { HexOnesBit(m + w - 8, k); }
  }

  lemma MergedBit(old0: byte, mask: nat, x: nat, k: nat)
    ensures Bit(Merged(old0, mask, x), k) == (k < 8 && Bit(mask, k) && (Bit(old0, k) || Bit(x, k)))
  {
    LowByteBit(Or(And(old0, mask), And(x, mask)), k);
    OrBit(And(old0, mask), And(x, mask), k);
    AndBit(old0, mask, k);
    AndBit(x, mask, k);
  }

  /** A byte has eight bits. */
  lemma ByteBit(b: byte, k: nat)
    requires k >= 8
    ensures !Bit(b, k)
  {
    OnesByte();
    NoHighBit(b, 8, k);
  }

  // ---- writing

  /** What a piece leaves at bit k of its first byte ... */
  lemma PutFirstBit(old0: byte, m: nat, w: nat, b: byte, k: nat)
    requires 1 <= w && b <= Ones(w) && k < 8
    requires Bit(old0, k) ==> k < m && k % 4 == 0
    ensures Bit(Merged(old0, LiteralFirst(m, w), Shl(b, m)), k) ==
            if k < m then Bit(old0, k) else k < m + w && k % 4 == 0 && Bit(b, k - m)
  {
    MergedBit(old0, LiteralFirst(m, w), Shl(b, m), k);
    FirstBit(m, w, k);
    ShlBit(b, m, k);
    if k >= m + w { NoHighBit(b, w, k - m); }
  }

  /** ... and of its second. */
  lemma PutSecondBit(old1: byte, m: nat, w: nat, b: byte, k: nat)
    requires 1 <= w && b <= Ones(w) && k < 8 && m < 8 && !Bit(old1, k)
    ensures Bit(Merged(old1, LiteralSecond(m, w), Shr(b, 8 - m)), k) ==
            (k + 8 < m + w && k % 4 == 0 && Bit(b, k + (8 - m)))
  {
    MergedBit(old1, LiteralSecond(m, w), Shr(b, 8 - m), k);
    SecondBit(m, w, k);
    ShrBit(b, 8 - m, k);
    if k + (8 - m) >= w { NoHighBit(b, w, k + (8 - m)); }
  }

  // ---- what the buffer holds

  /** Bit k of byte j, when that byte is b: on the grid that of bits, off it clear. */
  predicate GridBit(b: byte, bits: seq<bool>, j: nat, k: nat) {
    Bit(b, k) == (k % 4 == 0 && BitAt(bits, 8 * j + k))
  }

  predicate GridByte(b: byte, bits: seq<bool>, j: nat) {
    forall k: nat :: k < 8 ==> GridBit(b, bits, j, k)
  }

  ghost predicate GridBelow(bs: seq<byte>, bits: seq<bool>, n: nat)
    requires n <= |bs|
  {
    n == 0 || (GridByte(bs[n - 1], bits, n - 1) && GridBelow(bs, bits, n - 1))
  }

  /** The buffer holds of bits what is on the grid, and nothing else. */
  ghost predicate GridHolds(bs: seq<byte>, bits: seq<bool>) {
    GridBelow(bs, bits, |bs|)
  }

  lemma {:induction false} GridBelowIff(bs: seq<byte>, bits: seq<bool>, n: nat)
    requires n <= |bs|
    ensures GridBelow(bs, bits, n) <==> forall j: nat :: j < n ==> GridByte(bs[j], bits, j)
  {
    if n > 0 { GridBelowIff(bs, bits, n - 1); }
  }

  lemma AppendedBit(bits: seq<bool>, w: nat, b: nat, q: nat)
    ensures BitAt(bits + BitsOf(b, w), q) ==
            if q < |bits| then bits[q] else q < |bits| + w && Bit(b, q - |bits|)
  {
    if |bits| <= q < |bits| + w { BitsOfAt(b, w, q - |bits|); }
  }

  lemma PutKeepsFirst(old0: byte, bits: seq<bool>, i: nat, m: nat, w: nat, b: byte, k: nat)
    requires 1 <= w <= 8 && b <= Ones(w) && m < 8 && |bits| == 8 * i + m
    requires k < 8 && GridBit(old0, bits, i, k)
    ensures GridBit(Merged(old0, LiteralFirst(m, w), Shl(b, m)), bits + BitsOf(b, w), i, k)
  {
    PutFirstBit(old0, m, w, b, k);
    AppendedBit(bits, w, b, 8 * i + k);
  }

  lemma PutKeepsSecond(old1: byte, bits: seq<bool>, i: nat, m: nat, w: nat, b: byte, k: nat)
    requires 1 <= w <= 8 && b <= Ones(w) && m < 8 && |bits| == 8 * i + m
    requires k < 8 && GridBit(old1, bits, i + 1, k)
    ensures GridBit(Merged(old1, LiteralSecond(m, w), Shr(b, 8 - m)), bits + BitsOf(b, w), i + 1, k)
  {
    PutSecondBit(old1, m, w, b, k);
    AppendedBit(bits, w, b, 8 * (i + 1) + k);
  }

  lemma PutKeepsBit(bs: seq<byte>, bits: seq<bool>, i: nat, m: nat, w: nat, b: byte, j: nat, k: nat)
    requires 1 <= w <= 8 && b <= Ones(w) && i + 1 < |bs| && m < 8 && |bits| == 8 * i + m
    requires j < |bs| && k < 8 && GridBit(bs[j], bits, j, k)
    ensures GridBit(PutAt(bs, i, m, w, b)[j], bits + BitsOf(b, w), j, k)
  {
    if j == i {
      PutKeepsFirst(bs[i], bits, i, m, w, b, k);
    } else if j == i + 1 {
      PutKeepsSecond(bs[i + 1], bits, i, m, w, b, k);
    } else {
      AppendedBit(bits, w, b, 8 * j + k);
    }
  }

  lemma PutKeepsGrid(bs: seq<byte>, bits: seq<bool>, w: nat, b: byte)
    requires 1 <= w <= 8 && b <= Ones(w) && Room(|bits|, |bs|) && GridHolds(bs, bits)
    ensures GridHolds(LiteralPut(bs, |bits|, w, b), bits + BitsOf(b, w))
  {
    RoomIff(|bits|, |bs|);
    LiteralPutIsAt(bs, |bits|, |bits| / 8, |bits| % 8, w, b);
    PutAtKeepsGrid(bs, bits, |bits| / 8, |bits| % 8, w, b);
  }

  lemma PutAtKeepsGrid(bs: seq<byte>, bits: seq<bool>, i: nat, m: nat, w: nat, b: byte)
    requires 1 <= w <= 8 && b <= Ones(w) && i + 1 < |bs| && m < 8 && |bits| == 8 * i + m
    requires GridHolds(bs, bits)
    ensures GridHolds(PutAt(bs, i, m, w, b), bits + BitsOf(b, w))
  {
    var r, bits' := PutAt(bs, i, m, w, b), bits + BitsOf(b, w);
    GridBelowIff(bs, bits, |bs|);
    forall j: nat, k: nat | j < |r| && k < 8 ensures GridBit(r[j], bits', j, k) {
      assert GridByte(bs[j], bits, j);
      PutKeepsBit(bs, bits, i, m, w, b, j, k);
    }
    GridBelowIff(r, bits', |r|);
  }

  lemma LowByteBound(dat: nat, w: nat)
    requires 1 <= w && dat <= Ones(w)
    ensures And(dat, 255) <= Ones(Min(w, 8)) && (w <= 8 ==> And(dat, 255) == dat)
  {
    var n := Min(w, 8);
    forall k: nat | k >= n ensures !Bit(And(dat, 255), k) {
      LowByteBit(dat, k);
      if k >= w { NoHighBit(dat, w, k); }
    }
    BitsBound(And(dat, 255), n);
    if w <= 8 {
      forall k: nat ensures Bit(And(dat, 255), k) == Bit(dat, k) {
        LowByteBit(dat, k);
        if k >= 8 { NoHighBit(dat, w, k); }
      }
      SameBits(And(dat, 255), dat);
    }
  }

  lemma {:induction false} PutPiecesKeepGrid(bs: seq<byte>, bits: seq<bool>, pieces: seq<Item>)
    requires Narrow(pieces) && FitsIn(|bits|, pieces, |bs|) && GridHolds(bs, bits)
    ensures GridHolds(PutPieces(bs, |bits|, pieces), bits + Packed(pieces))
    decreases |pieces|
  {
    if pieces == [] {
      assert bits + Packed(pieces) == bits;
    } else {
      var bs', bits' := PutOneKeepsGrid(bs, bits, pieces);
      PutPiecesKeepGrid(bs', bits', pieces[1..]);
    }
  }

  lemma PutOneKeepsGrid(bs: seq<byte>, bits: seq<bool>, pieces: seq<Item>) returns (bs': seq<byte>, bits': seq<bool>)
    requires pieces != [] && Narrow(pieces) && FitsIn(|bits|, pieces, |bs|) && GridHolds(bs, bits)
    ensures Narrow(pieces[1..]) && FitsIn(|bits'|, pieces[1..], |bs'|) && GridHolds(bs', bits')
    ensures |bs'| == |bs| && PutPieces(bs, |bits|, pieces) == PutPieces(bs', |bits'|, pieces[1..])
    ensures bits' + Packed(pieces[1..]) == bits + Packed(pieces)
  {
    var w, b := pieces[0].width, pieces[0].value;
    OnePiece(|bits|, pieces, |bs|);
    bs', bits' := LiteralPut(bs, |bits|, w, b), bits + BitsOf(b, w);
    PutKeepsGrid(bs, bits, w, b);
    Assoc(bits, BitsOf(b, w), Packed(pieces[1..]));
  }

  // ---- pieces

  lemma NextPiece(w: nat, dat: nat)
    requires w > 8 && dat <= Ones(w)
    ensures Shr(dat, 8) <= Ones(w - 8)
  {
    forall k: nat | k >= w - 8 ensures !Bit(Shr(dat, 8), k) {
      ShrBit(dat, 8, k);
      NoHighBit(dat, w, k + 8);
    }
    BitsBound(Shr(dat, 8), w - 8);
  }

  lemma {:induction false} PiecesPack(w: nat, dat: nat)
    requires 1 <= w && dat <= Ones(w)
    ensures Narrow(PiecesOf(w, dat)) && Packed(PiecesOf(w, dat)) == BitsOf(dat, w)
    decreases w
  {
    LowByteBound(dat, w);
    if w <= 8 {
      assert Packed([Item(w, dat)]) == BitsOf(dat, w) + [];
    } else {
      NextPiece(w, dat);
      PiecesPack(w - 8, Shr(dat, 8));
      LowByteFirst(dat, w);
      FirstPiece(Item(8, Low(dat)), PiecesOf(w - 8, Shr(dat, 8)));
    }
  }

  lemma FirstPiece(it: Item, rest: seq<Item>)
    ensures Packed([it] + rest) == BitsOf(it.value, it.width) + Packed(rest)
    ensures Narrow([it]) && Narrow(rest) ==> Narrow([it] + rest)
    ensures ([it] + rest)[1..] == rest
  {
  }

  lemma {:induction false} PackedJoin(a: seq<Item>, b: seq<Item>)
    ensures Packed(a + b) == Packed(a) + Packed(b)
  {
    if a == [] {
      assert a + b == b;
    } else {
      assert (a + b)[1..] == a[1..] + b;
      PackedJoin(a[1..], b);
      Assoc(BitsOf(a[0].value, a[0].width), Packed(a[1..]), Packed(b));
    }
  }

  lemma {:induction false} FitsJoin(p: nat, a: seq<Item>, b: seq<Item>, n: nat)
    requires Narrow(a) && Narrow(b)
    ensures FitsIn(p, a + b, n) == (FitsIn(p, a, n) && FitsIn(p + |Packed(a)|, b, n))
    decreases |a|
  {
    if a == [] {
      assert a + b == b;
    } else {
      assert (a + b)[1..] == a[1..] + b;
      FitsJoin(p + a[0].width, a[1..], b, n);
    }
  }

  lemma {:induction false} PiecesFit(p: nat, w: nat, dat: nat, n: nat)
    requires 1 <= w && dat <= Ones(w) && Narrow(PiecesOf(w, dat))
    ensures FitsIn(p, PiecesOf(w, dat), n) == RoomFor(p, w, n)
    decreases w
  {
    if w > 8 {
      var rest := PiecesOf(w - 8, Shr(dat, 8));
      NextPiece(w, dat);
      PiecesPack(w - 8, Shr(dat, 8));
      FirstPiece(Item(8, Low(dat)), rest);
      PiecesFit(p + 8, w - 8, Shr(dat, 8), n);
    }
  }

  /** Writing items is writing their pieces. */
  lemma {:induction false} AllPiecesPack(p: nat, items: seq<Item>, n: nat)
    requires Packable(items)
    ensures Narrow(AllPieces(items)) && Packed(AllPieces(items)) == Packed(items)
    ensures FitsIn(p, AllPieces(items), n) == FitsIn(p, items, n)
    decreases |items|
  {
    if items != [] {
      var w, dat := items[0].width, items[0].value;
      var first, rest := PiecesOf(w, dat), AllPieces(items[1..]);
      PiecesPack(w, dat);
      PiecesFit(p, w, dat, n);
      AllPiecesPack(p + w, items[1..], n);
      PackedJoin(first, rest);
      FitsJoin(p, first, rest, n);
    }
  }

  // ---- reading

  /** Which bits of the grid a mask takes in: those of the field, and one stray. */
  lemma Reached(t: nat, e: nat)
    requires t % 4 == 0 && t < 16 && 1 <= e < 16
    ensures (if t < 8 then t / 4 < e else (t - 8) / 4 + 8 < e) <==> t < e || t == StrayOf(e)
  {
    StrayPlace(e);
    assert t == 0 || t == 4 || t == 8 || t == 12;
  }

  lemma GetMaskedBit(b0: byte, b1: byte, m: nat, w: nat, k: nat)
    requires m < 8
    ensures Bit(GetAt(b0, b1, m, w), k) ==
            if m + k < 8 then Bit(b0, m + k) && Bit(LiteralFirst(m, w), m + k)
            else Bit(b1, m + k - 8) && Bit(LiteralSecond(m, w), m + k - 8)
  {
    var f, s := LiteralFirst(m, w), LiteralSecond(m, w);
    OrBit(Shr(And(b0, f), m), Shl(And(b1, s), 8 - m), k);
    ShrBit(And(b0, f), m, k);
    ShlBit(And(b1, s), 8 - m, k);
    AndBit(b0, f, m + k);
    if m + k >= 8 {
      ByteBit(b0, m + k);
      AndBit(b1, s, m + k - 8);
    }
  }

  lemma MaskedPlaces(m: nat, w: nat, t: nat)
    requires m < 8 && 1 <= w <= 8 && t < 16
    ensures (if t < 8 then Bit(LiteralFirst(m, w), t) else Bit(LiteralSecond(m, w), t - 8)) <==>
              t % 4 == 0 && (t < m + w || t == StrayOf(m + w))
  {
    if t < 8 { FirstBit(m, w, t); } else { SecondBit(m, w, t - 8); }
    if t % 4 == 0 { Reached(t, m + w); }
  }

  lemma GetAtBit(b0: byte, b1: byte, m: nat, w: nat, k: nat, t: nat)
    requires m < 8 && 1 <= w <= 8 && t == m + k
    ensures Bit(GetAt(b0, b1, m, w), k) <==>
              t < 16 && t % 4 == 0 && (if t < 8 then Bit(b0, t) else Bit(b1, t - 8))
              && (t < m + w || t == StrayOf(m + w))
  {
    GetMaskedBit(b0, b1, m, w, k);
    if t < 16 { MaskedPlaces(m, w, t); } else { ByteBit(b1, t - 8); }
  }

  /** Bit k of what is read for the field of w bits at p with stray bit s. */
  predicate ReadsBit(bits: seq<bool>, p: nat, w: nat, s: int, k: nat) {
    (p + k) % 4 == 0 && BitAt(bits, p + k) && (k < w || p + k == s)
  }

  lemma GetBit(b0: byte, b1: byte, bits: seq<bool>, i: nat, m: nat, w: nat, k: nat)
    requires m < 8 && 1 <= w <= 8 && GridByte(b0, bits, i) && GridByte(b1, bits, i + 1)
    ensures Bit(GetAt(b0, b1, m, w), k) == ReadsBit(bits, 8 * i + m, w, StrayOf(8 * i + m + w), k)
  {
    var t := m + k;
    GetAtBit(b0, b1, m, w, k, t);
    GridPair(b0, b1, bits, i, t);
    Shifted(i, m, w, k);
  }

  lemma GridPair(b0: byte, b1: byte, bits: seq<bool>, i: nat, t: nat)
    requires GridByte(b0, bits, i) && GridByte(b1, bits, i + 1)
    ensures t < 16 ==> (if t < 8 then Bit(b0, t) else Bit(b1, t - 8)) == (t % 4 == 0 && BitAt(bits, 8 * i + t))
  {
    if t < 8 {
      assert GridBit(b0, bits, i, t);
    } else if t < 16 {
      assert GridBit(b1, bits, i + 1, t - 8);
    }
  }

  lemma {:induction false} StrayShifts(i: nat, e: nat)
    ensures StrayOf(8 * i + e) == if StrayOf(e) < 0 then -1 else 8 * i + StrayOf(e)
    decreases i
  {
    if i > 0 { StrayShifts(i - 1, e); }
    StrayPlace(e);
  }

  lemma Shifted(i: nat, m: nat, w: nat, k: nat)
    requires m < 8 && 1 <= w <= 8
    ensures 8 * i + m + k == StrayOf(8 * i + m + w) <==> m + k == StrayOf(m + w)
    ensures (8 * i + m + k) % 4 == (m + k) % 4
    ensures m + k >= 16 ==> m + k != StrayOf(m + w) && k >= w
  {
    StrayShifts(i, m + w);
    StrayPlace(m + w);
  }

  /** v is what is read for the field of w bits at p. */
  ghost predicate IsReading(bits: seq<bool>, p: nat, w: nat, s: int, v: nat) {
    forall k: nat :: Bit(v, k) == ReadsBit(bits, p, w, s, k)
  }

  lemma GetReads(b0: byte, b1: byte, bits: seq<bool>, i: nat, m: nat, w: nat, p: nat)
    requires m < 8 && 1 <= w <= 8 && GridByte(b0, bits, i) && GridByte(b1, bits, i + 1) && p == 8 * i + m
    ensures IsReading(bits, p, w, StrayOf(p + w), GetAt(b0, b1, m, w))
  {
    var v, s := GetAt(b0, b1, m, w), StrayOf(p + w);
    forall k: nat ensures Bit(v, k) == ReadsBit(bits, p, w, s, k) {
      GetBit(b0, b1, bits, i, m, w, k);
    }
  }

  lemma ReadingAt(bs: seq<byte>, bits: seq<bool>, p: nat, i: nat, m: nat, w: nat)
    requires GridHolds(bs, bits) && 1 <= w <= 8 && Room(p, |bs|)
    requires p == 8 * i + m && m < 8 && i + 1 < |bs|
    ensures IsReading(bits, p, w, StrayOf(p + w), LiteralGet(bs, p, w))
  {
    GridBelowIff(bs, bits, |bs|);
    LiteralGetIsAt(bs, p, i, m, w);
    GetReads(bs[i], bs[i + 1], bits, i, m, w, p);
  }

  /** A stray bit lies behind the field and on the grid. */
  predicate IsStray(s: int, e: nat) {
    s == -1 || (s >= e && s % 4 == 0)
  }

  lemma StrayIsBehind(e: nat)
    ensures IsStray(StrayOf(e), e)
  {
    StrayPlace(e);
  }

  /** The stray bit of a field that ends at e. */
  lemma StrayBehind(bits: seq<bool>, e: nat) returns (s: int)
    ensures s == StrayOf(e) && IsStray(s, e) && NoStray(bits, s) == ClearBehind(bits, e)
  {
    s := StrayOf(e);
    StrayIsBehind(e);
  }

  /** The reading of one piece, with its stray bit. */
  lemma OneReading(bs: seq<byte>, bits: seq<bool>, p: nat, w: nat, s: int) returns (v: nat)
    requires GridHolds(bs, bits) && 1 <= w <= 8 && Room(p, |bs|) && s == StrayOf(p + w)
    ensures v == LiteralGet(bs, p, w) && IsReading(bits, p, w, s, v)
  {
    v := LiteralGet(bs, p, w);
    RoomIff(p, |bs|);
    ReadingAt(bs, bits, p, p / 8, p % 8, w);
  }

  /** The w bits from p are those of dat. */
  ghost predicate FieldIs(bits: seq<bool>, p: nat, w: nat, dat: nat) {
    dat <= Ones(w) && forall k: nat :: k < w ==> BitAt(bits, p + k) == Bit(dat, k)
  }

  /** A piece comes back exactly when its set bits are on the grid and its stray bit is clear. */
  lemma PieceSurvives(bits: seq<bool>, p: nat, w: nat, s: int, dat: nat, v: nat)
    requires FieldIs(bits, p, w, dat) && IsStray(s, p + w) && IsReading(bits, p, w, s, v)
    ensures v == dat <==> OnGrid(bits, p, w) && NoStray(bits, s)
  {
    if OnGrid(bits, p, w) && NoStray(bits, s) {
      SurvivingBits(bits, p, w, s, dat, v);
    } else if v == dat {
      LostBits(bits, p, w, s, dat);
    }
  }

  lemma SurvivingBits(bits: seq<bool>, p: nat, w: nat, s: int, dat: nat, v: nat)
    requires FieldIs(bits, p, w, dat) && OnGrid(bits, p, w) && NoStray(bits, s) && IsReading(bits, p, w, s, v)
    ensures v == dat
  {
    forall k: nat ensures Bit(v, k) == Bit(dat, k) {
      if k >= w { NoHighBit(dat, w, k); }
    }
    SameBits(v, dat);
  }

  lemma LostBits(bits: seq<bool>, p: nat, w: nat, s: int, dat: nat)
    requires FieldIs(bits, p, w, dat) && IsStray(s, p + w) && IsReading(bits, p, w, s, dat)
    ensures OnGrid(bits, p, w) && NoStray(bits, s)
  {
    forall q: nat | p <= q < p + w && BitAt(bits, q) ensures q % 4 == 0 {
      assert Bit(dat, q - p) == ReadsBit(bits, p, w, s, q - p);
    }
    if s >= 0 {
      NoHighBit(dat, w, s - p);
      assert Bit(dat, s - p) == ReadsBit(bits, p, w, s, s - p);
    }
  }

  // ---- fields of two pieces

  /** The low n bits and the rest. */
  lemma {:induction false} SplitAt(x: nat, n: nat)
    ensures x == And(x, Ones(n)) + Shl(Shr(x, n), n)
  {
    if n == 0 {
      AndZero(x);
    } else {
      SplitAt(x / 2, n - 1);
    }
  }

  lemma {:induction false} AndZero(x: nat)
    ensures And(x, 0) == 0
  {
    if x > 0 { AndZero(x / 2); }
  }

  lemma {:induction false} ShlAdds(x: nat, y: nat, n: nat)
    ensures Shl(x, n) + Shl(y, n) == Shl(x + y, n)
  {
    if n > 0 { ShlAdds(x, y, n - 1); }
  }

  lemma {:induction false} ShlLow(a: nat, x: nat, b: nat, y: nat, n: nat)
    requires a <= Ones(n) && b <= Ones(n) && a + Shl(x, n) == b + Shl(y, n)
    ensures a == b && x == y
  {
    if n > 0 { ShlLow(a / 2, x, b / 2, y, n - 1); }
  }

  /** Adding a power of two turns its bit over. */
  lemma {:induction false} AddTurnsBit(x: nat, t: nat)
    ensures Bit(x + Shl(1, t), t) == !Bit(x, t)
  {
    if t > 0 {
      assert (x + Shl(1, t)) / 2 == x / 2 + Shl(1, t - 1);
      AddTurnsBit(x / 2, t - 1);
    }
  }

  lemma {:induction false} ShlOne(t: nat)
    ensures Shl(1, t) == Ones(t) + 1
  {
    if t > 0 { ShlOne(t - 1); }
  }

  lemma {:induction false} OneBit(x: nat, t: nat)
    requires forall k: nat :: Bit(x, k) == (k == t)
    ensures x == Shl(1, t)
  {
    forall k: nat ensures Bit(x, k) == Bit(Shl(1, t), k) {
      ShlBit(1, t, k);
      if k > t { NoHighBit(1, 1, k - t); }
    }
    SameBits(x, Shl(1, t));
  }

  /** A sum of a low piece with bits above it and a second piece is a number of two
      pieces only if there were no bits above: the one stray bit of the first piece
      is read in the second as well, or lies beyond it. */
  lemma NoCarry(x: nat, second: nat, hi: nat, w: nat, t: nat)
    requires hi <= Ones(w) && x + second == hi
    requires forall k: nat :: Bit(x, k) ==> k == t
    requires Bit(x, t) && t < w ==> Bit(second, t) && Bit(hi, t)
    ensures x == 0
  {
    if x > 0 {
      SomeBit(x);
      var k: nat :| Bit(x, k);
      OneBit(x, t);
      if t < w {
        AddTurnsBit(second, t);
      } else {
        ShlOne(t);
        OnesMonotone(w, t);
      }
    }
  }

  lemma PiecesOfField(bits: seq<bool>, p: nat, w: nat, dat: nat)
    requires w > 8 && FieldIs(bits, p, w, dat)
    ensures FieldIs(bits, p, 8, Low(dat)) && FieldIs(bits, p + 8, w - 8, Shr(dat, 8))
    ensures dat == Low(dat) + Shl(Shr(dat, 8), 8)
  {
    OnesByte();
    SplitAt(dat, 8);
    NextPiece(w, dat);
    forall k: nat | k < 8 ensures BitAt(bits, p + k) == Bit(Low(dat), k) {
      LowByteBit(dat, k);
    }
    forall k: nat | k < w - 8 ensures BitAt(bits, p + 8 + k) == Bit(Shr(dat, 8), k) {
      ShrBit(dat, 8, k);
      assert BitAt(bits, p + (k + 8)) == Bit(dat, k + 8);
    }
  }

  /** The bits of a first piece above its own eight. */
  lemma StrayOfFirst(bits: seq<bool>, p: nat, s: int, first: nat, k: nat)
    requires IsReading(bits, p, 8, s, first) && IsStray(s, p + 8)
    ensures Bit(Shr(first, 8), k) <==> p + 8 + k == s && BitAt(bits, p + 8 + k)
  {
    ShrBit(first, 8, k);
    assert Bit(first, k + 8) == ReadsBit(bits, p, 8, s, k + 8);
  }

  lemma NoCarryBetween(bits: seq<bool>, p: nat, w: nat, s: int, s2: int, first: nat, second: nat, hi: nat)
    requires IsStray(s, p + 8) && IsReading(bits, p, 8, s, first)
    requires IsReading(bits, p + 8, w, s2, second) && FieldIs(bits, p + 8, w, hi)
    requires Shr(first, 8) + second == hi
    ensures Shr(first, 8) == 0
  {
    var t := if s >= 0 then s - (p + 8) else 0;
    forall k: nat ensures Bit(Shr(first, 8), k) ==> k == t { StrayOfFirst(bits, p, s, first, k); }
    StrayOfFirst(bits, p, s, first, t);
    assert Bit(second, t) == ReadsBit(bits, p + 8, w, s2, t);
    NoCarry(Shr(first, 8), second, hi, w, t);
  }

  /** If the sum of two readings is right both are. */
  lemma PiecesAgree(bits: seq<bool>, p: nat, w: nat, s: int, s2: int, first: nat, second: nat, lo: byte, hi: nat)
    requires IsStray(s, p + 8) && IsReading(bits, p, 8, s, first)
    requires IsReading(bits, p + 8, w, s2, second) && FieldIs(bits, p + 8, w, hi)
    requires first + Shl(second, 8) == lo + Shl(hi, 8)
    ensures first == lo && second == hi
  {
    OnesByte();
    SplitAt(first, 8);
    LowByte(first, 8);
    ShlAdds(Shr(first, 8), second, 8);
    ShlLow(And(first, 255), Shr(first, 8) + second, lo, hi, 8);
    NoCarryBetween(bits, p, w, s, s2, first, second, hi);
    ShlZero(8);
  }

  lemma TwoPiecesSurvive(bits: seq<bool>, p: nat, w: nat, s: int, s2: int, first: nat, second: nat, dat: nat)
    requires w > 8 && FieldIs(bits, p, w, dat) && IsStray(s, p + 8) && IsStray(s2, p + w)
    requires IsReading(bits, p, 8, s, first) && IsReading(bits, p + 8, w - 8, s2, second)
    ensures first + Shl(second, 8) == dat <==> OnGrid(bits, p, w) && NoStray(bits, s) && NoStray(bits, s2)
  {
    var lo, hi := Low(dat), Shr(dat, 8);
    PiecesOfField(bits, p, w, dat);
    PieceSurvives(bits, p, 8, s, lo, first);
    PieceSurvives(bits, p + 8, w - 8, s2, hi, second);
    GridSplits(bits, p, w);
    if first + Shl(second, 8) == dat {
      PiecesAgree(bits, p, w - 8, s, s2, first, second, lo, hi);
    }
  }

  lemma GridSplits(bits: seq<bool>, p: nat, w: nat)
    requires w > 8
    ensures OnGrid(bits, p, w) <==> OnGrid(bits, p, 8) && OnGrid(bits, p + 8, w - 8)
  {
  }

  /** A field of one piece. */
  lemma NarrowComesBack(bs: seq<byte>, bits: seq<bool>, p: nat, w: nat, dat: nat, s: int)
    requires GridHolds(bs, bits) && 1 <= w <= 8 && FieldIs(bits, p, w, dat) && Room(p, |bs|)
    requires s == StrayOf(p + w) && IsStray(s, p + w)
    ensures LiteralGet(bs, p, w) == dat <==> OnGrid(bits, p, w) && NoStray(bits, s)
  {
    var v := OneReading(bs, bits, p, w, s);
    PieceSurvives(bits, p, w, s, dat, v);
  }

  /** A field of two pieces. */
  lemma WideComesBack(bs: seq<byte>, bits: seq<bool>, p: nat, w: nat, dat: nat, s: int, s2: int)
    requires GridHolds(bs, bits) && 8 < w <= 16 && FieldIs(bits, p, w, dat) && Room(p, |bs|) && Room(p + 8, |bs|)
    requires s == StrayOf(p + 8) && s2 == StrayOf(p + w) && IsStray(s, p + 8) && IsStray(s2, p + w)
    ensures LiteralGet(bs, p, 8) + Shl(LiteralGet(bs, p + 8, w - 8), 8) == dat <==>
            OnGrid(bits, p, w) && NoStray(bits, s) && NoStray(bits, s2)
  {
    var first := OneReading(bs, bits, p, 8, s);
    var second := SecondReading(bs, bits, p, p + 8, w, w - 8, s2);
    TwoPiecesSurvive(bits, p, w, s, s2, first, second, dat);
  }

  lemma SecondReading(bs: seq<byte>, bits: seq<bool>, p: nat, q: nat, w: nat, w2: nat, s: int) returns (v: nat)
    requires GridHolds(bs, bits) && q == p + 8 && w == w2 + 8 && 1 <= w2 <= 8 && Room(q, |bs|)
    requires s == StrayOf(p + w)
    ensures v == LiteralGet(bs, q, w2) && IsReading(bits, q, w2, s, v)
  {
    assert q + w2 == p + w;
    v := OneReading(bs, bits, q, w2, s);
  }

  /** In any buffer that holds the grid of bits, a field comes back intact exactly when it survives. */
  lemma FieldComesBackExactly(bs: seq<byte>, bits: seq<bool>, p: nat, w: nat, dat: nat)
    requires GridHolds(bs, bits) && 1 <= w <= 16 && RoomFor(p, w, |bs|) && FieldIs(bits, p, w, dat)
    ensures LiteralRead(bs, p, w) == dat <==> FieldSurvives(bits, p, w)
  {
    var s := StrayBehind(bits, p + w);
    if w <= 8 {
      NarrowComesBack(bs, bits, p, w, dat, s);
    } else {
      assert RoomFor(p + 8, w - 8, |bs|);
      var s1 := StrayBehind(bits, p + 8);
      WideComesBack(bs, bits, p, w, dat, s1, s);
    }
  }

  // ---- runs

  lemma FieldOfRun(bits: seq<bool>, p: nat, w: nat, dat: nat, more: seq<bool>)
    requires dat <= Ones(w) && p <= |bits| && bits[p..] == BitsOf(dat, w) + more
    ensures FieldIs(bits, p, w, dat) && p + w <= |bits| && bits[p + w..] == more
  {
    assert bits[p + w..] == bits[p..][w..];
    forall k: nat | k < w ensures BitAt(bits, p + k) == Bit(dat, k) {
      assert bits[p + k] == bits[p..][k];
      BitsOfAt(dat, w, k);
    }
  }

  lemma FirstComesBack(bs: seq<byte>, bits: seq<bool>, p: nat, items: seq<Item>) returns (v: nat)
    requires items != [] && Packable(items) && FitsIn(p, items, |bs|) && GridHolds(bs, bits)
    requires p <= |bits| && bits[p..] == Packed(items)
    ensures var w := items[0].width;
            && p + w <= |bits| && bits[p + w..] == Packed(items[1..])
            && LiteralUnpacked(bs, p, items) == [v] + LiteralUnpacked(bs, p + w, items[1..])
            && (v == items[0].value <==> FieldSurvives(bits, p, w))
  {
    var w, dat := items[0].width, items[0].value;
    FieldOfRun(bits, p, w, dat, Packed(items[1..]));
    FieldComesBackExactly(bs, bits, p, w, dat);
    v := LiteralRead(bs, p, w);
  }

  lemma {:induction false} RunComesBackExactly(bs: seq<byte>, bits: seq<bool>, p: nat, items: seq<Item>)
    requires Packable(items) && FitsIn(p, items, |bs|) && GridHolds(bs, bits)
    requires p <= |bits| && bits[p..] == Packed(items)
    ensures LiteralUnpacked(bs, p, items) == Values(items) <==> Survives(bits, p, items)
    decreases |items|
  {
    if items != [] {
      var w, dat := items[0].width, items[0].value;
      var v := FirstComesBack(bs, bits, p, items);
      RunComesBackExactly(bs, bits, p + w, items[1..]);
      SameLists(v, LiteralUnpacked(bs, p + w, items[1..]), dat, Values(items[1..]));
    }
  }

  /** The buffer after initOutputBitStream. */
  function Cleared(n: nat): seq<byte> {
    seq(n, _ => 0)
  }

  lemma ClearedHolds(n: nat)
    ensures GridHolds(Cleared(n), [])
  {
    forall j: nat, k: nat | j < n && k < 8 ensures GridBit(Cleared(n)[j], [], j, k) {
      ZeroBit(k);
    }
    GridBelowIff(Cleared(n), [], n);
  }

  /** The buffer after items have been written to it. */
  function Written(n: nat, items: seq<Item>): (bs: seq<byte>)
    requires Packable(items) && FitsIn(0, items, n)
    ensures |bs| == n
  {
    AllPiecesPack(0, items, n);
    PutPieces(Cleared(n), 0, AllPieces(items))
  }

  /** It holds those of their bits that are on the grid. */
  lemma WrittenHolds(n: nat, items: seq<Item>)
    requires Packable(items) && FitsIn(0, items, n)
    ensures GridHolds(Written(n, items), Packed(items))
  {
    AllPiecesPack(0, items, n);
    ClearedHolds(n);
    PutPiecesKeepGrid(Cleared(n), [], AllPieces(items));
    assert [] + Packed(items) == Packed(items);
  }

  /** Read literally, the tables give a run of fields back intact exactly when it
      survives: every set bit at a multiple of four, and no set bit where the mask of
      a piece reaches past its end. */
  lemma LiteralMasksKeepExactly(n: nat, items: seq<Item>)
    requires Packable(items) && FitsIn(0, items, n)
    ensures LiteralUnpacked(Written(n, items), 0, items) == Values(items) <==> Survives(Packed(items), 0, items)
  {
    WrittenHolds(n, items);
    RunComesBackExactly(Written(n, items), Packed(items), 0, items);
  }

  lemma NotKept(n: nat, items: seq<Item>)
    requires Packable(items) && FitsIn(0, items, n) && !Survives(Packed(items), 0, items)
    ensures LiteralUnpacked(Written(n, items), 0, items) != Values(items)
  {
    LiteralMasksKeepExactly(n, items);
  }

  /** A lone 3 in eight bits does not come back ... */
  lemma LiteralMasksLoseBits() returns (n: nat, items: seq<Item>)
    ensures items == [Item(8, 3)] && Packable(items) && FitsIn(0, items, n)
    ensures LiteralUnpacked(Written(n, items), 0, items) != Values(items)
  {
    n, items := OffGrid();
    NotKept(n, items);
  }

  lemma OffGrid() returns (n: nat, items: seq<Item>)
    ensures items == [Item(8, 3)] && Packable(items) && FitsIn(0, items, n)
    ensures !Survives(Packed(items), 0, items)
  {
    n, items := 2, [Item(8, 3)];
    OnesByte();
    BitsOfAt(3, 8, 1);
    assert Packed(items) == BitsOf(3, 8) + [];
    assert BitAt(Packed(items), 1);
  }

  /** ... and neither does a 1 in two bits before a 4 in eight, although all set bits
      are on the grid: the mask of the first takes in a bit of the second. */
  lemma NeighbourSpoils() returns (n: nat, items: seq<Item>)
    ensures items == [Item(2, 1), Item(8, 4)] && Packable(items) && FitsIn(0, items, n)
    ensures OnGrid(Packed(items), 0, |Packed(items)|)
    ensures LiteralUnpacked(Written(n, items), 0, items) != Values(items)
  {
    n, items := Neighbours();
    StrayDies(Packed(items), items);
    NotKept(n, items);
  }

  lemma StrayDies(bits: seq<bool>, items: seq<Item>)
    requires items != [] && items[0].width == 2 && BitAt(bits, 4)
    ensures !Survives(bits, 0, items)
  {
    assert StrayOf(2) == 4;
  }

  lemma Neighbours() returns (n: nat, items: seq<Item>)
    ensures items == [Item(2, 1), Item(8, 4)] && Packable(items) && FitsIn(0, items, n)
    ensures OnGrid(Packed(items), 0, |Packed(items)|) && BitAt(Packed(items), 4)
  {
    n, items := 3, [Item(2, 1), Item(8, 4)];
    OnesByte();
    assert Ones(2) == 3;
    assert items[1..] == [Item(8, 4)];
    assert Packed(items[1..]) == BitsOf(4, 8) + [];
    forall q: nat ensures BitAt(Packed(items), q) == (q == 0 || q == 4) {
      AppendedBit(BitsOf(1, 2), 8, 4, q);
      if q < 2 { BitsOfAt(1, 2, q); }
      SmallBits(q);
    }
  }

  lemma SmallBits(q: nat)
    ensures q < 2 ==> Bit(1, q) == (q == 0)
    ensures q >= 2 ==> Bit(4, q - 2) == (q == 4)
  {
    assert Ones(3) == 7;
    if q >= 5 { NoHighBit(4, 3, q - 2); }
  }
}
