/** What the mask tables, read literally, do to a compressed message.  A stored one
    does not go through the bit packer. */
module LiteralCodec {
  import opened Bytes
  import opened Bits
  import opened BitPacker
  import opened Lzw
  import LzwRoundTrip
  import opened Compressor
  import opened LiteralMasks

  /** The compressor's writes. */
  function CodeItems(cs: seq<nat>): (items: seq<Item>) {
    if cs == [] then [] else [Item(BITS_LEN, cs[0])] + CodeItems(cs[1..])
  }

  predicate NineBits(cs: seq<nat>) {
    forall i :: 0 <= i < |cs| ==> cs[i] <= Ones(BITS_LEN)
  }

  lemma {:induction false} CodeItemsHold(cs: seq<nat>)
    requires NineBits(cs)
    ensures Packable(CodeItems(cs)) && Values(CodeItems(cs)) == cs
  {
    if cs != [] { CodeItemsHold(cs[1..]); }
  }

  lemma CodesAreNineBits(text: seq<byte>)
    requires text != []
    ensures NineBits(Compressed(text))
  {
    var cs := CodesOf(Words(text));
    LzwRoundTrip.RoundTrip(text);
    NineOnes();
    forall i | 0 <= i < |Compressed(text)| ensures Compressed(text)[i] <= Ones(BITS_LEN) {
      if i < |cs| { LzwRoundTrip.WordsFitTheStack(START, cs, i); }
    }
  }

  lemma NineOnes()
    ensures Ones(BITS_LEN) == 511
  {
    OnesByte();
  }

  /** The codes of text as they are read back from a buffer of n bytes. */
  function ReadAsSpelled(n: nat, text: seq<byte>): (cs: seq<nat>)
    requires text != [] && FitsIn(0, CodeItems(Compressed(text)), n)
  {
    CodesAreNineBits(text);
    CodeItemsHold(Compressed(text));
    LiteralUnpacked(Written(n, CodeItems(Compressed(text))), 0, CodeItems(Compressed(text)))
  }

  /** The codes come back exactly when they are a run that survives, and then they
      decode to the text. */
  lemma CodesKeptExactly(n: nat, text: seq<byte>)
    requires text != [] && FitsIn(0, CodeItems(Compressed(text)), n)
    ensures var items, cs := CodeItems(Compressed(text)), ReadAsSpelled(n, text);
            && (cs == Compressed(text) <==> Survives(Packed(items), 0, items))
            && (cs == Compressed(text) ==>
                  Legal(START, cs[..|cs| - 1]) && Output(START, cs[..|cs| - 1]) == text && cs[|cs| - 1] == EOF)
  {
    CodesAreNineBits(text);
    CodeItemsHold(Compressed(text));
    LiteralMasksKeepExactly(n, CodeItems(Compressed(text)));
    LzwRoundTrip.RoundTrip(text);
    assert Compressed(text)[..|Compressed(text)| - 1] == CodesOf(Words(text));
  }

  // ---- the first code

  lemma FirstIsByte(text: seq<byte>)
    requires text != []
    ensures Compressed(text)[0] == text[0]
  {
    if |text| > 1 { LzwRoundTrip.FirstEmission(text); }
  }

  lemma FirstPiece(bs: seq<byte>, bits: seq<bool>, c: byte)
    requires GridHolds(bs, bits) && Room(0, |bs|) && FieldIs(bits, 0, BITS_LEN, c)
    ensures LiteralGet(bs, 0, 8) == And(c, HexOnes(2))
  {
    var v := LiteralGet(bs, 0, 8);
    ReadingAt(bs, bits, 0, 0, 0, 8);
    StrayPlace(8);
    forall k: nat ensures Bit(v, k) == Bit(And(c, HexOnes(2)), k) {
      AndBit(c, HexOnes(2), k);
      HexOnesBit(2, k);
    }
    SameBits(v, And(c, HexOnes(2)));
  }

  lemma SecondPiece(bs: seq<byte>, bits: seq<bool>, c: byte)
    requires GridHolds(bs, bits) && Room(8, |bs|) && FieldIs(bits, 0, BITS_LEN, c)
    ensures LiteralGet(bs, 8, 1) == 0
  {
    var v := LiteralGet(bs, 8, 1);
    RoomIff(8, |bs|);
    ReadingAt(bs, bits, 8, 1, 0, 1);
    StrayPlace(9);
    OnesByte();
    NoHighBit(c, 8, 8);
    forall k: nat ensures Bit(v, k) == Bit(0, k) {
      ZeroBit(k);
    }
    SameBits(v, 0);
  }

  lemma FirstCodeRead(bs: seq<byte>, bits: seq<bool>, c: byte)
    requires GridHolds(bs, bits) && RoomFor(0, BITS_LEN, |bs|) && FieldIs(bits, 0, BITS_LEN, c)
    ensures LiteralRead(bs, 0, BITS_LEN) == And(c, HexOnes(2))
  {
    assert RoomFor(8, 1, |bs|);
    FirstPiece(bs, bits, c);
    SecondPiece(bs, bits, c);
    ShlZero(8);
  }

  lemma FirstItem(cs: seq<nat>)
    requires cs != []
    ensures CodeItems(cs) != [] && CodeItems(cs)[0] == Item(BITS_LEN, cs[0])
    ensures Packed(CodeItems(cs)) == BitsOf(cs[0], BITS_LEN) + Packed(CodeItems(cs)[1..])
  {
  }

  /** Of the first byte only two bits are left. */
  lemma FirstCodeAsSpelled(n: nat, text: seq<byte>)
    requires text != [] && FitsIn(0, CodeItems(Compressed(text)), n)
    ensures ReadAsSpelled(n, text) != [] && ReadAsSpelled(n, text)[0] == And(text[0], HexOnes(2))
  {
    var items := CodeItems(Compressed(text));
    CodesAreNineBits(text);
    CodeItemsHold(Compressed(text));
    FirstItem(Compressed(text));
    FirstIsByte(text);
    WrittenHolds(n, items);
    FieldOfRun(Packed(items), 0, BITS_LEN, text[0], Packed(items[1..]));
    FirstCodeRead(Written(n, items), Packed(items), text[0]);
  }

  lemma AndDoubled(x: nat, y: nat)
    ensures And(x, 2 * y) == 2 * And(x / 2, y)
  {
  }

  lemma AndOne(x: nat)
    ensures And(x, 1) == x % 2
  {
    AndNone(x / 2);
  }

  lemma {:induction false} AndNone(x: nat)
    ensures And(x, 0) == 0
  {
    if x > 0 { AndNone(x / 2); }
  }

  lemma TwoBitsLeft(b: byte)
    ensures And(b, HexOnes(2)) == b % 2 + 16 * (b / 2 / 2 / 2 / 2 % 2)
  {
    assert HexOnes(2) == 17;
    AndDoubled(b / 2, 4);
    AndDoubled(b / 2 / 2, 2);
    AndDoubled(b / 2 / 2 / 2, 1);
    AndOne(b / 2 / 2 / 2 / 2);
  }

  lemma LeftOver(b: byte) returns (k: nat)
    ensures k == And(b, HexOnes(2)) < 256
    ensures k == b <==> b == 0 || b == 1 || b == 16 || b == 17
  {
    k := And(b, HexOnes(2));
    TwoBitsLeft(b);
  }

  lemma FirstByteRead(n: nat, text: seq<byte>) returns (k: nat)
    requires text != [] && FitsIn(0, CodeItems(Compressed(text)), n)
    ensures ReadAsSpelled(n, text) != [] && ReadAsSpelled(n, text)[0] == k < 256
    ensures k == text[0] <==> text[0] == 0 || text[0] == 1 || text[0] == 16 || text[0] == 17
  {
    FirstCodeAsSpelled(n, text);
    k := LeftOver(text[0]);
  }

  lemma FirstOutput(cs: seq<nat>, k: nat)
    requires cs != [] && Legal(START, cs) && cs[0] == k < 256
    ensures Output(START, cs)[0] == k
  {
    LzwRoundTrip.FirstCode(k);
  }

  /** A compressed text that begins with any byte but four does not come back: whatever
      legal codes begin with the one that is read first spell another first byte. */
  lemma FirstByteIsLost(n: nat, text: seq<byte>, cs: seq<nat>)
    requires text != [] && FitsIn(0, CodeItems(Compressed(text)), n)
    requires cs != [] && cs[0] == ReadAsSpelled(n, text)[0] && Legal(START, cs)
    ensures Output(START, cs)[0] == text[0] <==> text[0] == 0 || text[0] == 1 || text[0] == 16 || text[0] == 17
  {
    var k := FirstByteRead(n, text);
    FirstOutput(cs, k);
  }
}
