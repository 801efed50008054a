/** The bit stream's global buffer and position, as an object. */
module BitStreams {
  import opened Bytes
  import opened Bits
  import opened BitPacker
  import opened WideFields

  class BitStream {
    var buf: array<byte>   // bitstream_buf is buf + base
    var base: nat
    var maxbyte: nat       // bitstream_maxbyte
    var bitaddr: nat       // bitstream_bitaddr
    ghost var written: seq<bool>   // every bit written since InitOutput

    ghost predicate Valid()
      reads this
    {
      base + maxbyte <= buf.Length
    }

    /** Reading the last byte also touches the byte behind it. */
    ghost predicate Readable()
      reads this
    {
      base + maxbyte < buf.Length
    }

    /** From the first byte of the stream to the end of the memory behind it. */
    ghost function Memory(): seq<byte>
      reads this, buf
      requires Valid()
    {
      buf[base..]
    }

    ghost function Window(): seq<byte>
      reads this, buf
      requires Valid()
    {
      buf[base..base + maxbyte]
    }

    /** The bits written so far are the only ones set. */
    ghost predicate Writing()
      reads this, buf
    {
      Valid() && |written| == bitaddr && Holds(Window(), written)
    }

    constructor InitOutput(b: array<byte>, off: nat, len: nat)
      requires off + len <= b.Length
      modifies b
      ensures buf == b && base == off && maxbyte == len && bitaddr == 0
      ensures Writing() && written == []
      ensures forall j :: 0 <= j < off || off + len <= j < b.Length ==> b[j] == old(b[j])
    {
      buf, base, maxbyte, bitaddr, written := b, off, len, 0, [];
      new;
      for i := 0 to len
        invariant forall j :: off <= j < off + i ==> b[j] == 0
        invariant forall j :: 0 <= j < off || off + len <= j < b.Length ==> b[j] == old(b[j])
        invariant buf == b && base == off && maxbyte == len && bitaddr == 0 && written == []
      {
        b[off + i] := 0;
      }
      forall q: nat ensures !StreamBit(Window(), q) {
        ZeroBit(q % 8);
      }
      HoldsBelowIff(Window(), [], 8 * |Window()|);
    }

    constructor InitInput(b: array<byte>, off: nat, len: nat)
      requires off + len < b.Length
      ensures buf == b && base == off && maxbyte == len && bitaddr == 0
    {
      buf, base, maxbyte, bitaddr, written := b, off, len, 0, [];
    }

    method ReadBody(bwidth: nat) returns (r: nat)
      requires Readable()
      modifies this`bitaddr
      ensures r <= Ones(Min(bwidth, 8))
      ensures old(bitaddr) >= 8 * maxbyte || bwidth == 0 || bwidth > 8 ==>
                r == 0 && bitaddr == old(bitaddr)
      ensures old(bitaddr) < 8 * maxbyte && 1 <= bwidth <= 8 ==>
                r == FromBits(Field(Memory(), old(bitaddr), bwidth)) && bitaddr == old(bitaddr) + bwidth
    {
      var mod, byteaddr := bitaddr % 8, bitaddr / 8;
      r := 0;
      if byteaddr >= maxbyte {
        return;
      }
      if 1 <= bwidth <= 8 {
        r := Or(Shr(And(buf[base + byteaddr], FirstMask(mod, bwidth)), mod),
                Shl(And(buf[base + byteaddr + 1], SecondMask(mod, bwidth)), 8 - mod));
        GetReads(Memory(), bitaddr, bwidth);
        bitaddr := bitaddr + bwidth;
      }
    }

    /** readInputBitStream.  Above 16 bits the source asks for the last piece with
        a width that readInputBitStreamBody refuses: that piece is 0 and the
        position stays in front of it.  At the end of the buffer it takes the
        pieces that start inside. */
    method Read(bwidth: int) returns (r: nat)
      requires Readable()
      modifies this`bitaddr
      ensures r <= Ones(ReadWidth(bwidth))
      ensures var taken := Available(old(bitaddr), ReadWidth(bwidth), maxbyte);
              r == FromBits(Field(Memory(), old(bitaddr), taken)) && bitaddr == old(bitaddr) + taken
    {
      OnesMonotone(Available(bitaddr, ReadWidth(bwidth), maxbyte), ReadWidth(bwidth));
      if bwidth <= 0 {
        r := 0;
      } else if bwidth <= 8 {
        r := ReadBody(bwidth);
      } else if bwidth <= 16 {
        r := ReadPieces(bwidth);
      } else if bwidth <= 24 {
        r := ReadWide(16, bwidth);
      } else if bwidth <= 32 {
        r := ReadWide(24, bwidth);
      } else {
        r := 0;
      }
    }

    /** n bits in whole bytes, and then a piece of a width that is refused. */
    method ReadWide(n: nat, bwidth: nat) returns (r: nat)
      requires Readable() && 8 <= n <= 24 && bwidth - 8 > 8
      modifies this`bitaddr
      ensures var taken := Available(old(bitaddr), n, maxbyte);
              r == FromBits(Field(Memory(), old(bitaddr), taken)) && bitaddr == old(bitaddr) + taken
    {
      r := ReadPieces(n);
      var last := ReadBody(bwidth - 8);
      ShlZero(n);
      r := r + Shl(last, n);
    }

    /** The bytes of a field one after the other, the last one cut to size. */
    method ReadPieces(bwidth: nat) returns (r: nat)
      requires Readable() && 1 <= bwidth <= 24
      modifies this`bitaddr
      ensures var taken := Available(old(bitaddr), bwidth, maxbyte);
              r == FromBits(Field(Memory(), old(bitaddr), taken)) && bitaddr == old(bitaddr) + taken
      decreases bwidth
    {
      if bwidth <= 8 {
        r := ReadBody(bwidth);
      } else {
        ghost var bs, p := Memory(), bitaddr;
        var first := ReadBody(8);
        var rest := ReadPieces(bwidth - 8);
        ShlZero(8);
        r := first + Shl(rest, 8);
        if p < 8 * maxbyte { JoinPieces(bs, p, Available(p, bwidth, maxbyte), first, rest); }
      }
    }

    /** Merge the field into the two bytes it can touch and move past it. */
    method Store(bwidth: nat, b: byte)
      requires Valid() && 1 <= bwidth <= 8 && bitaddr / 8 + 1 < maxbyte
      modifies this`bitaddr, this`written, buf
      ensures bitaddr == old(bitaddr) + bwidth && written == old(written) + BitsOf(b, bwidth)
      ensures Window() == Put(old(Window()), old(bitaddr), bwidth, b)
      ensures forall j :: 0 <= j < base || base + maxbyte <= j < buf.Length ==> buf[j] == old(buf[j])
    {
      var mod, i := bitaddr % 8, base + bitaddr / 8;
      var first, second := FirstMask(mod, bwidth), SecondMask(mod, bwidth);
      PutIsByte(buf[i], buf[i + 1], mod, bwidth, b);
      var b0 := Or(And(buf[i], first), And(Shl(b, mod), first));
      var b1 := Or(And(buf[i + 1], second), And(Shr(b, 8 - mod), second));
      assert [b0, b1] == [PutFirst(buf[i], mod, bwidth, b), PutSecond(buf[i + 1], mod, bwidth, b)];
      buf[i] := b0;
      buf[i + 1] := b1;
      bitaddr, written := bitaddr + bwidth, written + BitsOf(b, bwidth);
    }

    /** writeOutputBitStreamBody: the byte after the field's first must also be
        inside the buffer. */
    method WriteBody(bwidth: nat, b: byte) returns (r: int)
      requires Writing() && 1 <= bwidth <= 8
      modifies this`bitaddr, this`written, buf
      ensures Writing()
      ensures forall j :: 0 <= j < base || base + maxbyte <= j < buf.Length ==> buf[j] == old(buf[j])
      ensures r < 0 <==> maxbyte <= old(bitaddr) / 8 + 1
      ensures r < 0 ==> r == -1 && bitaddr == old(bitaddr) && written == old(written) && Window() == old(Window())
      ensures r >= 0 ==> r == old(bitaddr) / 8 + 1 && bitaddr == old(bitaddr) + bwidth &&
                         written == old(written) + BitsOf(b, bwidth)
    {
      var byteaddr := bitaddr / 8;
      if maxbyte <= byteaddr + 1 {
        return -1;
      }
      PutAppends(Window(), written, bwidth, b);
      Store(bwidth, b);
      return byteaddr + 1;
    }

    /** writeOutputBitStream */
    method Write(bwidth: int, dat: nat) returns (ret: int)
      requires Writing()
      modifies this`bitaddr, this`written, buf
      ensures Writing()
      ensures forall j :: 0 <= j < base || base + maxbyte <= j < buf.Length ==> buf[j] == old(buf[j])
      ensures bwidth <= 0 || bwidth > 32 ==> ret == -1 && bitaddr == old(bitaddr) && written == old(written)
      ensures bitaddr >= old(bitaddr) && old(written) <= written
      ensures 1 <= bwidth <= 32 ==> (ret < 0 <==> maxbyte <= LastByte(old(bitaddr), bwidth) + 1)
      ensures ret < 0 ==> ret == -1
      ensures ret >= 0 ==> ret == LastByte(old(bitaddr), bwidth) + 1 && bitaddr == old(bitaddr) + bwidth &&
                           written == old(written) + BitsOf(dat, bwidth)
    {
      if bwidth <= 0 || bwidth > 32 {
        return -1;
      }
      ret := WritePieces(bwidth, dat);
    }

    /** The bytes of dat one after the other, low byte first, the last one cut to
        size; after a failed write there is no further one. */
    method WritePieces(bwidth: nat, dat: nat) returns (ret: int)
      requires Writing() && 1 <= bwidth
      modifies this`bitaddr, this`written, buf
      ensures Writing()
      ensures forall j :: 0 <= j < base || base + maxbyte <= j < buf.Length ==> buf[j] == old(buf[j])
      ensures bitaddr >= old(bitaddr) && old(written) <= written
      ensures ret < 0 <==> maxbyte <= LastByte(old(bitaddr), bwidth) + 1
      ensures ret < 0 ==> ret == -1
      ensures ret >= 0 ==> ret == LastByte(old(bitaddr), bwidth) + 1 && bitaddr == old(bitaddr) + bwidth &&
                           written == old(written) + BitsOf(dat, bwidth)
      decreases bwidth
    {
      if bwidth <= 8 {
        LowByte(dat, bwidth);
        ret := WriteBody(bwidth, Low(dat));
      } else {
        ret := WriteBody(8, Low(dat));
        if ret < 0 {
          return -1;
        }
        ret := WritePieces(bwidth - 8, Shr(dat, 8));
        JoinWritten(old(written), dat, bwidth);
      }
    }
  }

  lemma JoinWritten(before: seq<bool>, dat: nat, w: nat)
    requires w > 8
    ensures before + BitsOf(Low(dat), 8) + BitsOf(Shr(dat, 8), w - 8) == before + BitsOf(dat, w)
  {
    LowByteFirst(dat, w);
    Assoc(before, BitsOf(Low(dat), 8), BitsOf(Shr(dat, 8), w - 8));
  }

  /** Two reads side by side are one read of the whole field. */
  lemma JoinPieces(bs: seq<byte>, p: nat, w: nat, first: nat, rest: nat)
    requires 8 <= w && first == FromBits(Field(bs, p, 8)) && rest == FromBits(Field(bs, p + 8, w - 8))
    ensures FromBits(Field(bs, p, w)) == first + Shl(rest, 8)
  {
    FieldSplits(bs, p, 8, w - 8);
    FromBitsAppend(Field(bs, p, 8), Field(bs, p + 8, w - 8));
  }

  // ---- runs of writes and reads

  /** Items from i on are item i and those from i + 1 on. */
  lemma NextPacked(items: seq<Item>, i: nat)
    requires i < |items|
    ensures Packed(items[..i + 1]) == Packed(items[..i]) + BitsOf(items[i].value, items[i].width)
    ensures |Packed(items[i..])| == items[i].width + |Packed(items[i + 1..])|
  {
    assert items[i..][1..] == items[i + 1..];
    assert items[..i + 1] == items[..i] + [items[i]];
    PackedAppend(items[..i], items[i]);
  }

  lemma NextFits(p: nat, items: seq<Item>, i: nat, n: nat)
    requires i < |items|
    ensures FitsIn(p, items[i..], n) ==
            (LastByte(p, items[i].width) + 1 < n && FitsIn(p + items[i].width, items[i + 1..], n))
  {
    assert items[i..][1..] == items[i + 1..];
    RoomForIff(p, items[i].width, n);
  }

  /** values have been read, items from i on are still to be read at p. */
  ghost predicate ReadSoFar(bs: seq<byte>, start: nat, p: nat, items: seq<Item>, i: nat, values: seq<nat>, n: nat) {
    && i <= |items| && p + |Packed(items[i..])| <= 8 * n
    && values + ReadBack(bs, p, items[i..]) == ReadBack(bs, start, items)
  }

  lemma ReadOneMore(bs: seq<byte>, start: nat, p: nat, items: seq<Item>, i: nat, values: seq<nat>, n: nat)
    returns (w: nat, q: nat, more: seq<nat>)
    requires i < |items| && Writable(items) && ReadSoFar(bs, start, p, items, i, values, n)
    ensures w == ReadWidth(items[i].width) == Available(p, w, n)
    ensures q == p + w && more == values + [FromBits(Field(bs, p, w))]
    ensures ReadSoFar(bs, start, q, items, i + 1, more, n)
  {
    w := ReadWidth(items[i].width);
    q, more := p + w, values + [FromBits(Field(bs, p, w))];
    NextPacked(items, i);
    AllAvailable(p, w, n);
    assert items[i..][1..] == items[i + 1..];
    Assoc(values, [FromBits(Field(bs, p, w))], ReadBack(bs, p + w, items[i + 1..]));
  }

  /** Write items in turn, up to the first write that fails. */
  method WriteItems(s: BitStream, items: seq<Item>) returns (ok: bool)
    requires s.Writing() && s.written == [] && Writable(items)
    modifies s`bitaddr, s`written, s.buf
    ensures s.Writing()
    ensures forall j :: 0 <= j < s.base || s.base + s.maxbyte <= j < s.buf.Length ==> s.buf[j] == old(s.buf[j])
    ensures ok <==> FitsIn(0, items, s.maxbyte)
    ensures ok ==> s.written == Packed(items)
  {
    assert items[0..] == items;
    for i := 0 to |items|
      invariant s.Writing() && s.written == Packed(items[..i])
      invariant FitsIn(s.bitaddr, items[i..], s.maxbyte) == FitsIn(0, items, s.maxbyte)
      invariant forall j :: 0 <= j < s.base || s.base + s.maxbyte <= j < s.buf.Length ==> s.buf[j] == old(s.buf[j])
    {
      NextPacked(items, i);
      NextFits(s.bitaddr, items, i, s.maxbyte);
      var ret := s.Write(items[i].width, items[i].value);
      if ret < 0 {
        return false;
      }
    }
    assert items[..|items|] == items;
    ok := true;
  }

  /** Read fields of the same widths in turn. */
  method ReadItems(s: BitStream, items: seq<Item>) returns (values: seq<nat>)
    requires s.Readable() && Writable(items) && s.bitaddr + |Packed(items)| <= 8 * s.maxbyte
    modifies s`bitaddr
    ensures values == ReadBack(s.Memory(), old(s.bitaddr), items)
    ensures Packable(items) ==> values == Unpacked(s.Memory(), old(s.bitaddr), items)
  {
    ghost var memory, start, n := s.Memory(), s.bitaddr, s.maxbyte;
    ghost var p, sofar := start, [];
    values := [];
    NothingRead(memory, start, items, n);
    for i := 0 to |items|
      invariant s.bitaddr == p && values == sofar
      invariant ReadSoFar(memory, start, p, items, i, sofar, n)
    {
      ghost var w, q, more := ReadOneMore(memory, start, p, items, i, sofar, n);
      var value := s.Read(items[i].width);
      values := values + [value];
      p, sofar := q, more;
    }
    AllRead(memory, start, p, items, sofar, n);
  }

  lemma NothingRead(bs: seq<byte>, start: nat, items: seq<Item>, n: nat)
    requires start + |Packed(items)| <= 8 * n
    ensures ReadSoFar(bs, start, start, items, 0, [], n)
  {
    assert items[0..] == items;
    assert [] + ReadBack(bs, start, items) == ReadBack(bs, start, items);
  }

  lemma AllRead(bs: seq<byte>, start: nat, p: nat, items: seq<Item>, values: seq<nat>, n: nat)
    requires ReadSoFar(bs, start, p, items, |items|, values, n)
    ensures values == ReadBack(bs, start, items)
    ensures Packable(items) ==> values == Unpacked(bs, start, items)
  {
    assert values + [] == values;
    if Packable(items) { NarrowReadBack(bs, start, items); }
  }

  /** What is read back of a run that the buffer holds. */
  lemma ReadsWhatIsHeld(memory: seq<byte>, window: seq<byte>, items: seq<Item>)
    requires Writable(items) && window <= memory
    requires Holds(window, Packed(items)) && |Packed(items)| <= 8 * |window|
    ensures ReadBack(memory, 0, items) == Values(items) <==> ComesBack(items)
    ensures Packable(items) ==> Unpacked(memory, 0, items) == Values(items)
  {
    var n := |Packed(items)|;
    HoldsField(window, Packed(items), 0, n);
    FieldInPrefix(memory, window, 0, n);
    WideRunsKeepExactly(memory, 0, items);
    if Packable(items) { PackerRoundTrip(memory, 0, items); }
  }

  lemma StartOfRest<T>(a: seq<T>, off: nat, len: nat)
    requires off + len <= |a|
    ensures a[off..off + len] <= a[off..]
  {
    assert a[off..][..len] == a[off..off + len];
  }

  /** Items written to a part of b that they fit are read back from it unchanged
      exactly when they are such a run; in particular if none is wider than 16 bits. */
  method WriteThenRead(b: array<byte>, off: nat, len: nat, items: seq<Item>) returns (ok: bool, values: seq<nat>)
    requires off + len < b.Length && Writable(items)
    modifies b
    ensures ok <==> FitsIn(0, items, len)
    ensures ok ==> (values == Values(items) <==> ComesBack(items))
    ensures ok && Packable(items) ==> values == Values(items)
    ensures forall j :: 0 <= j < off || off + len <= j < b.Length ==> b[j] == old(b[j])
  {
    var output := new BitStream.InitOutput(b, off, len);
    ok := WriteItems(output, items);
    values := [];
    if ok {
      FitsInBits(0, items, len);
      var input := new BitStream.InitInput(b, off, len);
      StartOfRest(b[..], off, len);
      ReadsWhatIsHeld(b[off..], output.Window(), items);
      values := ReadItems(input, items);
    }
  }
}
