/** Fields of more than 16 bits.  readInputBitStream asks for their last piece with
    a width that readInputBitStreamBody refuses, so it takes fewer bits than were
    written, and everything behind such a field is read from too early a place. */
module WideFields {
  import opened Bytes
  import opened Bits
  import opened BitPacker

  /** How many bits readInputBitStream takes for a width. */
  function ReadWidth(w: int): nat {
    if w <= 0 then 0 else if w <= 16 then w else if w <= 24 then 16 else if w <= 32 then 24 else 0
  }

  /** Of w bits at p, how many whole pieces start inside a buffer of n bytes. */
  function Available(p: nat, w: nat, n: nat): (a: nat)
    ensures a <= w
    decreases w
  {
    if p >= 8 * n then 0 else if w <= 8 then w else 8 + Available(p + 8, w - 8, n)
  }

  lemma {:induction false} AllAvailable(p: nat, w: nat, n: nat)
    requires p + w <= 8 * n
    ensures Available(p, w, n) == w
    decreases w
  {
    if w > 8 { AllAvailable(p + 8, w - 8, n); }
  }

  /** The widths that writeOutputBitStream accepts. */
  predicate Writable(items: seq<Item>) {
    forall i :: 0 <= i < |items| ==> 1 <= items[i].width <= 32
  }

  /** What reading fields of the widths of items in turn, from position p, returns. */
  function ReadBack(bs: seq<byte>, p: nat, items: seq<Item>): (values: seq<nat>)
    decreases |items|
  {
    if items == [] then [] else
      var w := ReadWidth(items[0].width);
      [FromBits(Field(bs, p, w))] + ReadBack(bs, p + w, items[1..])
  }

  lemma {:induction false} NarrowReadBack(bs: seq<byte>, p: nat, items: seq<Item>)
    requires Packable(items)
    ensures ReadBack(bs, p, items) == Unpacked(bs, p, items)
    decreases |items|
  {
    if items != [] { NarrowReadBack(bs, p + items[0].width, items[1..]); }
  }

  predicate AllZero(items: seq<Item>) {
    items == [] || (items[0].value == 0 && AllZero(items[1..]))
  }

  /** Every value up to the first wide one needs no more bits than are read of it,
      and every value behind that one is 0. */
  predicate ComesBack(items: seq<Item>) {
    items == [] ||
    (items[0].value <= Ones(ReadWidth(items[0].width)) &&
     if items[0].width <= 16 then ComesBack(items[1..]) else AllZero(items[1..]))
  }

  lemma {:induction false} PackableComesBack(items: seq<Item>)
    requires Packable(items)
    ensures ComesBack(items)
  {
    if items != [] { PackableComesBack(items[1..]); }
  }

  /** With a wide field at its end only, a run comes back exactly when that value does. */
  lemma {:induction false} LastWideComesBack(items: seq<Item>, last: Item)
    requires Packable(items) && 16 < last.width <= 32
    ensures ComesBack(items + [last]) <==> last.value <= Ones(ReadWidth(last.width))
    decreases |items|
  {
    if items == [] {
      assert items + [last] == [last];
      assert [last][1..] == [];
    } else {
      assert (items + [last])[1..] == items[1..] + [last];
      LastWideComesBack(items[1..], last);
    }
  }

  function Zeros(n: nat): (bits: seq<bool>)
    ensures |bits| == n
  {
    seq(n, _ => false)
  }

  lemma {:induction false} FromZeros(n: nat)
    ensures FromBits(Zeros(n)) == 0
  {
    if n > 0 {
      assert Zeros(n)[1..] == Zeros(n - 1);
      FromZeros(n - 1);
    }
  }

  lemma {:induction false} BitsOfZero(n: nat)
    ensures BitsOf(0, n) == Zeros(n)
  {
    if n > 0 {
      BitsOfZero(n - 1);
      assert [false] + Zeros(n - 1) == Zeros(n);
    }
  }

  lemma {:induction false} FromBitsBit(bits: seq<bool>, k: nat)
    ensures Bit(FromBits(bits), k) == (k < |bits| && bits[k])
    decreases |bits|
  {
    if bits == [] {
      ZeroBit(k);
    } else if k > 0 {
      assert FromBits(bits) / 2 == FromBits(bits[1..]);
      FromBitsBit(bits[1..], k - 1);
    }
  }

  /** A field that is read in full or cut off at n bits. */
  lemma CutField(v: nat, w: nat, n: nat)
    requires n <= w
    ensures BitsOf(v, w)[..n] == BitsOf(v, n)
    ensures v <= Ones(n) ==> BitsOf(v, w)[n..] == Zeros(w - n)
  {
    forall k | 0 <= k < n ensures BitsOf(v, w)[k] == BitsOf(v, n)[k] {
      BitsOfAt(v, w, k);
      BitsOfAt(v, n, k);
    }
    if v <= Ones(n) {
      forall k | n <= k < w ensures !BitsOf(v, w)[k] {
        BitsOfAt(v, w, k);
        NoHighBit(v, n, k);
      }
    }
  }

  lemma CutValue(v: nat, n: nat)
    ensures FromBits(BitsOf(v, n)) == v <==> v <= Ones(n)
  {
    if v <= Ones(n) { FromBitsOf(v, n); }
  }

  /** Reading is lag bits behind: in front of items there are still that many zeros. */
  ghost predicate Lags(bs: seq<byte>, p: nat, lag: nat, items: seq<Item>)
    decreases lag
  {
    if lag == 0 then Field(bs, p, |Packed(items)|) == Packed(items)
    else !StreamBit(bs, p) && Lags(bs, p + 1, lag - 1, items)
  }

  lemma {:induction false} LagsIff(bs: seq<byte>, p: nat, lag: nat, items: seq<Item>)
    ensures Lags(bs, p, lag, items) <==> Field(bs, p, lag + |Packed(items)|) == Zeros(lag) + Packed(items)
    decreases lag
  {
    if lag == 0 {
      assert Zeros(0) + Packed(items) == Packed(items);
    } else {
      LagsIff(bs, p + 1, lag - 1, items);
      var more := lag - 1 + |Packed(items)|;
      FieldSplits(bs, p, 1, more);
      assert Field(bs, p, 1) == [StreamBit(bs, p)];
      assert Zeros(lag) + Packed(items) == [false] + (Zeros(lag - 1) + Packed(items));
      SameLists(StreamBit(bs, p), Field(bs, p + 1, more), false, Zeros(lag - 1) + Packed(items));
    }
  }

  lemma HoldsLate(bs: seq<byte>, p: nat, lag: nat, items: seq<Item>, bits: seq<bool>)
    requires bits == Zeros(lag) + Packed(items) && Field(bs, p, |bits|) == bits
    ensures Lags(bs, p, lag, items)
  {
    LagsIff(bs, p, lag, items);
  }

  /** What the buffer holds at p, taken in two steps. */
  lemma TakeBits(bs: seq<byte>, p: nat, first: seq<bool>, more: seq<bool>)
    requires Field(bs, p, |first + more|) == first + more
    ensures Field(bs, p, |first|) == first && Field(bs, p + |first|, |more|) == more
  {
    FieldSplits(bs, p, |first|, |more|);
    assert (first + more)[..|first|] == first && (first + more)[|first|..] == more;
  }

  /** A number whose every bit stands at least lag above another of its bits is 0. */
  lemma {:induction false} NoLowestBit(v: nat, lag: nat, k: nat)
    requires lag > 0 && forall j: nat :: Bit(v, j) ==> j >= lag && Bit(v, j - lag)
    ensures !Bit(v, k)
  {
    if Bit(v, k) { NoLowestBit(v, lag, k - lag); }
  }

  /** Read too early, a value is right only if it is 0 ... */
  lemma LateIsZero(bs: seq<byte>, p: nat, lag: nat, items: seq<Item>, n: nat)
    requires lag > 0 && items != [] && n <= items[0].width && Lags(bs, p, lag, items)
    requires FromBits(Field(bs, p, n)) == items[0].value
    ensures items[0].value == 0
  {
    var v := items[0].value;
    var s := Zeros(lag) + Packed(items);
    LagsIff(bs, p, lag, items);
    TakeBits(bs, p, s[..n], s[n..]);
    forall j: nat | Bit(v, j) ensures j >= lag && Bit(v, j - lag) {
      FromBitsBit(s[..n], j);
      LateBit(lag, items, j);
    }
    if v > 0 {
      SomeBit(v);
      var k: nat :| Bit(v, k);
      NoLowestBit(v, lag, k);
    }
  }

  lemma LateBit(lag: nat, items: seq<Item>, j: nat)
    requires items != [] && j < items[0].width && (Zeros(lag) + Packed(items))[j]
    ensures j >= lag && Bit(items[0].value, j - lag)
  {
    assert Packed(items)[j - lag] == BitsOf(items[0].value, items[0].width)[j - lag];
    BitsOfAt(items[0].value, items[0].width, j - lag);
  }

  /** ... and 0 is read as 0, and leaves the reading behind. */
  lemma ZeroIsLate(bs: seq<byte>, p: nat, lag: nat, items: seq<Item>, n: nat) returns (later: nat)
    requires items != [] && n <= items[0].width && Lags(bs, p, lag, items) && items[0].value == 0
    ensures FromBits(Field(bs, p, n)) == 0
    ensures later >= lag && Lags(bs, p + n, later, items[1..])
  {
    var w, more := items[0].width, Packed(items[1..]);
    LagsIff(bs, p, lag, items);
    BitsOfZero(w);
    RegroupZeros(lag, w, n, more);
    TakeBits(bs, p, Zeros(n), Zeros(lag + w - n) + more);
    FromZeros(n);
    later := lag + w - n;
    HoldsLate(bs, p + n, later, items[1..], Zeros(later) + more);
  }

  lemma RegroupZeros(lag: nat, w: nat, n: nat, more: seq<bool>)
    requires n <= w
    ensures Zeros(lag) + (Zeros(w) + more) == Zeros(n) + (Zeros(lag + w - n) + more)
  {
  }

  /** One read of n bits, and the rest of them. */
  lemma FirstOfMany(bs: seq<byte>, p: nat, items: seq<Item>) returns (n: nat, x: nat, rest: seq<Item>)
    requires items != [] && Writable(items)
    ensures n == ReadWidth(items[0].width) <= items[0].width && x == FromBits(Field(bs, p, n))
    ensures rest == items[1..] && Writable(rest)
    ensures ReadBack(bs, p, items) == Values(items) <==>
            x == items[0].value && ReadBack(bs, p + n, rest) == Values(rest)
  {
    n, rest := ReadWidth(items[0].width), items[1..];
    x := FromBits(Field(bs, p, n));
    SameLists(x, ReadBack(bs, p + n, rest), items[0].value, Values(rest));
  }

  lemma ComesBackStep(items: seq<Item>, n: nat)
    requires items != [] && Writable(items) && n == ReadWidth(items[0].width)
    ensures ComesBack(items) <==>
            items[0].value <= Ones(n) &&
            if items[0].width - n == 0 then ComesBack(items[1..]) else AllZero(items[1..])
  {
  }

  /** One read that comes too early. */
  lemma LateStep(bs: seq<byte>, p: nat, lag: nat, items: seq<Item>) returns (q: nat, later: nat, rest: seq<Item>)
    requires lag > 0 && items != [] && Writable(items) && Lags(bs, p, lag, items)
    ensures |rest| < |items| && Writable(rest)
    ensures items[0].value == 0 ==> later > 0 && Lags(bs, q, later, rest)
    ensures AllZero(items) <==> items[0].value == 0 && AllZero(rest)
    ensures ReadBack(bs, p, items) == Values(items) <==>
            items[0].value == 0 && ReadBack(bs, q, rest) == Values(rest)
  {
    var n, x;
    n, x, rest := FirstOfMany(bs, p, items);
    q, later := p + n, 0;
    if items[0].value == 0 {
      later := ZeroIsLate(bs, p, lag, items, n);
    } else if x == items[0].value {
      LateIsZero(bs, p, lag, items, n);
    }
  }

  lemma {:induction false} LateReads(bs: seq<byte>, p: nat, lag: nat, items: seq<Item>)
    requires lag > 0 && Writable(items) && Lags(bs, p, lag, items)
    ensures ReadBack(bs, p, items) == Values(items) <==> AllZero(items)
    decreases |items|
  {
    if items != [] {
      var q, later, rest := LateStep(bs, p, lag, items);
      if items[0].value == 0 { LateReads(bs, q, later, rest); }
    }
  }

  /** The bits that are read of the first field, and those that are not. */
  lemma FirstBits(items: seq<Item>, n: nat) returns (rest: seq<bool>)
    requires items != [] && n <= items[0].width
    ensures Packed(items) == BitsOf(items[0].value, n) + (rest + Packed(items[1..]))
    ensures |rest| == items[0].width - n && (items[0].value <= Ones(n) ==> rest == Zeros(items[0].width - n))
  {
    var bits := BitsOf(items[0].value, items[0].width);
    CutField(items[0].value, items[0].width, n);
    rest := bits[n..];
    assert bits == bits[..n] + rest;
    Assoc(bits[..n], rest, Packed(items[1..]));
  }

  /** The first field of a run, of which n bits are read at its own place. */
  lemma FirstRead(bs: seq<byte>, p: nat, items: seq<Item>, n: nat) returns (lag: nat)
    requires items != [] && n <= items[0].width && Lags(bs, p, 0, items)
    ensures FromBits(Field(bs, p, n)) == items[0].value <==> items[0].value <= Ones(n)
    ensures lag == items[0].width - n
    ensures items[0].value <= Ones(n) ==> Lags(bs, p + n, lag, items[1..])
  {
    var rest := FirstBits(items, n);
    lag := |rest|;
    TakeBits(bs, p, BitsOf(items[0].value, n), rest + Packed(items[1..]));
    CutValue(items[0].value, n);
    if items[0].value <= Ones(n) { HoldsLate(bs, p + n, lag, items[1..], rest + Packed(items[1..])); }
  }

  /** One read at the right place. */
  lemma RunStep(bs: seq<byte>, p: nat, items: seq<Item>) returns (n: nat, lag: nat, rest: seq<Item>)
    requires items != [] && Writable(items) && Lags(bs, p, 0, items)
    ensures |rest| < |items| && Writable(rest)
    ensures items[0].value <= Ones(n) ==> Lags(bs, p + n, lag, rest)
    ensures ComesBack(items) <==> items[0].value <= Ones(n) && if lag == 0 then ComesBack(rest) else AllZero(rest)
    ensures ReadBack(bs, p, items) == Values(items) <==>
            items[0].value <= Ones(n) && ReadBack(bs, p + n, rest) == Values(rest)
  {
    var x;
    n, x, rest := FirstOfMany(bs, p, items);
    ComesBackStep(items, n);
    lag := FirstRead(bs, p, items, n);
  }

  lemma {:induction false} RunReads(bs: seq<byte>, p: nat, items: seq<Item>)
    requires Writable(items) && Lags(bs, p, 0, items)
    ensures ReadBack(bs, p, items) == Values(items) <==> ComesBack(items)
    decreases |items|
  {
    if items != [] {
      var n, lag, rest := RunStep(bs, p, items);
      if items[0].value <= Ones(n) {
        if lag == 0 { RunReads(bs, p + n, rest); } else { LateReads(bs, p + n, lag, rest); }
      }
    }
  }

  /** A run of fields of 1 to 32 bits is read back intact exactly when every value up
      to the first wide one fits the bits that are read of it and every later one is 0. */
  lemma WideRunsKeepExactly(bs: seq<byte>, p: nat, items: seq<Item>)
    requires Writable(items) && Field(bs, p, |Packed(items)|) == Packed(items)
    ensures ReadBack(bs, p, items) == Values(items) <==> ComesBack(items)
  {
    RunReads(bs, p, items);
  }

  /** Two ones in seventeen bits each come back as 1 and 2. */
  lemma SecondWideFieldShifts(bs: seq<byte>) returns (items: seq<Item>)
    ensures items == [Item(17, 1), Item(17, 1)] && !ComesBack(items)
    ensures Field(bs, 0, |Packed(items)|) == Packed(items) ==> ReadBack(bs, 0, items) == [1, 2]
  {
    items := [Item(17, 1), Item(17, 1)];
    if Field(bs, 0, |Packed(items)|) == Packed(items) {
      TwoOnes(bs, items, 17, 16);
      BothReads(bs, items, 16);
    }
  }

  lemma BothReads(bs: seq<byte>, items: seq<Item>, n: nat)
    requires |items| == 2 && ReadWidth(items[0].width) == ReadWidth(items[1].width) == n
    ensures ReadBack(bs, 0, items) == [FromBits(Field(bs, 0, n)), FromBits(Field(bs, n, n))]
  {
    assert ReadBack(bs, n + n, items[1..][1..]) == [];
  }

  lemma TwoOnes(bs: seq<byte>, items: seq<Item>, w: nat, n: nat)
    requires items == [Item(w, 1), Item(w, 1)] && w == n + 1 && n >= 2 && Lags(bs, 0, 0, items)
    ensures FromBits(Field(bs, 0, n)) == 1 && FromBits(Field(bs, n, n)) == 2
  {
    OneFits(n);
    var lag := FirstRead(bs, 0, items, n);
    OneLate(bs, n, items[1..], n - 1);
  }

  lemma OneFits(n: nat)
    requires n > 0
    ensures 1 <= Ones(n)
  {
    OnesMonotone(1, n);
  }

  lemma OneLate(bs: seq<byte>, p: nat, items: seq<Item>, n: nat)
    requires items != [] && items[0].value == 1 && 0 < n <= items[0].width && Lags(bs, p, 1, items)
    ensures FromBits(Field(bs, p, n + 1)) == 2
  {
    LagsIff(bs, p, 1, items);
    var rest := FirstBits(items, n);
    Assoc(Zeros(1), BitsOf(1, n), rest + Packed(items[1..]));
    TakeBits(bs, p, Zeros(1) + BitsOf(1, n), rest + Packed(items[1..]));
    OneAfterZero(n);
  }

  lemma OneAfterZero(n: nat)
    requires n > 0
    ensures FromBits(Zeros(1) + BitsOf(1, n)) == 2
  {
    FromBitsAppend(Zeros(1), BitsOf(1, n));
    FromZeros(1);
    OneFits(n);
    FromBitsOf(1, n);
    assert Shl(1, 1) == 2;
  }
}
