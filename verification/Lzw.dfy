/** The 9-bit LZW code of server_util.c, over sequences of codes.

    A dictionary entry is (parent, chr); entry j is node 257 + j.  Nodes 0..255
    are the single bytes and code 256 is end of file. */
module Lzw {
  import opened Bytes

  const EOF: nat := 256           // CHAR_SIZE
  const FIRST_FREE: nat := 257    // CHAR_SIZE + 1
  const NODE_SIZE: nat := 512
  const MAX_ENTRIES: nat := 255   // NODE_SIZE - FIRST_FREE

  datatype Entry = Entry(parent: nat, chr: byte)

  type Dict = seq<Entry>

  /** Code c names a byte or one of the first n entries. */
  predicate IsWord(n: nat, c: nat) {
    c < EOF || FIRST_FREE <= c < FIRST_FREE + n
  }

  ghost predicate WellFormed(d: Dict) {
    |d| <= MAX_ENTRIES && forall j :: 0 <= j < |d| ==> IsWord(j, d[j].parent)
  }

  function Expand(d: Dict, c: nat): (w: seq<byte>)
    requires WellFormed(d) && IsWord(|d|, c)
    ensures 1 <= |w| <= |d| + 1
    ensures c >= FIRST_FREE ==> |w| <= c - FIRST_FREE + 2
    decreases c
  {
    if c < EOF then [c] else
      var e := d[c - FIRST_FREE];
      Expand(d, e.parent) + [e.chr]
  }

  function Register(d: Dict, w: nat, k: byte): (r: Dict) {
    if |d| < MAX_ENTRIES then d + [Entry(w, k)] else d
  }

  /** The latest of the first n entries that extends w by k, or 0. */
  function FindBelow(d: Dict, n: nat, w: nat, k: int): (rv: nat)
    requires n <= |d|
    ensures rv == 0 || (FIRST_FREE <= rv < FIRST_FREE + n &&
                        d[rv - FIRST_FREE].parent == w && d[rv - FIRST_FREE].chr == k)
  {
    if n == 0 then 0
    else if d[n - 1].parent == w && d[n - 1].chr == k then EOF + n
    else FindBelow(d, n - 1, w, k)
  }

  /** Nothing is found only where there is nothing, and otherwise the latest. */
  lemma {:induction false} FindIsExact(d: Dict, n: nat, w: nat, k: int)
    requires n <= |d|
    ensures forall j :: 0 <= j < n && d[j].parent == w && d[j].chr == k ==>
              FindBelow(d, n, w, k) >= FIRST_FREE + j
  {
    if n > 0 { FindIsExact(d, n - 1, w, k); }
  }

  function Find(d: Dict, w: nat, k: int): nat {
    FindBelow(d, |d|, w, k)
  }

  /** The compressor's dictionary just after it emitted code. */
  datatype Emission = Emission(code: nat, dict: Dict)

  /** The emissions, short of the end-of-file code, from dictionary d with
      pattern w pending and the bytes of rest still to read. */
  function Emissions(d: Dict, w: nat, rest: seq<byte>): (es: seq<Emission>)
    ensures 1 <= |es| <= |rest| + 1
    decreases |rest|
  {
    if rest == [] then [Emission(w, d)] else
      var k := rest[0];
      var rv := Find(d, w, k);
      if rv > 0 then Emissions(d, rv, rest[1..])
      else
        var d' := Register(d, w, k);
        [Emission(w, d')] + Emissions(d', k, rest[1..])
  }

  function CodesOf(es: seq<Emission>): (cs: seq<nat>)
    ensures |cs| == |es|
    ensures forall i :: 0 <= i < |es| ==> cs[i] == es[i].code
  {
    if es == [] then [] else [es[0].code] + CodesOf(es[1..])
  }

  /** Everything the compressor emits before the end-of-file code. */
  function Words(text: seq<byte>): (es: seq<Emission>)
    requires text != []
    ensures 1 <= |es| <= |text|
  {
    Emissions([], text[0], text[1..])
  }

  function Compressed(text: seq<byte>): (cs: seq<nat>)
    requires text != []
    ensures 2 <= |cs| <= |text| + 1
  {
    CodesOf(Words(text)) + [EOF]
  }

  /** The decompressor between two codes: w is the previous code, k the first
      byte it stood for, len the number of bytes written so far. */
  datatype Decoder = Decoder(dict: Dict, w: nat, k: byte, len: nat)

  ghost predicate Sound(s: Decoder) {
    && WellFormed(s.dict)
    && IsWord(|s.dict|, s.w)
    && Expand(s.dict, s.w)[0] == s.k
  }

  const START: Decoder := Decoder([], 0, 0, 0)

  /** rv is a word already, or exactly the next entry to be registered. */
  predicate CanRead(s: Decoder, rv: nat) {
    IsWord(|s.dict|, rv) || (rv == FIRST_FREE + |s.dict| && |s.dict| < MAX_ENTRIES)
  }

  function WordOf(s: Decoder, rv: nat): (word: seq<byte>)
    requires Sound(s) && CanRead(s, rv)
    ensures 1 <= |word| <= 256
  {
    if rv >= FIRST_FREE + |s.dict| then Expand(s.dict, s.w) + [s.k] else Expand(s.dict, rv)
  }

  function Read(s: Decoder, rv: nat): (s': Decoder)
    requires Sound(s) && CanRead(s, rv)
    ensures Sound(s')
  {
    var word := WordOf(s, rv);
    var len := s.len + |word|;
    var dict := if len > 1 then Register(s.dict, s.w, word[0]) else s.dict;
    ReadIsSound(s, rv, dict);
    Decoder(dict, rv, word[0], len)
  }

  lemma ReadIsSound(s: Decoder, rv: nat, dict: Dict)
    requires Sound(s) && CanRead(s, rv)
    requires dict == if s.len + |WordOf(s, rv)| > 1 then Register(s.dict, s.w, WordOf(s, rv)[0]) else s.dict
    ensures WellFormed(dict) && IsWord(|dict|, rv) && Expand(dict, rv)[0] == WordOf(s, rv)[0]
  {
    if rv < FIRST_FREE + |s.dict| {
      ExpandInPrefix(s.dict, dict, rv);
    } else {
      ExpandInPrefix(s.dict, dict, s.w);
    }
  }

  /** Every code of cs can be read in turn, and none is the end-of-file code. */
  ghost predicate Legal(s: Decoder, cs: seq<nat>)
    requires Sound(s)
    decreases |cs|
  {
    cs == [] || (CanRead(s, cs[0]) && Legal(Read(s, cs[0]), cs[1..]))
  }

  function ReadAll(s: Decoder, cs: seq<nat>): (s': Decoder)
    requires Sound(s) && Legal(s, cs)
    ensures Sound(s')
    decreases |cs|
  {
    if cs == [] then s else ReadAll(Read(s, cs[0]), cs[1..])
  }

  /** The bytes the decompressor writes for cs. */
  function Output(s: Decoder, cs: seq<nat>): (out: seq<byte>)
    requires Sound(s) && Legal(s, cs)
    ensures |out| >= |cs|
    decreases |cs|
  {
    if cs == [] then [] else WordOf(s, cs[0]) + Output(Read(s, cs[0]), cs[1..])
  }

  lemma {:induction false} ExpandInPrefix(d: Dict, e: Dict, c: nat)
    requires d <= e && WellFormed(d) && WellFormed(e) && IsWord(|d|, c)
    ensures Expand(d, c) == Expand(e, c)
    decreases c
  {
    if c >= FIRST_FREE {
      ExpandInPrefix(d, e, d[c - FIRST_FREE].parent);
    }
  }
}
