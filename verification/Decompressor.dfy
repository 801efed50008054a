/** ringoDecompressor: total on arbitrary code bytes, and exact on legal ones. */
module Decompressor {
  import opened Bytes
  import opened Bits
  import opened BitPacker
  import opened BitStreams
  import opened Lzw
  import opened Compressor

  /** The decompressor's locals. */
  datatype State = State(k: int, w: int, freeNode: int, len: int)

  /** The registered nodes agree with d; all other nodes are arbitrary. */
  ghost predicate Known(nodes: seq<Node>, d: Dict) {
    && |nodes| == NODE_SIZE && |d| <= MAX_ENTRIES
    && forall j :: 0 <= j < |d| ==> nodes[FIRST_FREE + j].parent == d[j].parent && nodes[FIRST_FREE + j].chr == d[j].chr
  }

  ghost predicate InRange(v: State) {
    0 <= v.w < NODE_SIZE && FIRST_FREE <= v.freeNode <= NODE_SIZE && 0 <= v.len
  }

  /** The locals and the node table are those of decoder s. */
  ghost predicate Tracks(nodes: seq<Node>, v: State, s: Decoder) {
    && Sound(s) && Known(nodes, s.dict)
    && v == State(s.k, s.w, FIRST_FREE + |s.dict|, s.len)
  }

  /** The top of the stack spells word, its first byte on top. */
  ghost predicate OnStack(stack: seq<int>, sp: int, word: seq<byte>) {
    && sp == |word| <= |stack|
    && forall i :: 0 <= i < sp ==> stack[i] == word[sp - 1 - i]
  }

  /** The last byte of a registered word, and the word of its parent before it. */
  lemma UnwindStep(d: Dict, k: nat, word: seq<byte>)
    requires WellFormed(d) && IsWord(|d|, k) && k > EOF
    requires |Expand(d, k)| <= |word| && Expand(d, k) == word[..|Expand(d, k)|]
    ensures var e := d[k - FIRST_FREE];
            && IsWord(|d|, e.parent) && |Expand(d, e.parent)| == |Expand(d, k)| - 1
            && Expand(d, e.parent) == word[..|Expand(d, e.parent)|]
            && word[|Expand(d, e.parent)|] == e.chr
  {
    var e := d[k - FIRST_FREE];
    var x := Expand(d, e.parent);
    assert Expand(d, k) == x + [e.chr];
    assert word[..|x|] == word[..|x| + 1][..|x|];
    assert word[|x|] == word[..|x| + 1][|x|];
  }

  /** Push the word of code k0 on top of the sp0 cells in use. */
  method Unwind(node: array<Node>, stack: array<int>, sp0: nat, k0: int, ghost d: Dict)
      returns (ok: bool, sp: nat, k: int)
    requires node.Length == NODE_SIZE && stack.Length == NODE_SIZE && sp0 < NODE_SIZE
    modifies stack
    ensures ok ==> 0 < sp < NODE_SIZE
    ensures Known(node[..], d) && WellFormed(d) && 0 <= k0 && IsWord(|d|, k0) &&
            sp0 + |Expand(d, k0)| < NODE_SIZE ==>
              && ok && sp == sp0 + |Expand(d, k0)| && k == Expand(d, k0)[0]
              && forall i :: sp0 <= i < sp ==> stack[i] == Expand(d, k0)[sp - 1 - i]
    ensures forall i :: 0 <= i < sp0 ==> stack[i] == old(stack[i])
  {
    ghost var good := Known(node[..], d) && WellFormed(d) && 0 <= k0 && IsWord(|d|, k0) &&
                      sp0 + |Expand(d, k0)| < NODE_SIZE;
    ghost var word := if good then Expand(d, k0) else [];
    ok, sp, k := false, sp0, k0;
    while k > EOF
      invariant sp0 <= sp < NODE_SIZE
      invariant forall i :: 0 <= i < sp0 ==> stack[i] == old(stack[i])
      invariant good ==> 0 <= k && IsWord(|d|, k) && |word| == |Expand(d, k)| + (sp - sp0)
      invariant good ==> Expand(d, k) == word[..|Expand(d, k)|]
      invariant good ==> forall i :: sp0 <= i < sp ==> stack[i] == word[sp0 + |word| - 1 - i]
      decreases NODE_SIZE - sp
    {
      if k >= NODE_SIZE {
        return;
      }
      if good { UnwindStep(d, k, word); }
      stack[sp] := node[k].chr;
      sp := sp + 1;
      k := node[k].parent;
      if sp >= NODE_SIZE {
        return;
      }
    }
    stack[sp] := k;
    sp := sp + 1;
    if sp >= NODE_SIZE {
      return;
    }
    ok := true;
  }

  /** The first half of a turn: spell the word of rv on the stack. */
  method Spell(node: array<Node>, stack: array<int>, rv: nat, v: State, ghost s: Decoder)
      returns (ok: bool, sp: nat, k: int)
    requires node.Length == NODE_SIZE && stack.Length == NODE_SIZE
    modifies stack
    ensures ok ==> 0 < sp < NODE_SIZE
    ensures Tracks(node[..], v, s) && CanRead(s, rv) ==>
              ok && OnStack(stack[..], sp, WordOf(s, rv)) && k == WordOf(s, rv)[0]
  {
    if rv >= v.freeNode {
      stack[0] := v.k;
      ok, sp, k := Unwind(node, stack, 1, v.w, s.dict);
    } else {
      ok, sp, k := Unwind(node, stack, 0, rv, s.dict);
    }
  }

  /** The bytes a stack pops out, top first. */
  function Popped(stack: seq<int>): (bytes: seq<byte>)
    ensures |bytes| == |stack|
  {
    seq(|stack|, i requires 0 <= i < |stack| => Truncate(stack[|stack| - 1 - i]))
  }

  lemma OnStackPops(stack: seq<int>, sp: nat, word: seq<byte>)
    requires OnStack(stack, sp, word)
    ensures Popped(stack[..sp]) == word
  {
    forall i | 0 <= i < sp ensures Popped(stack[..sp])[i] == word[i] {
      var j := sp - 1 - i;
      assert stack[..sp][j] == stack[j] == word[sp - 1 - j];
      assert Popped(stack[..sp])[i] == Truncate(stack[..sp][j]);
    }
  }

  /** Output to the text buffer from the stack; -1 when the text is full. */
  method Flush(stack: seq<int>, text: array<byte>, textlen: nat, len0: nat) returns (len: int)
    requires textlen <= text.Length && len0 <= textlen
    modifies text
    ensures len == if len0 + |stack| <= textlen then len0 + |stack| else -1
    ensures len != -1 ==> text[..len] == old(text[..len0]) + Popped(stack)
    ensures forall j :: textlen <= j < text.Length ==> text[j] == old(text[j])
  {
    var sp := |stack|;
    len := len0;
    while sp != 0
      invariant 0 <= sp <= |stack| && len == len0 + (|stack| - sp) <= textlen
      invariant forall j :: len0 <= j < len ==> text[j] == Truncate(stack[len0 + |stack| - 1 - j])
      invariant forall j :: 0 <= j < len0 || textlen <= j < text.Length ==> text[j] == old(text[j])
    {
      len := len + 1;
      if len > textlen {
        return -1;
      }
      sp := sp - 1;
      text[len - 1] := Truncate(stack[sp]);
    }
    assert text[len0..len] == Popped(stack);
  }

  /** Register the previous code w extended by k, if there is room. */
  method AddPair(node: array<Node>, freeNode: int, w: int, k: int, ghost d: Dict) returns (freeNode': int)
    requires node.Length == NODE_SIZE && FIRST_FREE <= freeNode <= NODE_SIZE && 0 <= w < NODE_SIZE
    modifies node
    ensures FIRST_FREE <= freeNode' <= NODE_SIZE
    ensures Known(old(node[..]), d) && freeNode == FIRST_FREE + |d| ==>
              && Known(node[..], Register(d, w, Truncate(k)))
              && freeNode' == FIRST_FREE + |Register(d, w, Truncate(k))|
  {
    freeNode' := freeNode;
    if freeNode < NODE_SIZE {
      node[freeNode] := node[freeNode].(parent := w);
      node[freeNode] := node[freeNode].(chr := Truncate(k));
      // The source's test w >= NODE_SIZE comes here; w is a nine-bit code.
      node[freeNode] := node[freeNode].(brother := node[w].child);
      node[freeNode] := node[freeNode].(child := 0);
      node[w] := node[w].(child := freeNode);
      freeNode' := freeNode + 1;
    }
  }

  /** One turn of the decompressor's loop, for a code other than end of file. */
  method Turn(node: array<Node>, stack: array<int>, text: array<byte>, textlen: nat,
              rv: nat, v: State, ghost s: Decoder)
      returns (ok: bool, v': State)
    requires node.Length == NODE_SIZE && stack.Length == NODE_SIZE && rv < NODE_SIZE
    requires InRange(v) && v.len <= textlen <= text.Length && stack as object != text
    modifies node, stack, text
    ensures ok ==> InRange(v') && v.len < v'.len <= textlen
    ensures forall j :: textlen <= j < text.Length ==> text[j] == old(text[j])
    ensures Tracks(old(node[..]), v, s) && CanRead(s, rv) ==>
              && (ok <==> v.len + |WordOf(s, rv)| <= textlen)
              && (ok ==> Tracks(node[..], v', Read(s, rv)) && text[..v'.len] == old(text[..v.len]) + WordOf(s, rv))
  {
    var sp, k;
    v' := v;
    ok, sp, k := Spell(node, stack, rv, v, s);
    if !ok {
      return;
    }
    if Tracks(old(node[..]), v, s) && CanRead(s, rv) { OnStackPops(stack[..], sp, WordOf(s, rv)); }
    assert stack[..][..sp] == stack[..sp];
    var len := Flush(stack[..sp], text, textlen, v.len);
    if len == -1 {
      ok := false;
      return;
    }
    var freeNode := v.freeNode;
    if len > 1 {
      freeNode := AddPair(node, v.freeNode, v.w, k, s.dict);
    }
    v' := State(k, rv, freeNode, len);
  }

  lemma {:induction false} CarriedCode(bs: seq<byte>, cs: seq<nat>, i: nat)
    requires Carries(bs, cs) && i < |cs| && cs[i] < NODE_SIZE
    ensures FromBits(Field(bs, BITS_LEN * i, BITS_LEN)) == cs[i]
    decreases |cs|
  {
    if i == |cs| - 1 {
      assert Ones(9) == 511 by { OnesByte(); }
      FromBitsOf(cs[i], BITS_LEN);
    } else {
      CarriedCode(bs, cs[..|cs| - 1], i);
    }
  }

  /** The stream carries cs and then the end-of-file code, and cs is legal. */
  ghost predicate Decodable(s: BitStream, cs: seq<nat>)
    reads s, s.buf
    requires s.Valid()
  {
    && Carries(s.Memory(), cs + [EOF])
    && BITS_LEN * (|cs| + 1) <= 8 * s.maxbyte
    && Legal(START, cs)
  }

  /** The next code is the first of rest, or end of file if rest is empty. */
  lemma NextCode(s: BitStream, cs: seq<nat>, done: nat)
    requires s.Valid() && Decodable(s, cs) && done <= |cs|
    requires done < |cs| ==> cs[done] < NODE_SIZE
    ensures BITS_LEN * done + BITS_LEN <= 8 * s.maxbyte
    ensures FromBits(Field(s.Memory(), BITS_LEN * done, BITS_LEN)) == (cs + [EOF])[done]
  {
    CarriedCode(s.Memory(), cs + [EOF], done);
  }

  /** After some codes of cs: rest is still to be read. */
  ghost predicate Progress(cs: seq<nat>, rest: seq<nat>, dec: Decoder, out: seq<byte>) {
    && Sound(dec) && Legal(dec, rest) && Legal(START, cs)
    && |rest| <= |cs| && rest == cs[|cs| - |rest|..]
    && out + Output(dec, rest) == Output(START, cs)
  }

  lemma ProgressStep(cs: seq<nat>, rest: seq<nat>, dec: Decoder, out: seq<byte>)
    requires Progress(cs, rest, dec, out) && rest != []
    ensures CanRead(dec, rest[0]) && rest[0] == cs[|cs| - |rest|]
    ensures Progress(cs, rest[1..], Read(dec, rest[0]), out + WordOf(dec, rest[0]))
    ensures |out| + |WordOf(dec, rest[0])| <= |Output(START, cs)|
  {
    var word, more := WordOf(dec, rest[0]), Output(Read(dec, rest[0]), rest[1..]);
    assert out + (word + more) == out + word + more;
  }

  ghost predicate LoopInv(nodes: seq<Node>, v: State, dec: Decoder, cs: seq<nat>, rest: seq<nat>,
                          out: seq<byte>, bitaddr: nat)
  {
    Tracks(nodes, v, dec) && Progress(cs, rest, dec, out) && bitaddr == BITS_LEN * (|cs| - |rest|)
  }

  datatype Outcome = EndOfFile | Failed | Continues

  lemma NineBits(x: nat)
    requires x <= Ones(BITS_LEN)
    ensures x < NODE_SIZE
  {
    OnesByte();
  }

  /** One code off the stream. */
  method ReadCode(s: BitStream, ghost cs: seq<nat>, ghost done: nat) returns (rv: nat)
    requires s.Readable()
    modifies s`bitaddr
    ensures rv < NODE_SIZE
    ensures old(Decodable(s, cs)) && done <= |cs| && (done < |cs| ==> cs[done] < NODE_SIZE) &&
            old(s.bitaddr) == BITS_LEN * done ==>
              rv == (cs + [EOF])[done] && s.bitaddr == BITS_LEN * (done + 1)
  {
    if Decodable(s, cs) && done <= |cs| && (done < |cs| ==> cs[done] < NODE_SIZE) { NextCode(s, cs, done); }
    rv := s.Read(BITS_LEN);
    NineBits(rv);
  }

  /** What the next code is, for a run in progress. */
  lemma NextInProgress(cs: seq<nat>, rest: seq<nat>, dec: Decoder, out: seq<byte>)
    requires Progress(cs, rest, dec, out)
    ensures var done := |cs| - |rest|;
            && (rest == [] ==> (cs + [EOF])[done] == EOF)
            && (rest != [] ==>
                  cs[done] == rest[0] == (cs + [EOF])[done] && CanRead(dec, rest[0]) && rest[0] < NODE_SIZE)
            && (rest != [] ==> rest[0] != EOF)
  {
  }

  /** Read a code and, unless it is end of file, decode it. */
  method ReadTurn(node: array<Node>, stack: array<int>, text: array<byte>, textlen: nat, s: BitStream, v: State,
                  ghost cs: seq<nat>, ghost rest: seq<nat>, ghost dec: Decoder)
      returns (outcome: Outcome, v': State, ghost rest': seq<nat>, ghost dec': Decoder)
    requires node.Length == NODE_SIZE && stack.Length == NODE_SIZE && stack as object != text
    requires InRange(v) && v.len <= textlen <= text.Length
    requires s.Readable() && s.buf != text && stack as object != s.buf
    modifies node, stack, text, s`bitaddr
    ensures outcome == EndOfFile ==> v' == v && text[..] == old(text[..])
    ensures outcome == Continues ==> InRange(v') && v.len < v'.len <= textlen
    ensures forall j :: textlen <= j < text.Length ==> text[j] == old(text[j])
    ensures old(Decodable(s, cs) && LoopInv(node[..], v, dec, cs, rest, text[..v.len], s.bitaddr)) ==>
              && (outcome == EndOfFile <==> rest == [])
              && (outcome == Failed ==> |Output(START, cs)| > textlen)
              && (outcome == Continues ==> LoopInv(node[..], v', dec', cs, rest', text[..v'.len], s.bitaddr))
  {
    ghost var good := Decodable(s, cs) && LoopInv(node[..], v, dec, cs, rest, text[..v.len], s.bitaddr);
    ghost var out := text[..v.len];
    v', rest', dec' := v, rest, dec;
    if good { NextInProgress(cs, rest, dec, out); }
    var rv := ReadCode(s, cs, if good then |cs| - |rest| else 0);
    if rv == EOF {
      outcome := EndOfFile;
      return;
    }
    if good { ProgressStep(cs, rest, dec, out); }
    var ok;
    ok, v' := Turn(node, stack, text, textlen, rv, v, dec);
    outcome := if ok then Continues else Failed;
    if good {
      rest', dec' := rest[1..], Read(dec, rest[0]);
    }
  }

  method Run(node: array<Node>, stack: array<int>, text: array<byte>, textlen: nat, s: BitStream, ghost cs: seq<nat>)
      returns (len: int)
    requires node.Length == NODE_SIZE && stack.Length == NODE_SIZE && stack as object != text
    requires textlen <= text.Length && s.Readable() && s.bitaddr == 0 && s.buf != text && stack as object != s.buf
    modifies node, stack, text, s`bitaddr
    ensures -1 <= len <= textlen
    ensures forall j :: textlen <= j < text.Length ==> text[j] == old(text[j])
    ensures old(Decodable(s, cs)) ==>
              && len == (if |Output(START, cs)| <= textlen then |Output(START, cs)| else -1)
              && (len != -1 ==> text[..len] == Output(START, cs))
  {
    ghost var good := Decodable(s, cs);
    ghost var rest, dec := cs, START;
    var v := State(0, 0, FIRST_FREE, 0);
    while true
      invariant InRange(v) && v.len <= textlen
      invariant s.Readable() && (good ==> Decodable(s, cs))
      invariant forall j :: textlen <= j < text.Length ==> text[j] == old(text[j])
      invariant good ==> LoopInv(node[..], v, dec, cs, rest, text[..v.len], s.bitaddr)
      decreases textlen - v.len
    {
      var outcome;
      outcome, v, rest, dec := ReadTurn(node, stack, text, textlen, s, v, cs, rest, dec);
      if outcome == EndOfFile {
        break;
      }
      if outcome == Failed {
        return -1;
      }
    }
    len := v.len;
  }

  /** ringoDecompressor(text, textlen, code + off, codelen).  For every legal
      code sequence cs that the code bytes carry, exactly its output, or -1 if
      that is longer than textlen; for any other bytes, some result from -1 to
      textlen.  Nothing past textlen is written. */
  method Decompress(text: array<byte>, textlen: nat, code: array<byte>, off: nat, codelen: int, ghost cs: seq<nat>)
      returns (len: int)
    requires textlen <= text.Length && text != code
    requires codelen > 0 ==> off + codelen < code.Length
    modifies text
    ensures -1 <= len <= textlen && (codelen <= 0 ==> len == -1)
    ensures forall j :: textlen <= j < text.Length ==> text[j] == old(text[j])
    ensures codelen > 0 && Carries(code[off..], cs + [EOF]) && BITS_LEN * (|cs| + 1) <= 8 * codelen &&
            Legal(START, cs) ==>
              && len == (if |Output(START, cs)| <= textlen then |Output(START, cs)| else -1)
              && (len != -1 ==> text[..len] == Output(START, cs))
  {
    if codelen <= 0 {
      return -1;
    }
    var node := new Node[NODE_SIZE];
    var stack := new int[NODE_SIZE];
    var s := new BitStream.InitInput(code, off, codelen);
    assert s.Memory() == code[off..];
    len := Run(node, stack, text, textlen, s, cs);
  }
}
