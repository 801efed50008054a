/** ringoCompressor: the dictionary is a tree of nodes linked by first child and
    next brother, in arrays. */
module Compressor {
  import opened Bytes
  import opened Bits
  import opened BitPacker
  import opened BitStreams
  import opened Lzw
  import opened LzwRoundTrip

  const BITS_LEN: nat := 9

  datatype Node = Node(chr: byte, parent: int, brother: int, child: int)

  /** The latest of the first n entries whose parent is v, or 0. */
  function LastChild(d: Dict, n: nat, v: int): (c: nat)
    requires n <= |d|
    ensures c == 0 || FIRST_FREE <= c < FIRST_FREE + n
  {
    if n == 0 then 0 else if d[n - 1].parent == v then EOF + n else LastChild(d, n - 1, v)
  }

  /** The nodes in use hold dictionary d. */
  ghost predicate Represents(nodes: seq<Node>, d: Dict) {
    && |nodes| == NODE_SIZE
    && |d| <= MAX_ENTRIES
    && (forall v :: 0 <= v < FIRST_FREE + |d| ==> nodes[v].child == LastChild(d, |d|, v))
    && (forall j :: 0 <= j < |d| ==> HoldsEntry(nodes, d, j))
  }

  ghost predicate HoldsEntry(nodes: seq<Node>, d: Dict, j: nat)
    requires |nodes| == NODE_SIZE && |d| <= MAX_ENTRIES && j < |d|
  {
    var nd := nodes[FIRST_FREE + j];
    nd.parent == d[j].parent && nd.chr == d[j].chr && nd.brother == LastChild(d, j, d[j].parent)
  }

  /** The search for w extended by k can jump from one child to the next. */
  lemma {:induction false} FindSkips(d: Dict, n: nat, w: nat, k: int)
    requires n <= |d|
    ensures var c := LastChild(d, n, w);
            FindBelow(d, n, w, k) ==
            if c == 0 then 0
            else if d[c - FIRST_FREE].chr == k then c
            else FindBelow(d, c - FIRST_FREE, w, k)
  {
    if n > 0 && d[n - 1].parent != w {
      FindSkips(d, n - 1, w, k);
    }
  }

  lemma {:induction false} LastChildIsChild(d: Dict, n: nat, v: int)
    requires n <= |d|
    ensures var c := LastChild(d, n, v); c > 0 ==> d[c - FIRST_FREE].parent == v
  {
    if n > 0 && d[n - 1].parent != v {
      LastChildIsChild(d, n - 1, v);
    }
  }

  /** Is w extended by k registered?  0 if not. */
  method FindChild(node: array<Node>, ghost d: Dict, w: nat, k: int) returns (rv: int)
    requires Represents(node[..], d) && w < FIRST_FREE + |d|
    ensures rv == Find(d, w, k)
    ensures rv == 0 || (FIRST_FREE <= rv < FIRST_FREE + |d| &&
                        d[rv - FIRST_FREE].parent == w && d[rv - FIRST_FREE].chr == k)
    ensures forall j :: 0 <= j < |d| && d[j].parent == w && d[j].chr == k ==> rv >= FIRST_FREE + j
  {
    FindIsExact(d, |d|, w, k);
    rv := node[w].child;
    ghost var n := |d|;
    while true
      invariant 0 <= n <= |d| && rv == LastChild(d, n, w)
      invariant Find(d, w, k) == FindBelow(d, n, w, k)
      decreases rv
    {
      FindSkips(d, n, w, k);
      LastChildIsChild(d, n, w);
      if rv <= 0 {
        break;
      }
      assert HoldsEntry(node[..], d, rv - FIRST_FREE);
      if node[rv].chr == k {
        break;
      }
      n := rv - FIRST_FREE;
      rv := node[rv].brother;
    }
  }

  lemma {:induction false} LastChildInPrefix(d: Dict, e: Dict, n: nat, v: int)
    requires n <= |d| && d <= e
    ensures LastChild(d, n, v) == LastChild(e, n, v)
  {
    if n > 0 { LastChildInPrefix(d, e, n - 1, v); }
  }

  /** The node array after registering w extended by k. */
  function Linked(nodes: seq<Node>, d: Dict, w: nat, k: byte): seq<Node>
    requires |nodes| == NODE_SIZE && |d| < MAX_ENTRIES && w < FIRST_FREE + |d|
  {
    var f := FIRST_FREE + |d|;
    nodes[f := Node(k, w, nodes[w].child, 0)][w := nodes[w].(child := f)]
  }

  lemma {:induction false} NoLaterParent(d: Dict, n: nat, v: int)
    requires n <= |d| && forall j :: 0 <= j < |d| ==> d[j].parent < v
    ensures LastChild(d, n, v) == 0
  {
    if n > 0 { NoLaterParent(d, n - 1, v); }
  }

  /** Parents come before their children. */
  ghost predicate Ordered(d: Dict) {
    forall j :: 0 <= j < |d| ==> d[j].parent < FIRST_FREE + j
  }

  lemma LinkRepresents(nodes: seq<Node>, d: Dict, w: nat, k: byte)
    requires Represents(nodes, d) && Ordered(d) && |d| < MAX_ENTRIES && w < FIRST_FREE + |d|
    ensures Represents(Linked(nodes, d, w, k), d + [Entry(w, k)]) && Ordered(d + [Entry(w, k)])
  {
    var e, r, f := d + [Entry(w, k)], Linked(nodes, d, w, k), FIRST_FREE + |d|;
    forall v | 0 <= v < FIRST_FREE + |e| ensures r[v].child == LastChild(e, |e|, v) {
      LastChildInPrefix(d, e, |d|, v);
      if v == f { NoLaterParent(d, |d|, f); }
    }
    forall j | 0 <= j < |e| ensures HoldsEntry(r, e, j) {
      LastChildInPrefix(d, e, j, e[j].parent);
      if j < |d| { assert HoldsEntry(nodes, d, j); }
    }
  }

  /** Register w extended by k, if there is room. */
  method AddChild(node: array<Node>, ghost d: Dict, freeNode: int, w: nat, k: byte)
      returns (freeNode': int, ghost d': Dict)
    requires Represents(node[..], d) && Ordered(d) && w < FIRST_FREE + |d|
    requires freeNode == FIRST_FREE + |d|
    modifies node
    ensures d' == Register(d, w, k) && freeNode' == FIRST_FREE + |d'|
    ensures Represents(node[..], d') && Ordered(d')
  {
    freeNode', d' := freeNode, d;
    if freeNode < NODE_SIZE {
      LinkRepresents(node[..], d, w, k);
      ghost var linked := Linked(node[..], d, w, k);
      node[freeNode] := Node(k, w, node[w].child, 0);
      node[w] := node[w].(child := freeNode);
      assert node[..] == linked;
      freeNode', d' := freeNode + 1, d + [Entry(w, k)];
    }
  }

  method InitNodes(node: array<Node>)
    requires node.Length == NODE_SIZE
    modifies node
    ensures Represents(node[..], [])
  {
    for i := 0 to FIRST_FREE
      invariant forall v :: 0 <= v < i ==> node[v].child == 0
    {
      node[i] := Node(Truncate(i), 0, i + 1, 0);
    }
    node[EOF] := node[EOF].(brother := 0);
  }

  function CodeBits(cs: seq<nat>): (bits: seq<bool>)
    ensures |bits| == BITS_LEN * |cs|
  {
    if cs == [] then [] else CodeBits(cs[..|cs| - 1]) + BitsOf(cs[|cs| - 1], BITS_LEN)
  }

  /** Bytes that n codes take: 9n/8 rounded up. */
  function CodeBytes(n: nat): nat {
    (BITS_LEN * n + 7) / 8
  }

  /** The stream after cs was written to it.  Overflow is sticky: once a write
      fails every later one fails too. */
  ghost predicate Emitted(s: BitStream, cs: seq<nat>, position: int)
    reads s, s.buf
  {
    && s.Writing()
    && (cs != [] ==> (position == -1 <==> s.maxbyte <= CodeBytes(|cs|)))
    && (if cs != [] && position == -1
        then s.maxbyte <= LastByte(s.bitaddr, BITS_LEN) + 1
        else s.written == CodeBits(cs) && (cs != [] ==> position == CodeBytes(|cs|)))
  }

  method Emit(s: BitStream, ghost cs: seq<nat>, ghost before: int, w: nat) returns (position: int)
    requires Emitted(s, cs, before)
    modifies s`bitaddr, s`written, s.buf
    ensures Emitted(s, cs + [w], position) && position < s.maxbyte
    ensures forall j :: 0 <= j < s.base || s.base + s.maxbyte <= j < s.buf.Length ==> s.buf[j] == old(s.buf[j])
  {
    position := s.Write(BITS_LEN, w);
    assert (cs + [w])[..|cs|] == cs;
  }

  /** The first bits of bs are cs, nine to a code. */
  ghost predicate Carries(bs: seq<byte>, cs: seq<nat>)
    decreases |cs|
  {
    cs == [] ||
    (Carries(bs, cs[..|cs| - 1]) &&
     Field(bs, BITS_LEN * (|cs| - 1), BITS_LEN) == BitsOf(cs[|cs| - 1], BITS_LEN))
  }

  lemma {:induction false} CodeBitsCarried(bs: seq<byte>, bits: seq<bool>, cs: seq<nat>)
    requires Holds(bs, bits) && CodeBits(cs) <= bits && |bits| <= 8 * |bs|
    ensures Carries(bs, cs)
    decreases |cs|
  {
    if cs != [] {
      var n := |cs| - 1;
      CodeBitsCarried(bs, bits, cs[..n]);
      HoldsField(bs, bits, BITS_LEN * n, BITS_LEN);
      assert BitsOf(cs[n], BITS_LEN) == CodeBits(cs)[BITS_LEN * n..];
    }
  }

  lemma {:induction false} CarriesPrefix(bs: seq<byte>, part: seq<byte>, cs: seq<nat>)
    requires part <= bs && BITS_LEN * |cs| <= 8 * |part|
    ensures Carries(part, cs) <==> Carries(bs, cs)
    decreases |cs|
  {
    if cs != [] {
      CarriesPrefix(bs, part, cs[..|cs| - 1]);
      FieldInPrefix(bs, part, BITS_LEN * (|cs| - 1), BITS_LEN);
    }
  }

  lemma EmittedResult(s: BitStream, cs: seq<nat>, position: int)
    requires Emitted(s, cs, position) && cs != []
    ensures position == -1 <==> s.maxbyte <= CodeBytes(|cs|)
    ensures position != -1 ==> position == CodeBytes(|cs|) && Carries(s.Window(), cs)
  {
    if position != -1 {
      CodeBitsCarried(s.Window(), s.written, cs);
    }
  }

  /** cs has been emitted, w is pending, and text[i..] is still to be read;
      beyond the end of the text only the end-of-file code is left. */
  ghost predicate Pending(text: seq<byte>, cs: seq<nat>, d: Dict, w: nat, i: nat)
    requires text != [] && i <= |text| + 1
  {
    if i <= |text| then cs + CodesOf(Emissions(d, w, text[i..])) == CodesOf(Words(text))
    else w == EOF && cs == CodesOf(Words(text))
  }

  /** What the loop reads at text[i]. */
  function Next(text: seq<byte>, i: nat): nat {
    if i >= |text| then EOF else text[i]
  }

  /** No byte matches the end-of-file mark, so what is registered for it when
      the text ends (it is stored as byte 0) is never looked up again. */
  lemma PendingFound(text: seq<byte>, cs: seq<nat>, d: Dict, w: nat, i: nat)
    requires 1 <= i <= |text| + 1 && text != [] && Pending(text, cs, d, w, i)
    requires Find(d, w, Next(text, i)) > 0
    ensures i < |text| && Pending(text, cs, d, Find(d, w, Next(text, i)), i + 1)
  {
    assert text[i..][0] == text[i] && text[i..][1..] == text[i + 1..];
  }

  lemma PendingEmit(text: seq<byte>, cs: seq<nat>, d: Dict, w: nat, i: nat)
    requires 1 <= i <= |text| && text != [] && Pending(text, cs, d, w, i)
    requires Find(d, w, Next(text, i)) == 0
    ensures Pending(text, cs + [w], Register(d, w, Truncate(Next(text, i))), Next(text, i), i + 1)
  {
    if i < |text| {
      assert text[i..][0] == text[i] && text[i..][1..] == text[i + 1..];
      EmitFirst(d, w, text[i..]);
      Assoc(cs, [w], CodesOf(Emissions(Register(d, w, text[i]), text[i], text[i + 1..])));
    } else {
      assert text[i..] == [];
      EmitLast(d, w);
    }
  }

  /** The compressor's locals. */
  datatype Locals = Locals(freeNode: int, w: nat, position: int)

  ghost predicate LoopInv(node: array<Node>, s: BitStream, text: seq<byte>, i: nat, v: Locals, d: Dict, cs: seq<nat>)
    reads node, s, s.buf
  {
    && Represents(node[..], d) && Ordered(d)
    && v.freeNode == FIRST_FREE + |d| && v.w < FIRST_FREE + |d|
    && Emitted(s, cs, v.position)
    && text != [] && 1 <= i <= |text| + 1 && Pending(text, cs, d, v.w, i)
  }

  /** The pattern is not registered: emit it and register its extension. */
  method EmitAndRegister(node: array<Node>, s: BitStream, k: nat, v: Locals, ghost d: Dict, ghost cs: seq<nat>)
      returns (v': Locals, ghost d': Dict)
    requires Represents(node[..], d) && Ordered(d)
    requires v.freeNode == FIRST_FREE + |d| && v.w < FIRST_FREE + |d|
    requires Emitted(s, cs, v.position)
    modifies node, s`bitaddr, s`written, s.buf
    ensures Represents(node[..], d') && Ordered(d') && d' == Register(d, v.w, Truncate(k))
    ensures v'.freeNode == FIRST_FREE + |d'| && v'.w == k && v'.position < s.maxbyte
    ensures Emitted(s, cs + [v.w], v'.position)
    ensures forall j :: 0 <= j < s.base || s.base + s.maxbyte <= j < s.buf.Length ==> s.buf[j] == old(s.buf[j])
  {
    var freeNode;
    freeNode, d' := AddChild(node, d, v.freeNode, v.w, Truncate(k));
    var position := Emit(s, cs, v.position, v.w);
    v' := Locals(freeNode, k, position);
  }

  /** One turn of the compressor's loop. */
  method Turn(node: array<Node>, s: BitStream, text: seq<byte>, i: nat, v: Locals, ghost d: Dict, ghost cs: seq<nat>)
      returns (v': Locals, ghost d': Dict, ghost cs': seq<nat>)
    requires LoopInv(node, s, text, i, v, d, cs)
    modifies node, s`bitaddr, s`written, s.buf
    ensures i <= |text| ==> LoopInv(node, s, text, i + 1, v', d', cs')
    ensures i == |text| + 1 ==> cs' == Compressed(text) && Emitted(s, cs', v'.position)
    ensures v'.position < s.maxbyte || v'.position == v.position
    ensures forall j :: 0 <= j < s.base || s.base + s.maxbyte <= j < s.buf.Length ==> s.buf[j] == old(s.buf[j])
  {
    var k := Next(text, i);
    var rv := FindChild(node, d, v.w, k);
    if rv > 0 {
      PendingFound(text, cs, d, v.w, i);
      v', d', cs' := v.(w := rv), d, cs;
    } else {
      if i <= |text| { PendingEmit(text, cs, d, v.w, i); }
      v', d' := EmitAndRegister(node, s, k, v, d, cs);
      cs' := cs + [v.w];
    }
  }

  /** The compressor's loop over a stream that nothing was written to yet. */
  method Run(node: array<Node>, s: BitStream, text: seq<byte>) returns (position: int)
    requires Represents(node[..], []) && s.Writing() && s.written == [] && text != []
    modifies node, s`bitaddr, s`written, s.buf
    ensures position == -1 <==> s.maxbyte <= CodeBytes(|Compressed(text)|)
    ensures position != -1 ==> position == CodeBytes(|Compressed(text)|) && Carries(s.Window(), Compressed(text))
    ensures forall j :: 0 <= j < s.base || s.base + s.maxbyte <= j < s.buf.Length ==> s.buf[j] == old(s.buf[j])
  {
    var v, textind := Locals(FIRST_FREE, text[0], 0), 1;
    ghost var d: Dict, cs: seq<nat> := [], [];
    while true
      invariant LoopInv(node, s, text, textind, v, d, cs) && v.position <= s.maxbyte
      invariant forall j :: 0 <= j < s.base || s.base + s.maxbyte <= j < s.buf.Length ==> s.buf[j] == old(s.buf[j])
      decreases |text| + 1 - textind
    {
      v, d, cs := Turn(node, s, text, textind, v, d, cs);
      // The source gives up here when position > codelen; the invariant says
      // that never happens.
      if textind == |text| + 1 {
        break;
      }
      textind := textind + 1;
    }
    position := v.position;
    EmittedResult(s, cs, position);
  }

  /** ringoCompressor(code + off, codelen, text, |text|): the number of bytes
      used, or -1 for an empty text or a code buffer that is too small. */
  method Compress(code: array<byte>, off: nat, codelen: nat, text: seq<byte>) returns (position: int)
    requires off + codelen <= code.Length
    modifies code
    ensures text == [] ==> position == -1
    ensures text != [] ==>
              (position == -1 <==> codelen <= CodeBytes(|Compressed(text)|))
    ensures position != -1 ==>
              && position == CodeBytes(|Compressed(text)|) < codelen
              && Carries(code[off..off + codelen], Compressed(text))
    ensures forall j :: 0 <= j < off || off + codelen <= j < code.Length ==> code[j] == old(code[j])
  {
    if |text| <= 0 {
      return -1;
    }
    var node := new Node[NODE_SIZE];
    var s := new BitStream.InitOutput(code, off, codelen);
    InitNodes(node);
    position := Run(node, s, text);
    assert s.Window() == code[off..off + codelen];
  }
}
