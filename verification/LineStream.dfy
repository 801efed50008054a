/** Any run of appends and reads on the line buffer splits the stream of
    accepted bytes at its newlines, however the stream was cut into chunks. */
module LineStream {
  import opened Bytes
  import opened LineBuffer

  datatype Event = Chunk(bytes: seq<byte>) | Read(capacity: int)

  /** The buffer, everything it accepted, and the lines taken out of it. */
  datatype Reader = Reader(buffered: seq<byte>, accepted: seq<byte>, lines: seq<seq<byte>>)

  const EMPTY: Reader := Reader([], [], [])

  /** A chunk that does not fit is refused whole. */
  function Step(r: Reader, e: Event, capacity: nat, keep: bool): Reader {
    match e
    case Chunk(bytes) =>
      if |bytes| > capacity - |r.buffered| then r
      else r.(buffered := r.buffered + bytes, accepted := r.accepted + bytes)
    case Read(outputCapacity) =>
      if ReadResultOf(r.buffered, outputCapacity, keep).Line? then
        r.(buffered := AfterRead(r.buffered, outputCapacity, keep),
           lines := r.lines + [FirstLine(r.buffered)])
      else r
  }

  function Play(r: Reader, es: seq<Event>, capacity: nat, keep: bool): Reader
    decreases |es|
  {
    if es == [] then r else Play(Step(r, es[0], capacity, keep), es[1..], capacity, keep)
  }

  /** The whole lines of a stream, each with its newline. */
  function Lines(s: seq<byte>): (lines: seq<seq<byte>>)
    decreases |s|
  {
    if HasLine(s) then [FirstLine(s)] + Lines(s[|FirstLine(s)|..]) else []
  }

  /** What follows the last newline. */
  function Tail(s: seq<byte>): (tail: seq<byte>)
    ensures !HasLine(tail)
    decreases |s|
  {
    if HasLine(s) then Tail(s[|FirstLine(s)|..]) else s
  }

  predicate IsLine(line: seq<byte>) {
    line != [] && FirstLf(line) == |line| - 1
  }

  function Concat(lines: seq<seq<byte>>): seq<byte> {
    if lines == [] then [] else lines[0] + Concat(lines[1..])
  }

  predicate AllLines(lines: seq<seq<byte>>) {
    forall i :: 0 <= i < |lines| ==> IsLine(lines[i])
  }

  lemma {:induction false} FirstLfUnique(s: seq<byte>, i: nat)
    requires i < |s| && s[i] == LF && forall j :: 0 <= j < i ==> s[j] != LF
    ensures FirstLf(s) == i
  {
  }

  lemma FirstLineIsLine(s: seq<byte>)
    requires HasLine(s)
    ensures IsLine(FirstLine(s))
  {
    FirstLfUnique(FirstLine(s), FirstLf(s));
  }

  lemma LineComesFirst(line: seq<byte>, more: seq<byte>)
    requires IsLine(line)
    ensures HasLine(line + more) && FirstLine(line + more) == line
    ensures (line + more)[|line|..] == more
  {
    FirstLfUnique(line + more, |line| - 1);
  }

  lemma LinesCons(line: seq<byte>, more: seq<byte>)
    requires IsLine(line)
    ensures Lines(line + more) == [line] + Lines(more) && Tail(line + more) == Tail(more)
  {
    LineComesFirst(line, more);
  }

  /** Lines in front of a stream are its first lines. */
  lemma {:induction false} LinesOfConcat(lines: seq<seq<byte>>, more: seq<byte>)
    requires AllLines(lines)
    ensures Lines(Concat(lines) + more) == lines + Lines(more)
    ensures Tail(Concat(lines) + more) == Tail(more)
  {
    if lines == [] {
      assert [] + more == more;
    } else {
      var rest := Concat(lines[1..]) + more;
      Assoc(lines[0], Concat(lines[1..]), more);
      LinesCons(lines[0], rest);
      LinesOfConcat(lines[1..], more);
      HeadFirst(lines, Lines(more));
    }
  }

  lemma {:induction false} ConcatAppend(lines: seq<seq<byte>>, line: seq<byte>)
    ensures Concat(lines + [line]) == Concat(lines) + line
  {
    if lines == [] {
      assert lines + [line] == [line];
      assert Concat([line][1..]) == [];
    } else {
      ConcatAppend(lines[1..], line);
      assert (lines + [line])[1..] == lines[1..] + [line];
    }
  }

  /** Accepted bytes are the consumed lines followed by what is buffered. */
  ghost predicate Inv(r: Reader, capacity: nat) {
    && |r.buffered| <= capacity
    && AllLines(r.lines)
    && Concat(r.lines) + r.buffered == r.accepted
  }

  lemma StepKeepsInv(r: Reader, e: Event, capacity: nat, keep: bool)
    requires Inv(r, capacity)
    ensures Inv(Step(r, e, capacity, keep), capacity)
  {
    var s := r.buffered;
    match e
    case Chunk(bytes) =>
      Assoc(Concat(r.lines), s, bytes);
    case Read(outputCapacity) =>
      if ReadResultOf(s, outputCapacity, keep).Line? {
        var line := FirstLine(s);
        FirstLineIsLine(s);
        ConcatAppend(r.lines, line);
        Assoc(Concat(r.lines), line, s[|line|..]);
        assert line + s[|line|..] == s;
      }
  }

  lemma {:induction false} PlayKeepsInv(r: Reader, es: seq<Event>, capacity: nat, keep: bool)
    requires Inv(r, capacity)
    ensures Inv(Play(r, es, capacity, keep), capacity)
    decreases |es|
  {
    if es != [] {
      StepKeepsInv(r, es[0], capacity, keep);
      PlayKeepsInv(Step(r, es[0], capacity, keep), es[1..], capacity, keep);
    }
  }

  /** After any run, the lines taken out and those still buffered are the lines
      of the accepted stream, and nothing else is lost or added. */
  lemma PlaySplitsStream(es: seq<Event>, capacity: nat, keep: bool)
    ensures var r := Play(EMPTY, es, capacity, keep);
            && |r.buffered| <= capacity
            && Concat(r.lines) + r.buffered == r.accepted
            && r.lines + Lines(r.buffered) == Lines(r.accepted)
            && Tail(r.buffered) == Tail(r.accepted)
  {
    PlayKeepsInv(EMPTY, es, capacity, keep);
    var r := Play(EMPTY, es, capacity, keep);
    LinesOfConcat(r.lines, r.buffered);
  }

  /** Two runs that accepted the same stream and are drained agree: chunking
      does not matter. */
  lemma ChunkingDoesNotMatter(es: seq<Event>, fs: seq<Event>, capacity: nat, keep: bool)
    requires Play(EMPTY, es, capacity, keep).accepted == Play(EMPTY, fs, capacity, keep).accepted
    requires !HasLine(Play(EMPTY, es, capacity, keep).buffered) && !HasLine(Play(EMPTY, fs, capacity, keep).buffered)
    ensures Play(EMPTY, es, capacity, keep) == Play(EMPTY, fs, capacity, keep)
  {
    PlaySplitsStream(es, capacity, keep);
    PlaySplitsStream(fs, capacity, keep);
    var r, q := Play(EMPTY, es, capacity, keep), Play(EMPTY, fs, capacity, keep);
    assert r.lines == r.lines + Lines(r.buffered);
    assert q.lines == q.lines + Lines(q.buffered);
  }

  /** n reads in a row, all with the same output capacity. */
  function Reads(n: nat, outputCapacity: int): seq<Event> {
    seq(n, _ => Read(outputCapacity))
  }

  lemma {:induction false} ReadsDrain(r: Reader, n: nat, outputCapacity: int, capacity: nat, keep: bool)
    requires n >= |Lines(r.buffered)|
    requires forall i :: 0 <= i < |Lines(r.buffered)| ==> |Lines(r.buffered)[i]| < outputCapacity
    ensures var r' := Play(r, Reads(n, outputCapacity), capacity, keep);
            r'.buffered == Tail(r.buffered) && r'.lines == r.lines + Lines(r.buffered) && r'.accepted == r.accepted
    decreases n
  {
    var s, lines := r.buffered, Lines(r.buffered);
    if n > 0 {
      var r' := Step(r, Read(outputCapacity), capacity, keep);
      assert Reads(n, outputCapacity)[1..] == Reads(n - 1, outputCapacity);
      if HasLine(s) {
        assert lines[0] == FirstLine(s);
        assert Lines(r'.buffered) == lines[1..];
        Assoc(r.lines, [lines[0]], lines[1..]);
        HeadFirst(lines, []);
      }
      ReadsDrain(r', n - 1, outputCapacity, capacity, keep);
    }
  }

  // ---- the buffer object over a run

  /** texts are the lines as they are copied out. */
  predicate Shows(texts: seq<seq<byte>>, lines: seq<seq<byte>>, keep: bool) {
    |texts| == |lines| && forall i :: 0 <= i < |texts| ==> lines[i] != [] && texts[i] == Shown(lines[i], keep)
  }

  /** One event, at a buffer that r describes.  An empty line is taken out although
      the call returns 0, so the fill level tells. */
  method StepOn(b: TcpBuffer, e: Event, keep: bool, ghost r: Reader) returns (taken: bool, text: seq<byte>)
    requires b.Valid() && b.Contents() == r.buffered
    modifies b`used, b.data
    ensures b.Valid() && b.Contents() == Step(r, e, b.data.Length, keep).buffered
    ensures taken ==> HasLine(r.buffered) && text == Shown(FirstLine(r.buffered), keep)
    ensures Step(r, e, b.data.Length, keep).lines == r.lines + if taken then [FirstLine(r.buffered)] else []
  {
    taken, text := false, [];
    match e {
      case Chunk(bytes) =>
        var n := b.Append(bytes, |bytes|);
      case Read(outputCapacity) =>
        var before, output := b.used, new byte[if outputCapacity < 0 then 0 else outputCapacity];
        var n := b.ReadLine(output, outputCapacity, keep);
        if b.used < before {
          taken, text := true, output[..n];
        }
    }
  }

  /** A run of events on the buffer is a run of the specification. */
  method PlayOn(b: TcpBuffer, es: seq<Event>, keep: bool) returns (texts: seq<seq<byte>>)
    requires b.Valid()
    modifies b`used, b.data
    ensures var r := Play(Reader(old(b.Contents()), [], []), es, b.data.Length, keep);
            b.Valid() && b.Contents() == r.buffered && Shows(texts, r.lines, keep)
  {
    ghost var start, capacity := Reader(b.Contents(), [], []), b.data.Length;
    ghost var r := start;
    texts := [];
    for i := 0 to |es|
      invariant b.Valid() && b.Contents() == r.buffered && Shows(texts, r.lines, keep)
      invariant Play(r, es[i..], capacity, keep) == Play(start, es, capacity, keep)
    {
      assert es[i..][1..] == es[i + 1..];
      var taken, text := StepOn(b, es[i], keep, r);
      if taken {
        texts := texts + [text];
      }
      r := Step(r, es[i], capacity, keep);
    }
  }
}
