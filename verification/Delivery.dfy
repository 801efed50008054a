/** Send at one end, the line buffer and DecodeString at the other. */
module Delivery {
  import opened Bytes
  import Armour
  import opened Codec
  import opened LineBuffer
  import opened LineStream

  /** Every string that the receiver's work_buf_size admits also fits all of
      the sender's work areas. */
  lemma Fits(s: seq<byte>, size: nat)
    requires |s| <= size && size >= 4
    ensures StatusOf(s, size) == Encoded
    ensures BlockLen(s) + 1 <= 3 * size - 1 && LineLen(BlockLen(s)) + 1 < 3 * size
    ensures SealedLen(s, size) == BlockLen(s) + 1
  {
  }

  /** Send: the encoded message and a newline, as handed to the socket. */
  method Send(ws: WorkSpace, msg: seq<byte>, key: int) returns (status: Status, wire: seq<byte>)
    requires ws.Valid() && NulFree(msg)
    requires StatusOf(msg, ws.work_buf_size) == Encoded ==>
               (4 * SealedLen(msg, ws.work_buf_size) + 2) / 3 + 1 < ws.Area()
    modifies ws.compress_work, ws.jencode_copy, ws.jencode_out, ws.crypt_work
    ensures status == StatusOf(msg, ws.work_buf_size)
    ensures status == Encoded && BlockLen(msg) + 1 <= ws.Area() - 1 ==>
              exists line :: EncodesTo(msg, key, line) && wire == line + [LF]
    ensures status == EmptyLine ==> wire == [LF, LF]
  {
    var encoded_len;
    status, encoded_len := EncodeString(ws, msg, key, ws.crypt_work);
    if status == Exit {
      return status, [];
    }
    ghost var line := ws.crypt_work[..encoded_len];
    if encoded_len < ws.Area() {
      ws.crypt_work[encoded_len] := LF;
      ws.crypt_work[encoded_len + 1] := NUL;
      encoded_len := encoded_len + 1;
    }
    wire := ws.crypt_work[..encoded_len];
    assert wire == line + [LF];
  }

  /** The byte stream that sending the lines one after the other produces. */
  function Wire(lines: seq<seq<byte>>): seq<byte> {
    Concat(Terminated(lines))
  }

  function Terminated(lines: seq<seq<byte>>): (r: seq<seq<byte>>)
    ensures |r| == |lines|
    ensures forall i :: 0 <= i < |lines| ==> r[i] == lines[i] + [LF]
  {
    seq(|lines|, i requires 0 <= i < |lines| => lines[i] + [LF])
  }

  /** lines are encodings of the messages, in order. */
  ghost predicate Encodings(msgs: seq<seq<byte>>, key: int, lines: seq<seq<byte>>) {
    && |lines| == |msgs|
    && forall i :: 0 <= i < |msgs| ==> EncodesTo(msgs[i], key, lines[i])
  }

  /** line is an encoding of a message that work areas of this size admit. */
  ghost predicate IsSent(msg: seq<byte>, key: int, line: seq<byte>, size: nat) {
    NulFree(msg) && |msg| <= size && EncodesTo(msg, key, line)
  }

  /** lines are encodings of such messages, in order. */
  ghost predicate AllSent(msgs: seq<seq<byte>>, key: int, lines: seq<seq<byte>>, size: nat) {
    && |lines| == |msgs|
    && forall i :: 0 <= i < |msgs| ==> IsSent(msgs[i], key, lines[i], size)
  }

  /** The armour has no newline in its alphabet, so a sent line is one line, and
      with or without the newline that Send added the receiver decodes it alone. */
  lemma SentLine(s: seq<byte>, key: int, line: seq<byte>)
    requires EncodesTo(s, key, line)
    ensures IsLine(line + [LF])
    ensures forall keep :: |Shown(line + [LF], keep)| >= 2 && Stripped(Shown(line + [LF], keep)) == line
  {
    LineFacts(s, key, line);
    PrintableIsLine(line);
    StripsToLine(line);
  }

  lemma PrintableIsLine(line: seq<byte>)
    requires Armour.AllPrintable(line)
    ensures IsLine(line + [LF])
  {
    forall j | 0 <= j < |line| ensures (line + [LF])[j] != LF { assert Armour.Printable(line[j]); }
    FirstLfUnique(line + [LF], |line|);
  }

  lemma StripsToLine(line: seq<byte>)
    requires |line| >= 2 && Armour.AllPrintable(line)
    ensures Shown(line + [LF], true) == line + [LF] && Shown(line + [LF], false) == line
    ensures Stripped(line + [LF]) == line && Stripped(line) == line
  {
    assert Armour.Printable(line[|line| - 1]) && Armour.Printable(line[|line| - 2]);
    assert (line + [LF])[..|line|] == line;
  }

  lemma LineFacts(s: seq<byte>, key: int, line: seq<byte>)
    requires EncodesTo(s, key, line)
    ensures |line| == LineLen(BlockLen(s)) >= 2 && Armour.AllPrintable(line)
  {
    var block :| IsBlock(s, block) && line == Codec.Line(block, key);
    LineIsPrintable(block, key);
  }

  /** What DecodeString is given for a line shows no terminator inside. */
  lemma ShownIsString(line: seq<byte>, keep: bool)
    requires |line| >= 2 && Armour.AllPrintable(line)
    ensures NulFree(Shown(line + [LF], keep)) && |line| <= |Shown(line + [LF], keep)| <= |line| + 1
  {
    StripsToLine(line);
    forall i | 0 <= i < |line| ensures line[i] != NUL { assert Armour.Printable(line[i]); }
  }

  /** A text from which a receiver with work areas of this size gets msg back. */
  ghost predicate Decodable(text: seq<byte>, msg: seq<byte>, key: int, size: nat) {
    && NulFree(text) && 2 <= |text| && 3 * |text| / 4 <= 3 * size
    && NulFree(msg) && |msg| <= size && EncodesTo(msg, key, Stripped(text))
  }

  lemma LineIsShort(s: seq<byte>, key: int, line: seq<byte>, size: nat)
    requires EncodesTo(s, key, line) && |s| <= size && size >= 4
    ensures |line| + 1 < 3 * size
  {
    Fits(s, size);
    LineFacts(s, key, line);
  }

  /** A line is one, whether or not the buffer kept its newline. */
  lemma SentIsDecodable(msg: seq<byte>, key: int, sent: seq<byte>, size: nat, keep: bool)
    requires IsSent(msg, key, sent, size) && size >= 4
    ensures var text := Shown(sent + [LF], keep);
            Decodable(text, msg, key, size) && |text| < 3 * size
  {
    LineIsShort(msg, key, sent, size);
    LineFacts(msg, key, sent);
    ShownIsString(sent, keep);
    StripsToLine(sent);
  }

  /** Decode the text line[..l]. */
  method Decode(ws: WorkSpace, line: array<byte>, l: nat, key: int, out: array<byte>, ghost msg: seq<byte>)
    requires ws.Valid() && out.Length >= ws.Area() && line != out
    requires line != ws.compress_work && line != ws.jencode_copy && out != ws.compress_work && out != ws.jencode_copy
    requires l < line.Length && line[l] == NUL && Decodable(line[..l], msg, key, ws.work_buf_size)
    modifies line, ws.jencode_copy, ws.compress_work, out
    ensures CString(out[..]) == msg
  {
    forall j | 0 <= j < l ensures line[j] != NUL { assert line[..l][j] != NUL; }
    var ignored := DecodeString(ws, line, l, key, out, msg);
  }

  /** EncodeString, for a message that the work areas admit. */
  method Encode(ws: WorkSpace, msg: seq<byte>, key: int, line: array<byte>) returns (l: nat)
    requires ws.Valid() && ws.work_buf_size >= 4 && NulFree(msg) && |msg| <= ws.work_buf_size
    requires line.Length >= ws.Area()
    requires line != ws.compress_work && line != ws.jencode_copy && line != ws.jencode_out
    modifies ws.compress_work, ws.jencode_copy, ws.jencode_out, line
    ensures l < line.Length && line[l] == NUL && EncodesTo(msg, key, line[..l])
  {
    Fits(msg, ws.work_buf_size);
    var status;
    status, l := EncodeString(ws, msg, key, line);
  }

  /** EncodeString on one side and DecodeString on the other: whatever the key, a
      message that the work areas admit comes back. */
  method EncodeThenDecode(ws: WorkSpace, ws2: WorkSpace, msg: seq<byte>, key: int, line: array<byte>, out: array<byte>)
    requires ws.Valid() && ws2.Valid() && ws.work_buf_size == ws2.work_buf_size >= 4
    requires NulFree(msg) && |msg| <= ws.work_buf_size
    requires line.Length >= ws.Area() && out.Length >= ws.Area() && line != out
    requires line != ws.compress_work && line != ws.jencode_copy && line != ws.jencode_out
    requires line != ws2.compress_work && line != ws2.jencode_copy
    requires out != ws2.compress_work && out != ws2.jencode_copy
    modifies ws.compress_work, ws.jencode_copy, ws.jencode_out, line, ws2.jencode_copy, ws2.compress_work, out
    ensures CString(out[..]) == msg
  {
    var l := Encode(ws, msg, key, line);
    SentIsDecodable(msg, key, line[..l], ws.work_buf_size, false);
    LineFacts(msg, key, line[..l]);
    StripsToLine(line[..l]);
    Decode(ws2, line, l, key, out, msg);
  }

  /** Read one line off the buffer and decode it: the message of the first line sent. */
  method Receive(b: TcpBuffer, ws: WorkSpace, key: int, keep: bool, line: array<byte>, out: array<byte>,
                 ghost msg: seq<byte>, ghost sent: seq<byte>) returns (text: seq<byte>)
    requires b.Valid() && ws.Valid() && ws.work_buf_size >= 4
    requires IsSent(msg, key, sent, ws.work_buf_size)
    requires sent + [LF] <= b.Contents()
    requires line.Length >= ws.Area() && out.Length >= ws.Area() && line != out && b.data != line && b.data != out
    requires line != ws.compress_work && line != ws.jencode_copy && out != ws.compress_work && out != ws.jencode_copy
    requires b.data != ws.compress_work && b.data != ws.jencode_copy
    modifies b`used, b.data, line, ws.jencode_copy, ws.compress_work, out
    ensures text == msg
    ensures b.Valid() && b.Contents() == old(b.Contents())[|sent| + 1..]
  {
    ghost var shown := FirstIsDecodable(msg, key, sent, ws.work_buf_size, line.Length, keep, b.Contents());
    var l := b.ReadLine(line, line.Length, keep);
    Decode(ws, line, l, key, out, msg);
    text := CString(out[..]);
  }

  lemma FirstIsDecodable(msg: seq<byte>, key: int, sent: seq<byte>, size: nat, capacity: nat, keep: bool,
                         s: seq<byte>) returns (shown: seq<byte>)
    requires IsSent(msg, key, sent, size) && size >= 4 && 3 * size <= capacity
    requires sent + [LF] <= s
    ensures ReadResultOf(s, capacity, keep) == ReadResult.Line(shown) && AfterRead(s, capacity, keep) == s[|sent| + 1..]
    ensures Decodable(shown, msg, key, size)
  {
    LineFacts(msg, key, sent);
    FirstOfBuffer(sent, s);
    SentIsDecodable(msg, key, sent, size, keep);
    shown := Shown(FirstLine(s), keep);
  }

  lemma FirstOfBuffer(sent: seq<byte>, s: seq<byte>)
    requires Armour.AllPrintable(sent) && sent + [LF] <= s
    ensures HasLine(s) && FirstLine(s) == sent + [LF]
  {
    forall j | 0 <= j < |sent| ensures s[j] != LF {
      assert s[j] == sent[j];
      assert Armour.Printable(sent[j]);
    }
    FirstLfUnique(s, |sent|);
  }

  /** Read and decode the n lines that the buffer begins with: their messages, in order. */
  method ReceiveAll(b: TcpBuffer, ws: WorkSpace, key: int, keep: bool, n: nat,
                    ghost msgs: seq<seq<byte>>, ghost sent: seq<seq<byte>>) returns (texts: seq<seq<byte>>)
    requires b.Valid() && ws.Valid() && ws.work_buf_size >= 4 && |msgs| == n && AllSent(msgs, key, sent, ws.work_buf_size)
    requires Wire(sent) <= b.Contents()
    requires b.data != ws.compress_work && b.data != ws.jencode_copy
    modifies b`used, b.data, ws.jencode_copy, ws.compress_work
    ensures texts == msgs
    ensures b.Valid() && b.Contents() == old(b.Contents())[|Wire(sent)|..]
  {
    var line, out := new byte[ws.Area()], new byte[ws.Area()];
    texts := [];
    ghost var rest := b.Contents()[|Wire(sent)|..];
    BeginsWithAll(Terminated(sent), b.Contents());
    for i := 0 to n
      invariant b.Valid() && texts == msgs[..i]
      invariant Begins(Terminated(sent), i, b.Contents(), rest)
    {
      NextLine(sent, i, b.Contents(), rest);
      OneMore(msgs, i);
      var text := Receive(b, ws, key, keep, line, out, msgs[i], sent[i]);
      texts := texts + [text];
    }
    assert msgs[..n] == msgs;
  }

  lemma OneMore(msgs: seq<seq<byte>>, i: nat)
    requires i < |msgs|
    ensures msgs[..i] + [msgs[i]] == msgs[..i + 1]
  {
  }

  lemma NextLine(sent: seq<seq<byte>>, i: nat, s: seq<byte>, rest: seq<byte>)
    requires i < |sent| && Begins(Terminated(sent), i, s, rest)
    ensures sent[i] + [LF] <= s && Begins(Terminated(sent), i + 1, s[|sent[i]| + 1..], rest)
  {
  }

  /** s is the lines from i on, and then rest. */
  ghost predicate Begins(lines: seq<seq<byte>>, i: nat, s: seq<byte>, rest: seq<byte>)
    decreases |lines| - i
  {
    if i >= |lines| then s == rest else lines[i] <= s && Begins(lines, i + 1, s[|lines[i]|..], rest)
  }

  lemma BeginsWithAll(lines: seq<seq<byte>>, s: seq<byte>)
    requires Concat(lines) <= s
    ensures Begins(lines, 0, s, s[|Concat(lines)|..])
  {
    assert lines[0..] == lines;
    BeginsFrom(lines, 0, s, s[|Concat(lines)|..]);
  }

  lemma {:induction false} BeginsFrom(lines: seq<seq<byte>>, i: nat, s: seq<byte>, rest: seq<byte>)
    requires i <= |lines| && s == Concat(lines[i..]) + rest
    ensures Begins(lines, i, s, rest)
    decreases |lines| - i
  {
    if i < |lines| {
      assert lines[i..][1..] == lines[i + 1..];
      Assoc(lines[i], Concat(lines[i + 1..]), rest);
      assert s == lines[i] + (Concat(lines[i + 1..]) + rest);
      BeginsFrom(lines, i + 1, s[|lines[i]|..], rest);
    }
  }

  /** The lines of a beginning of a stream begin the lines of the stream. */
  lemma {:induction false} LinesOfPrefix(a: seq<byte>, b: seq<byte>)
    requires a <= b
    ensures Lines(a) <= Lines(b)
    decreases |a|
  {
    if HasLine(a) {
      FirstLfUnique(b, FirstLf(a));
      assert FirstLine(b) == FirstLine(a);
      LinesOfPrefix(a[|FirstLine(a)|..], b[|FirstLine(a)|..]);
    }
  }

  /** End to end: whatever the chunks and the reads, the lines taken out so far
      are the first of the sent lines, so they stand for the first messages, in
      order; and once everything has arrived and been read, for all of them. */
  lemma Delivered(msgs: seq<seq<byte>>, key: int, sent: seq<seq<byte>>,
                  es: seq<Event>, capacity: nat, keep: bool)
    requires Encodings(msgs, key, sent)
    requires Play(EMPTY, es, capacity, keep).accepted <= Wire(sent)
    ensures var r := Play(EMPTY, es, capacity, keep);
            && r.lines <= Terminated(sent)
            && (forall i :: 0 <= i < |r.lines| ==>
                  var text := Shown(r.lines[i], keep);
                  |text| >= 2 && EncodesTo(msgs[i], key, Stripped(text)))
            && (r.accepted == Wire(sent) && !HasLine(r.buffered) ==> |r.lines| == |msgs|)
  {
    AllShown(msgs, key, sent, keep);
    DeliveredLines(sent, es, capacity, keep);
  }

  lemma AllShown(msgs: seq<seq<byte>>, key: int, sent: seq<seq<byte>>, keep: bool)
    requires Encodings(msgs, key, sent)
    ensures AllLines(Terminated(sent))
    ensures forall i :: 0 <= i < |sent| ==>
              |Shown(Terminated(sent)[i], keep)| >= 2 && Stripped(Shown(Terminated(sent)[i], keep)) == sent[i]
  {
    forall i | 0 <= i < |sent|
      ensures IsLine(Terminated(sent)[i])
      ensures |Shown(Terminated(sent)[i], keep)| >= 2 && Stripped(Shown(Terminated(sent)[i], keep)) == sent[i]
    {
      SentLine(msgs[i], key, sent[i]);
    }
  }

  lemma DeliveredLines(sent: seq<seq<byte>>, es: seq<Event>, capacity: nat, keep: bool)
    requires AllLines(Terminated(sent)) && Play(EMPTY, es, capacity, keep).accepted <= Wire(sent)
    ensures var r := Play(EMPTY, es, capacity, keep);
            && r.lines <= Terminated(sent)
            && (r.accepted == Wire(sent) && !HasLine(r.buffered) ==> r.lines == Terminated(sent))
  {
    var r := Play(EMPTY, es, capacity, keep);
    PlaySplitsStream(es, capacity, keep);
    WireLines(Terminated(sent));
    LinesOfPrefix(r.accepted, Wire(sent));
    assert r.lines <= Lines(r.accepted);
  }

  /** So each of them decodes to its message, if that fits the work areas. */
  lemma DeliveredDecodes(msgs: seq<seq<byte>>, key: int, sent: seq<seq<byte>>,
                         es: seq<Event>, capacity: nat, keep: bool, size: nat)
    requires Encodings(msgs, key, sent) && size >= 4
    requires Play(EMPTY, es, capacity, keep).accepted <= Wire(sent)
    ensures var r := Play(EMPTY, es, capacity, keep);
            |r.lines| <= |msgs| && forall i :: 0 <= i < |r.lines| && NulFree(msgs[i]) && |msgs[i]| <= size ==>
              r.lines[i] != [] && Decodable(Shown(r.lines[i], keep), msgs[i], key, size)
  {
    Delivered(msgs, key, sent, es, capacity, keep);
    var r := Play(EMPTY, es, capacity, keep);
    forall i | 0 <= i < |r.lines| && NulFree(msgs[i]) && |msgs[i]| <= size
      ensures r.lines[i] != [] && Decodable(Shown(r.lines[i], keep), msgs[i], key, size)
    {
      assert r.lines[i] == Terminated(sent)[i];
      SentIsDecodable(msgs[i], key, sent[i], size, keep);
    }
  }

  lemma WireLines(lines: seq<seq<byte>>)
    requires AllLines(lines)
    ensures Lines(Concat(lines)) == lines
  {
    LinesOfConcat(lines, []);
    assert Concat(lines) + [] == Concat(lines);
    assert lines + Lines([]) == lines;
  }
}
