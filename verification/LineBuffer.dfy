/** tcp_buffer.c: a receive buffer that gives out whole lines. */
module LineBuffer {
  import opened Bytes

  /** The first newline of s, or |s|. */
  function FirstLf(s: seq<byte>): (i: nat)
    ensures i <= |s|
    ensures i < |s| ==> s[i] == LF
    ensures forall j :: 0 <= j < i ==> s[j] != LF
  {
    if s == [] || s[0] == LF then 0 else 1 + FirstLf(s[1..])
  }

  predicate HasLine(s: seq<byte>) {
    FirstLf(s) < |s|
  }

  /** The first line of s, with its newline. */
  function FirstLine(s: seq<byte>): (line: seq<byte>)
    requires HasLine(s)
    ensures line != []
  {
    s[..FirstLf(s) + 1]
  }

  /** What is copied out for a line. */
  function Shown(line: seq<byte>, keep: bool): seq<byte>
    requires line != []
  {
    var n := |line| - 1;
    if keep then line
    else if n > 0 && line[n - 1] == CR then line[..n - 1]
    else line[..n]
  }

  /** A line end of either kind is dropped, and nothing but a line end. */
  lemma ShownText(text: seq<byte>)
    ensures Shown(text + [CR, LF], false) == text
    ensures text == [] || text[|text| - 1] != CR ==> Shown(text + [LF], false) == text
    ensures Shown(text + [LF], true) == text + [LF]
  {
    assert (text + [CR, LF])[..|text|] == text;
    assert (text + [LF])[..|text|] == text;
  }

  datatype ReadResult = TooLong | NoLine | Line(text: seq<byte>)

  function ReadResultOf(s: seq<byte>, capacity: int, keep: bool): ReadResult {
    if capacity <= 0 then TooLong
    else if !HasLine(s) then NoLine
    else if |Shown(FirstLine(s), keep)| >= capacity then TooLong
    else Line(Shown(FirstLine(s), keep))
  }

  /** What the buffer holds after a read. */
  function AfterRead(s: seq<byte>, capacity: int, keep: bool): seq<byte> {
    if ReadResultOf(s, capacity, keep).Line? then s[|FirstLine(s)|..] else s
  }

  /** What the C function returns. */
  function Code(r: ReadResult): int {
    match r
    case TooLong => -1
    case NoLine => 0
    case Line(text) => |text|
  }

  class TcpBuffer {
    const data: array<byte>
    var used: int

    constructor (capacity: nat)
      ensures Valid() && Contents() == [] && data.Length == capacity && fresh(data)
    {
      data := new byte[capacity];
      used := 0;
    }

    ghost predicate Valid()
      reads this
    {
      0 <= used <= data.Length
    }

    ghost function Contents(): seq<byte>
      reads this, data
      requires Valid()
    {
      data[..used]
    }

    /** sa_tcp_buffer_append, with the whole of data as its capacity. */
    method Append(input: seq<byte>, length: int) returns (r: int)
      requires length <= |input|
      modifies this`used, data
      ensures !old(Valid()) || length < 0 || length > data.Length - old(used) ==>
                r == -1 && used == old(used) && data[..] == old(data[..])
      ensures old(Valid()) && 0 <= length <= data.Length - old(used) ==>
                r == length && Valid() && Contents() == old(Contents()) + input[..length]
    {
      if length < 0 || used < 0 || used > data.Length || length > data.Length - used {
        return -1;
      }
      forall j | 0 <= j < length { data[used + j] := input[j]; }   // memcpy
      used := used + length;
      return length;
    }

    /** sa_tcp_buffer_consume */
    method Consume(length: int) returns (r: int)
      requires Valid()
      modifies this`used, data
      ensures Valid()
      ensures length < 0 || length > old(used) ==> r == -1 && Contents() == old(Contents())
      ensures 0 <= length <= old(used) ==> r == length && Contents() == old(Contents())[length..]
    {
      if length < 0 || length > used {
        return -1;
      }
      forall j | 0 <= j < used - length { data[j] := data[length + j]; }   // memmove
      used := used - length;
      return length;
    }

    /** sa_tcp_buffer_read_line */
    method ReadLine(output: array<byte>, output_capacity: int, keep_line_ending: bool) returns (r: int)
      requires Valid() && output_capacity <= output.Length && output != data
      modifies this`used, data, output
      ensures Valid()
      ensures Contents() == AfterRead(old(Contents()), output_capacity, keep_line_ending)
      ensures var result := ReadResultOf(old(Contents()), output_capacity, keep_line_ending);
              && r == Code(result)
              && (result.Line? ==> output[..r] == result.text && output[r] == NUL)
              && (!result.Line? ==> output[..] == old(output[..]))
      ensures var s, n := old(Contents()), FirstLf(old(Contents()));
              var m := if keep_line_ending then n + 1 else if n > 0 && s[n - 1] == CR then n - 1 else n;
              if output_capacity > 0 && n < |s| && m < output_capacity then
                r == m && output[..m] == s[..m] && output[m] == NUL && Contents() == s[n + 1..]
              else
                r == (if output_capacity > 0 && n == |s| then 0 else -1) && Contents() == s
    {
      if output_capacity <= 0 {
        return -1;
      }
      ghost var s := Contents();
      var i := 0;
      while i < used
        invariant 0 <= i <= used && i <= FirstLf(s)
        invariant used == old(used) && Contents() == s && output[..] == old(output[..])
      {
        if data[i] != LF {
          i := i + 1;
          continue;
        }
        var copied := if keep_line_ending then i + 1 else i;
        if !keep_line_ending && copied > 0 && data[copied - 1] == CR {
          copied := copied - 1;
        }
        assert FirstLf(s) == i && Shown(FirstLine(s), keep_line_ending) == s[..copied];
        if copied >= output_capacity {
          return -1;
        }
        forall j | 0 <= j < copied { output[j] := data[j]; }   // memcpy
        output[copied] := NUL;
        var ignored := Consume(i + 1);
        return copied;
      }
      return 0;
    }
  }

  /** What a read of a buffer that begins with a text and a line end returns. */
  lemma ReadsText(text: seq<byte>, rest: seq<byte>, capacity: nat)
    requires LF !in text && capacity > 0
    ensures ReadResultOf(text + [CR, LF] + rest, capacity, false) == if |text| < capacity then Line(text) else TooLong
    ensures |text| < capacity ==> AfterRead(text + [CR, LF] + rest, capacity, false) == rest
    ensures text == [] || text[|text| - 1] != CR ==>
              ReadResultOf(text + [LF] + rest, capacity, false) == if |text| < capacity then Line(text) else TooLong
    ensures ReadResultOf(text + [LF] + rest, capacity, true) ==
            if |text| + 1 < capacity then Line(text + [LF]) else TooLong
  {
    ShownText(text);
    EndsAt(text + [CR], rest);
    EndsAt(text, rest);
    assert text + [CR] + [LF] == text + [CR, LF];
    assert (text + [CR, LF] + rest)[|text| + 2..] == rest;
  }

  lemma EndsAt(text: seq<byte>, rest: seq<byte>)
    requires LF !in text
    ensures HasLine(text + [LF] + rest) && FirstLine(text + [LF] + rest) == text + [LF]
  {
    var s := text + [LF] + rest;
    assert s[|text|] == LF;
    forall j | 0 <= j < |text| ensures s[j] != LF { assert s[j] == text[j]; }
    assert s[..|text| + 1] == text + [LF];
  }
}
