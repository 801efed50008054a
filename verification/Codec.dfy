/** EncodeString and DecodeString: a flag byte and the text or its LZW code,
    scrambled, then armoured. */
module Codec {
  import opened Bytes
  import opened Lzw
  import LzwRoundTrip
  import opened Compressor
  import Decompressor
  import Scrambler
  import Armour

  /** The four big work areas; each is three times work_buf_size. */
  class WorkSpace {
    const work_buf_size: nat
    const crypt_work: array<byte>
    const jencode_copy: array<byte>
    const jencode_out: array<byte>
    const compress_work: array<byte>

    ghost predicate Valid() {
      && crypt_work.Length == jencode_copy.Length == jencode_out.Length == compress_work.Length == Area()
      && crypt_work != jencode_copy && crypt_work != jencode_out && crypt_work != compress_work
      && jencode_copy != jencode_out && jencode_copy != compress_work && jencode_out != compress_work
      && work_buf_size > 0
    }

    function Area(): nat {
      3 * work_buf_size
    }

    constructor (size: nat)
      requires size > 0
      ensures Valid() && work_buf_size == size
      ensures fresh(crypt_work) && fresh(jencode_copy) && fresh(jencode_out) && fresh(compress_work)
    {
      work_buf_size := size;
      crypt_work := new byte[3 * size];
      jencode_copy := new byte[3 * size];
      jencode_out := new byte[3 * size];
      compress_work := new byte[3 * size];
    }
  }

  /** A string of up to 98 bytes is stored, a longer one compressed. */
  predicate Stored(s: seq<byte>) {
    |s| + 1 < 100
  }

  /** The flag is the length with its terminator, or one more: even when the
      text is stored, odd when it is compressed.  Only its low byte is sent. */
  function Flag(s: seq<byte>): nat {
    var n := |s| + 1;
    if Stored(s) then (if n % 2 == 1 then n + 1 else n)
    else (if n % 2 == 0 then n + 1 else n)
  }

  /** The low byte keeps the parity, so the receiver takes the same branch. */
  lemma FlagSelects(s: seq<byte>)
    ensures Truncate(Flag(s)) % 2 == 0 <==> Stored(s)
  {
    var f := Flag(s);
    assert f == 256 * (f / 256) + Truncate(f);
  }

  function BlockLen(s: seq<byte>): nat {
    if Stored(s) then |s| + 2 else CodeBytes(|Compressed(s)|) + 1
  }

  /** What goes into compress_work for s. */
  ghost predicate IsBlock(s: seq<byte>, block: seq<byte>) {
    && |block| == BlockLen(s)
    && block[0] == Truncate(Flag(s))
    && if Stored(s) then block[1..] == s + [NUL] else Carries(block[1..], Compressed(s))
  }

  lemma FlagShape(s: seq<byte>)
    ensures |s| <= 98 ==> Truncate(Flag(s)) == (if |s| % 2 == 1 then |s| + 1 else |s| + 2) % 256
    ensures |s| >= 99 ==> Truncate(Flag(s)) == (if |s| % 2 == 0 then |s| + 1 else |s| + 2) % 256
  {
  }

  /** A block, written out: a string of up to 98 bytes as it is behind the even one of
      its length plus one and plus two, a longer one compressed behind the odd one. */
  lemma BlockShape(s: seq<byte>, block: seq<byte>)
    requires IsBlock(s, block)
    ensures |s| <= 98 ==> block == [(if |s| % 2 == 1 then |s| + 1 else |s| + 2) % 256] + (s + [0])
    ensures |s| >= 99 ==>
              && |block| == 1 + (9 * |Compressed(s)| + 7) / 8
              && block[0] == (if |s| % 2 == 0 then |s| + 1 else |s| + 2) % 256
              && Carries(block[1..], Compressed(s))
  {
    FlagShape(s);
    HeadAndTail(block);
  }

  lemma HeadAndTail(block: seq<byte>)
    requires block != []
    ensures block == [block[0]] + block[1..]
  {
  }

  /** The line of the string "AB" under the source's default key. */
  lemma DefaultKeyLine()
    ensures Line([4, 65, 66, 0], 1000) == [104, 52, 74, 100, 121, 119, 52]
  {
    Scrambler.DefaultKeyExample();
    var b: seq<byte>, x: seq<Armour.six>, y: seq<Armour.six> := [135, 130, 93, 203, 14], [33, 56, 9, 29], [50, 48, 56];
    assert b[..3] == [135, 130, 93] && b[3..] == [203, 14];
    assert Armour.Sixes(b[..3]) == x && Armour.Sixes(b[3..]) == y;
    assert Armour.Chars(x) == [104, 52, 74, 100] by { Armour.CharsUnfold(x); }
    assert Armour.Chars(y) == [121, 119, 52] by { Armour.CharsUnfold(y); }
  }

  /** line is what EncodeString makes of s. */
  ghost predicate EncodesTo(s: seq<byte>, key: int, line: seq<byte>) {
    exists block :: IsBlock(s, block) && line == Line(block, key)
  }

  function Line(block: seq<byte>, key: int): (line: seq<byte>)
    requires block != []
    ensures |line| == LineLen(|block|)
  {
    Armour.Armoured(Scrambler.Scrambled(block, key))
  }

  function LineLen(blockLen: nat): nat {
    (4 * (blockLen + 1) + 2) / 3
  }

  lemma LineIsPrintable(block: seq<byte>, key: int)
    requires block != []
    ensures Armour.AllPrintable(Line(block, key))
  {
    Armour.RoundTrip(Scrambler.Scrambled(block, key));
  }

  /** The two outer layers together are undone by their partners. */
  lemma LineRoundTrip(block: seq<byte>, key: int)
    requires block != []
    ensures Scrambler.Unscrambled(Armour.Unarmoured(Line(block, key)), key) == block
  {
    Armour.RoundTrip(Scrambler.Scrambled(block, key));
    Scrambler.RoundTrip(block, key);
  }

  /** Badly configured work areas stop the program. */
  predicate Exits(s: seq<byte>, size: nat) {
    Stored(s) && |s| + 1 > 3 * size - 2
  }

  /** The code does not fit compress_work. */
  predicate Overflows(s: seq<byte>, size: nat) {
    !Stored(s) && 3 * size - 1 <= CodeBytes(|Compressed(s)|)
  }

  datatype Status = Exit | EmptyLine | Encoded

  function StatusOf(s: seq<byte>, size: nat): Status {
    if Exits(s, size) then Exit else if Overflows(s, size) then EmptyLine else Encoded
  }

  /** The bytes jEncode is allowed to produce. */
  function SealedLen(s: seq<byte>, size: nat): int {
    Min(BlockLen(s) + 1, 3 * size - 1)
  }

  /** A short string is stored behind an even flag. */
  method StoreBlock(ws: WorkSpace, src: seq<byte>) returns (status: Status, compressed_l: int)
    requires ws.Valid() && NulFree(src) && Stored(src)
    modifies ws.compress_work
    ensures status == StatusOf(src, ws.work_buf_size)
    ensures status == Encoded ==>
              && compressed_l == BlockLen(src) <= ws.Area()
              && IsBlock(src, ws.compress_work[..compressed_l])
    ensures status != EmptyLine
  {
    var srclen := |src| + 1;
    var flag := srclen;
    if srclen > ws.Area() - 2 {
      return Exit, 0;
    }
    if flag % 2 == 1 {
      flag := flag + 1;
    }
    ws.compress_work[0] := Truncate(flag);
    for i := 0 to |src|
      invariant ws.compress_work[0] == Truncate(flag)
      invariant ws.compress_work[1..i + 1] == src[..i]
    {
      ws.compress_work[i + 1] := src[i];
    }
    ws.compress_work[srclen] := NUL;
    compressed_l := srclen + 1;
    assert ws.compress_work[..compressed_l][1..] == src + [NUL];
    status := Encoded;
  }

  /** A longer one is compressed behind an odd flag. */
  method CompressBlock(ws: WorkSpace, src: seq<byte>) returns (status: Status, compressed_l: int)
    requires ws.Valid() && NulFree(src) && !Stored(src)
    modifies ws.compress_work
    ensures status == StatusOf(src, ws.work_buf_size)
    ensures status == Encoded ==>
              && compressed_l == BlockLen(src) <= ws.Area()
              && IsBlock(src, ws.compress_work[..compressed_l])
    ensures status == EmptyLine ==> compressed_l <= 0
  {
    var flag := |src| + 1;
    if flag % 2 == 0 {
      flag := flag + 1;
    }
    ws.compress_work[0] := Truncate(flag);
    compressed_l := Compress(ws.compress_work, 1, ws.Area() - 1, src);
    compressed_l := compressed_l + 1;
    if compressed_l <= 0 {
      return EmptyLine, compressed_l;
    }
    CarriesPrefix(ws.compress_work[1..ws.Area()], ws.compress_work[1..compressed_l], Compressed(src));
    assert ws.compress_work[..compressed_l][1..] == ws.compress_work[1..compressed_l];
    status := Encoded;
  }

  /** The first half of EncodeString: the flag and the payload. */
  method BuildBlock(ws: WorkSpace, src: seq<byte>) returns (status: Status, compressed_l: int)
    requires ws.Valid() && NulFree(src)
    modifies ws.compress_work
    ensures status == StatusOf(src, ws.work_buf_size)
    ensures status == Encoded ==>
              && compressed_l == BlockLen(src) <= ws.Area()
              && IsBlock(src, ws.compress_work[..compressed_l])
    ensures status == EmptyLine ==> compressed_l <= 0
  {
    var srclen := |src| + 1;
    if srclen < 100 {
      status, compressed_l := StoreBlock(ws, src);
    } else {
      status, compressed_l := CompressBlock(ws, src);
    }
  }

  /** The second half of EncodeString: scramble and armour the block. */
  method SealBlock(ws: WorkSpace, compressed_l: nat, key: int, out: array<byte>) returns (len: nat)
    requires ws.Valid() && 1 <= compressed_l <= ws.Area()
    requires out != ws.compress_work && out != ws.jencode_copy && out != ws.jencode_out
    requires (4 * Min(compressed_l + 1, ws.Area() - 1) + 2) / 3 < out.Length
    modifies ws.jencode_copy, ws.jencode_out, out
    ensures len == (4 * Min(compressed_l + 1, ws.Area() - 1) + 2) / 3 && out[len] == NUL
    ensures compressed_l + 1 <= ws.Area() - 1 ==> out[..len] == Line(ws.compress_work[..compressed_l], key)
  {
    ghost var block := ws.compress_work[..compressed_l];
    for i := 0 to compressed_l
      invariant ws.jencode_copy[..i] == block[..i]
      invariant ws.compress_work[..compressed_l] == block
    {
      ws.jencode_copy[i] := ws.compress_work[i];
    }
    assert ws.jencode_copy[..compressed_l] == block;
    var jencodedlen := Scrambler.JEncode(ws.jencode_copy, compressed_l, key, ws.jencode_out, ws.Area() - 1);
    Armour.Encode64(ws.jencode_out, jencodedlen, out);
    len := (4 * jencodedlen + 2) / 3;
  }

  /** EncodeString(src, out, maxoutlen).  For a string that fits, out gets its
      line; for one whose code overflows compress_work, a lone newline; Exit
      stands for the source's exit(1). */
  method EncodeString(ws: WorkSpace, src: seq<byte>, key: int, out: array<byte>) returns (status: Status, len: nat)
    requires ws.Valid() && NulFree(src) && out.Length >= 2
    requires out != ws.compress_work && out != ws.jencode_copy && out != ws.jencode_out
    requires StatusOf(src, ws.work_buf_size) == Encoded ==>
               (4 * SealedLen(src, ws.work_buf_size) + 2) / 3 < out.Length
    modifies ws.compress_work, ws.jencode_copy, ws.jencode_out, out
    ensures status == StatusOf(src, ws.work_buf_size)
    ensures status == EmptyLine ==> len == 1 && out[0] == LF && out[1] == NUL
    ensures status == Encoded ==> len < out.Length && out[len] == NUL
    ensures status == Encoded && BlockLen(src) + 1 <= ws.Area() - 1 ==>
              EncodesTo(src, key, out[..len]) && len == LineLen(BlockLen(src))
  {
    len := 0;
    var compressed_l;
    status, compressed_l := BuildBlock(ws, src);
    if status == Exit {
      return;
    }
    if compressed_l <= 0 {
      out[0], out[1], len := LF, NUL, 1;
      return;
    }
    ghost var block := ws.compress_work[..compressed_l];
    len := SealBlock(ws, compressed_l, key, out);
  }

  predicate IsEol(b: byte) {
    b == LF || b == CR
  }

  /** The line that DecodeString decodes: it cuts at a line ending in either of
      the last two places. */
  function Stripped(text: seq<byte>): (line: seq<byte>)
    requires |text| >= 2
  {
    var l := |text|;
    if IsEol(text[l - 2]) then text[..l - 2]
    else if IsEol(text[l - 1]) then text[..l - 1]
    else text
  }

  /** Cut are a carriage return and line feed, or either alone, and nothing else. */
  lemma StrippedEnds(line: seq<byte>)
    ensures Stripped(line + [CR, LF]) == line
    ensures line != [] && !IsEol(line[|line| - 1]) ==> Stripped(line + [LF]) == line && Stripped(line + [CR]) == line
    ensures |line| >= 2 && !IsEol(line[|line| - 1]) && !IsEol(line[|line| - 2]) ==> Stripped(line) == line
  {
    assert (line + [CR, LF])[..|line|] == line;
    assert (line + [LF])[..|line|] == line && (line + [CR])[..|line|] == line;
  }

  method Strip(src: array<byte>, l: nat)
    requires 2 <= l < src.Length && src[l] == NUL
    modifies src
    ensures var n := |Stripped(old(src[..l]))|; src[..n] == Stripped(old(src[..l])) && src[n] == NUL
  {
    if IsEol(src[l - 1]) {
      src[l - 1] := NUL;
    }
    if IsEol(src[l - 2]) {
      src[l - 2] := NUL;
    }
  }

  /** The first half of DecodeString: back to the block. */
  method UnsealBlock(ws: WorkSpace, src: array<byte>, ghost n: nat, key: int) returns (compressed_l: int)
    requires ws.Valid() && src != ws.jencode_copy && src != ws.compress_work
    requires n < src.Length && src[n] == NUL && forall j :: 0 <= j < n ==> src[j] != NUL
    requires 3 * n / 4 <= ws.Area()
    modifies ws.jencode_copy, ws.compress_work
    ensures compressed_l == 3 * n / 4 - 1
    ensures compressed_l > 0 ==>
              ws.compress_work[..compressed_l] == Scrambler.Unscrambled(Armour.Unarmoured(src[..n]), key)
  {
    ghost var bytes := Armour.Unarmoured(src[..n]);
    var outlen64 := Armour.Decode64(src, n, ws.jencode_copy);
    assert ws.jencode_copy[..outlen64] == bytes;
    compressed_l := Scrambler.JDecode(ws.jencode_copy, outlen64, key, ws.compress_work);
  }

  /** The block in compress_work is one for s, and the receiver has room. */
  ghost predicate Receivable(ws: WorkSpace, compressed_l: int, s: seq<byte>)
    reads ws.compress_work
  {
    && 0 < compressed_l <= ws.compress_work.Length
    && NulFree(s) && IsBlock(s, ws.compress_work[..compressed_l])
    && (Stored(s) || |s| <= ws.work_buf_size)
  }

  /** The decompressor's claim, for the code of s. */
  lemma CompressedBlock(code: seq<byte>, s: seq<byte>, codelen: nat)
    requires !Stored(s) && codelen == CodeBytes(|Compressed(s)|) <= |code|
    requires Carries(code[..codelen], Compressed(s))
    ensures var cs := CodesOf(Words(s));
            && Carries(code, cs + [EOF]) && BITS_LEN * (|cs| + 1) <= 8 * codelen
            && Legal(START, cs) && Output(START, cs) == s
  {
    LzwRoundTrip.RoundTrip(s);
    CarriesPrefix(code, code[..codelen], Compressed(s));
  }

  method ExpandCompressed(ws: WorkSpace, compressed_l: int, out: array<byte>, ghost s: seq<byte>)
      returns (decompressed_l: int)
    requires ws.Valid() && out != ws.compress_work && compressed_l < ws.Area() <= out.Length
    modifies out
    ensures -1 <= decompressed_l <= ws.work_buf_size
    ensures Receivable(ws, compressed_l, s) && !Stored(s) ==>
              decompressed_l == |s| && out[..decompressed_l] == s
  {
    ghost var cs := if Stored(s) then [] else CodesOf(Words(s));
    if Receivable(ws, compressed_l, s) && !Stored(s) {
      ghost var code := ws.compress_work[1..];
      assert ws.compress_work[..compressed_l][1..] == code[..compressed_l - 1];
      CompressedBlock(code, s, compressed_l - 1);
    }
    decompressed_l := Decompressor.Decompress(out, ws.work_buf_size, ws.compress_work, 1, compressed_l - 1, cs);
  }

  method ExpandStored(ws: WorkSpace, compressed_l: int, out: array<byte>, ghost s: seq<byte>)
      returns (decompressed_l: int)
    requires ws.Valid() && out != ws.compress_work && compressed_l < ws.Area() <= out.Length
    modifies out
    ensures 0 <= decompressed_l < ws.Area()
    ensures compressed_l > 0 ==>
              decompressed_l == compressed_l - 1 && out[..decompressed_l] == ws.compress_work[1..compressed_l]
    ensures Receivable(ws, compressed_l, s) && Stored(s) ==>
              decompressed_l == |s| + 1 && out[..decompressed_l] == s + [NUL]
  {
    if compressed_l <= 0 {
      return 0;
    }
    ghost var block := ws.compress_work[..compressed_l];
    for i := 0 to compressed_l - 1
      invariant out[..i] == block[1..i + 1]
    {
      out[i] := ws.compress_work[i + 1];
      assert block[1..i + 2] == block[1..i + 1] + [block[i + 1]];
    }
    decompressed_l := compressed_l - 1;
    assert block[1..decompressed_l + 1] == block[1..];
  }

  /** The second half of DecodeString: the parity of the flag byte chooses.
      Where the source stores out[-1] after a failed decompression, the model
      stores nothing. */
  method ExpandBlock(ws: WorkSpace, compressed_l: int, out: array<byte>, ghost s: seq<byte>)
      returns (decompressed_l: int)
    requires ws.Valid() && out != ws.compress_work && compressed_l < ws.Area() <= out.Length
    modifies out
    ensures -1 <= decompressed_l < out.Length
    ensures decompressed_l >= 0 ==> out[decompressed_l] == NUL
    ensures Receivable(ws, compressed_l, s) ==>
              CString(out[..]) == s && decompressed_l == if |s| <= 98 then |s| + 1 else |s|
    ensures compressed_l > 0 && ws.compress_work[0] % 2 == 0 ==>
              decompressed_l == compressed_l - 1 && out[..decompressed_l] == ws.compress_work[1..compressed_l]
  {
    FlagSelects(s);
    if ws.compress_work[0] % 2 == 0 {
      decompressed_l := ExpandStored(ws, compressed_l, out, s);
    } else {
      decompressed_l := ExpandCompressed(ws, compressed_l, out, s);
    }
    if decompressed_l >= 0 {
      out[decompressed_l] := NUL;
      if Receivable(ws, compressed_l, s) {
        CStringOf(s, out[|s| + 1..]);
        assert out[..] == s + [NUL] + out[|s| + 1..];
      }
    }
  }

  lemma Payload(bytes: seq<byte>, n: nat)
    requires 0 < n <= |bytes|
    ensures bytes[..n][0] == bytes[0] && bytes[..n][1..] == bytes[1..n]
  {
  }

  /** DecodeString(src, out) of the string src[..l].  Whatever s the line was
      made from, out then holds s. */
  method DecodeString(ws: WorkSpace, src: array<byte>, l: nat, key: int, out: array<byte>, ghost s: seq<byte>)
      returns (decompressed_l: int)
    requires ws.Valid() && 2 <= l < src.Length && src[l] == NUL && forall j :: 0 <= j < l ==> src[j] != NUL
    requires 3 * l / 4 <= ws.Area() <= out.Length
    requires src != ws.jencode_copy && src != ws.compress_work && src != out
    requires out != ws.compress_work && out != ws.jencode_copy
    modifies src, ws.jencode_copy, ws.compress_work, out
    ensures -1 <= decompressed_l < out.Length
    ensures NulFree(s) && EncodesTo(s, key, Stripped(old(src[..l]))) && (Stored(s) || |s| <= ws.work_buf_size) ==>
              CString(out[..]) == s && decompressed_l == if |s| <= 98 then |s| + 1 else |s|
    ensures var line := Stripped(old(src[..l]));
            |line| >= 3 ==>
              var block := Scrambler.Unscrambled(Armour.Unarmoured(line), key);
              block[0] % 2 == 0 ==> decompressed_l == |block| - 1 && out[..decompressed_l] == block[1..]
  {
    ghost var line := Stripped(src[..l]);
    Strip(src, l);
    assert forall j :: 0 <= j < |line| ==> src[j] == line[j];
    var compressed_l := UnsealBlock(ws, src, |line|, key);
    if EncodesTo(s, key, line) {
      ghost var block :| IsBlock(s, block) && line == Line(block, key);
      LineRoundTrip(block, key);
    }
    if compressed_l > 0 { Payload(ws.compress_work[..], compressed_l); }
    decompressed_l := ExpandBlock(ws, compressed_l, out, s);
  }
}
