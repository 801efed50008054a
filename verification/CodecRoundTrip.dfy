/** A line stands for at most one message: the value-level form of "DecodeString
    undoes EncodeString". */
module CodecRoundTrip {
  import opened Bytes
  import opened Bits
  import opened BitPacker
  import opened Lzw
  import opened LzwRoundTrip
  import opened Compressor
  import opened Decompressor
  import opened Codec

  lemma {:induction false} LegalCode(s: Decoder, cs: seq<nat>, i: nat)
    requires Sound(s) && Legal(s, cs) && i < |cs|
    ensures cs[i] < NODE_SIZE && cs[i] != EOF
  {
    WordsFitTheStack(s, cs, i);
  }

  /** The code at place i of a carried sequence, end-of-file code included. */
  lemma CodeAt(bs: seq<byte>, cs: seq<nat>, i: nat)
    requires Legal(START, cs) && Carries(bs, cs + [EOF]) && i <= |cs|
    ensures FromBits(Field(bs, BITS_LEN * i, BITS_LEN)) == (cs + [EOF])[i]
    ensures (cs + [EOF])[i] == EOF <==> i == |cs|
  {
    if i < |cs| { LegalCode(START, cs, i); }
    CarriedCode(bs, cs + [EOF], i);
  }

  /** The end-of-file code ends both sequences at the same place. */
  lemma CodesAgree(bs: seq<byte>, cs: seq<nat>, ds: seq<nat>)
    requires Legal(START, cs) && Carries(bs, cs + [EOF])
    requires Legal(START, ds) && Carries(bs, ds + [EOF])
    ensures cs == ds
  {
    forall i | 0 <= i <= |cs| && i <= |ds|
      ensures (cs + [EOF])[i] == (ds + [EOF])[i] && (i == |cs| <==> i == |ds|)
    {
      CodeAt(bs, cs, i);
      CodeAt(bs, ds, i);
    }
    assert |cs| == |ds| by {
      assert |cs| <= |ds| ==> (|cs| == |cs| <==> |cs| == |ds|);
      assert |ds| <= |cs| ==> (|ds| == |cs| <==> |ds| == |ds|);
    }
    forall i | 0 <= i < |cs| ensures cs[i] == ds[i] {
      assert (cs + [EOF])[i] == cs[i] && (ds + [EOF])[i] == ds[i];
    }
  }

  lemma CompressedAgree(bs: seq<byte>, s: seq<byte>, t: seq<byte>)
    requires s != [] && t != [] && Carries(bs, Compressed(s)) && Carries(bs, Compressed(t))
    ensures s == t
  {
    RoundTrip(s);
    RoundTrip(t);
    CodesAgree(bs, CodesOf(Words(s)), CodesOf(Words(t)));
  }

  lemma BlockDeterminesMessage(s: seq<byte>, t: seq<byte>, block: seq<byte>)
    requires IsBlock(s, block) && IsBlock(t, block)
    ensures s == t
  {
    FlagSelects(s);
    FlagSelects(t);
    if Stored(s) {
      assert (s + [NUL])[..|s|] == s && (t + [NUL])[..|t|] == t;
    } else {
      CompressedAgree(block[1..], s, t);
    }
  }

  lemma LineDeterminesMessage(s: seq<byte>, t: seq<byte>, key: int, line: seq<byte>)
    requires EncodesTo(s, key, line) && EncodesTo(t, key, line)
    ensures s == t
  {
    var b :| IsBlock(s, b) && line == Line(b, key);
    var c :| IsBlock(t, c) && line == Line(c, key);
    LineRoundTrip(b, key);
    LineRoundTrip(c, key);
    BlockDeterminesMessage(s, t, b);
  }

  // ---- and every message has a line

  lemma {:induction false} FromBitsAt(bits: seq<bool>, k: nat)
    ensures Bit(FromBits(bits), k) == (k < |bits| && bits[k])
  {
    if bits == [] {
      ZeroBit(k);
    } else if k > 0 {
      FromBitsAt(bits[1..], k - 1);
      assert FromBits(bits) / 2 == FromBits(bits[1..]);
    }
  }

  /** The eight bits of byte i, zero beyond the end. */
  function BitsOfByte(bits: seq<bool>, i: nat): (r: seq<bool>)
    ensures |r| == 8
  {
    seq(8, k requires 0 <= k < 8 => 8 * i + k < |bits| && bits[8 * i + k])
  }

  function BytesOf(bits: seq<bool>): (bs: seq<byte>)
    ensures |bs| == (|bits| + 7) / 8
  {
    OnesByte();
    seq((|bits| + 7) / 8, i requires 0 <= i < (|bits| + 7) / 8 => FromBits(BitsOfByte(bits, i)))
  }

  lemma BytesHold(bits: seq<bool>)
    ensures Holds(BytesOf(bits), bits)
  {
    var bs := BytesOf(bits);
    forall q: nat | q < 8 * |bs| ensures StreamBit(bs, q) == (q < |bits| && bits[q]) {
      FromBitsAt(BitsOfByte(bits, q / 8), q % 8);
    }
    HoldsBelowIff(bs, bits, 8 * |bs|);
  }

  lemma EveryMessageHasABlock(s: seq<byte>) returns (block: seq<byte>)
    ensures IsBlock(s, block)
  {
    if Stored(s) {
      block := [Truncate(Flag(s))] + (s + [NUL]);
    } else {
      var code := BytesOf(CodeBits(Compressed(s)));
      BytesHold(CodeBits(Compressed(s)));
      CodeBitsCarried(code, CodeBits(Compressed(s)), Compressed(s));
      block := [Truncate(Flag(s))] + code;
    }
  }

  /** Every message, for every key, has a line. */
  lemma EveryMessageHasALine(s: seq<byte>, key: int) returns (line: seq<byte>)
    ensures EncodesTo(s, key, line) && |line| == LineLen(BlockLen(s))
  {
    var block := EveryMessageHasABlock(s);
    line := Line(block, key);
  }
}
