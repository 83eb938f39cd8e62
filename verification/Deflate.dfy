// The whole way: what the compressor puts out, the decompressor turns back into the input.

module Deflate {
  import opened Ints
  import opened LzSpec
  import opened LzCompressor
  import opened Bitstream
  import opened Bits
  import DeflateStream
  import Adler
  import opened InflateTokens
  import opened InflateStream
  import opened Zlib

  // Whatever calls a finished compressor went through, with whatever input, room for output
  // and flushes, the bytes that its caller has decompress to the input of all those calls.
  method Inflated(c: Compressor, out: array<byte>) returns (ok: bool, n: nat)
    requires c.Valid() && c.prevStatus == Done && c.ended && c.Complete() && DeflateStream.OneLast(c.sent) && |c.input| <= out.Length
    modifies out
    ensures ok && n == |c.input| && out[..n] == old(c.input)
  {
    hide *;
    ghost var body, pad := Carried(c);
    var st;
    if c.flags.zlib {
      FrameRead(c.delivered, c.sent, body, pad, c.input, out.Length);
      st, n := InflateZlib(c.delivered, out);
      ZlibText(c.delivered, out.Length, st, out[..n], c.input);
    } else {
      StreamRead(c.delivered, c.sent, pad, c.input, out.Length);
      var consumed;
      st, n, consumed := InflateRaw(c.delivered, out);
      RawText(c.delivered, out.Length, st, out[..n], consumed, c.input);
    }
    ok := st == InflateDone;
  }

  lemma Carried(c: Compressor) returns (body: seq<byte>, pad: nat)
    requires c.Complete() && c.ended
    ensures DeflateStream.GoodStream(c.sent) && ExpandBlocks(DeflateStream.BlocksOf(c.sent)) == Text(c.input)
    ensures pad < 8 && BitsOf(body) == DeflateStream.StreamBits(c.sent) + Lsb(0, pad)
    ensures c.delivered == if c.flags.zlib then Adler.ZLIB_HEADER + body + Adler.BigEndian(Adler.Checksum(1, c.input)) else body
  {
    hide DeflateStream.GoodStream, ExpandBlocks, BitsOf, Lsb, DeflateStream.StreamBits, Adler.Checksum, Adler.BigEndian;
    body, pad :| c.Carries(body, pad);
  }

  lemma StreamRead(src: seq<byte>, ss: seq<DeflateStream.Sent>, pad: nat, text: seq<byte>, room: nat)
    requires DeflateStream.GoodStream(ss) && DeflateStream.OneLast(ss) && BitsOf(src) == DeflateStream.StreamBits(ss) + Lsb(0, pad)
    requires ExpandBlocks(DeflateStream.BlocksOf(ss)) == Text(text) && |text| <= room
    ensures RawMeaning(src, room) == Got(text, Lsb(0, pad), true)
  {
    hide *;
    BitsOfLength(src);
    IsMeant(ss, BitsOf(src), text, Lsb(0, pad));
    MeansRead(ss, BitsOf(src), room, text, Lsb(0, pad));
    MeaningIs(src, room);
  }

  lemma RawText(src: seq<byte>, room: nat, st: InflateStatus, s: seq<byte>, consumed: nat, text: seq<byte>)
    requires RawAnswer(src, room, st, s, consumed) && RawMeaning(src, room).Got? && RawMeaning(src, room).value == text
    ensures st == InflateDone && s == text
  {
    hide RawMeaning, BitsOf;
  }

  lemma FrameRead(src: seq<byte>, ss: seq<DeflateStream.Sent>, body: seq<byte>, pad: nat, text: seq<byte>, room: nat)
    requires DeflateStream.GoodStream(ss) && DeflateStream.OneLast(ss) && pad < 8 && BitsOf(body) == DeflateStream.StreamBits(ss) + Lsb(0, pad)
    requires ExpandBlocks(DeflateStream.BlocksOf(ss)) == Text(text) && |text| <= room
    requires src == Adler.ZLIB_HEADER + body + Adler.BigEndian(Adler.Checksum(1, text))
    ensures ZlibAnswer(src, room, InflateDone, text) && |src| >= 2 && RawMeaning(src[2..], room).Got?
  {
    hide DeflateStream.GoodStream, DeflateStream.StreamBits, DeflateStream.OneLast, ExpandBlocks, BitsOf, Lsb, Adler.Checksum, Adler.BigEndian, GoodHeader, RawMeaning;
    HeaderIsGood();
    StreamFits(ss);
    var tail := Adler.BigEndian(Adler.Checksum(1, text));
    assert src[2..] == body + tail;
    BitsOfBoth(body, tail);
    BitsOfLength(tail);
    BitsOfLength(src[2..]);
    BehindStream(DeflateStream.StreamBits(ss), Lsb(0, pad), BitsOf(tail));
    IsMeant(ss, BitsOf(src[2..]), text, Lsb(0, pad) + BitsOf(tail));
    MeansRead(ss, BitsOf(src[2..]), room, text, Lsb(0, pad) + BitsOf(tail));
    MeaningIs(src[2..], room);
    TrailerAt(pad, text);
  }

  lemma BehindStream(a: seq<bool>, b: seq<bool>, c: seq<bool>)
    ensures (a + b) + c == a + (b + c)
  {
  }

  lemma TrailerAt(pad: nat, text: seq<byte>)
    requires pad < 8
    ensures var more := Lsb(0, pad) + Trailer(text); |more| % 8 == pad && more[pad..][..32] == Trailer(text) && |more[pad..]| == 32
  {
    hide Trailer;
    DeflateStream.PadLength(pad);
    hide Lsb;
  }

  lemma ZlibText(src: seq<byte>, room: nat, st: InflateStatus, s: seq<byte>, text: seq<byte>)
    requires ZlibAnswer(src, room, st, s) && ZlibAnswer(src, room, InflateDone, text) && |src| >= 2 && RawMeaning(src[2..], room).Got?
    ensures st == InflateDone && s == text
  {
    hide RawMeaning, Trailer, GoodHeader;
  }

  // tdefl_compress_mem_to_output and tinfl_decompress_mem_to_mem: it is done exactly if the
  // function for the output refuses nothing that it is given; that is then the compressed
  // form, and the decompressed bytes are the source bytes.
  method RoundTrip(flags: Flags, src: seq<byte>, accepts: Callback, out: array<byte>)
    returns (st: Status, packed: seq<byte>, n: nat, ghost puts: seq<seq<byte>>)
    requires flags.maxProbes >= 1 && flags.maxProbesLong >= 1 && |src| <= out.Length
    modifies out
    ensures st == if Refused(accepts, puts) then PutBufFailed else Done
    ensures packed == TakenBy(accepts, puts)
    ensures st == Done ==> n == |src| && out[..n] == src
  {
    hide Compressor.Valid, Compressor.Complete, Compressor.Summed, DeflateStream.OneLast, Refused, TakenBy;
    var c := new Compressor(flags, true, accepts);
    var consumed;
    NothingPut(accepts);
    st, consumed := c.Compress(src, false, false, true, 0, Finish);
    packed, n, puts := c.delivered, 0, c.puts;
    if st == Done {
      var ok;
      ok, n := Inflated(c, out);
    }
  }

  lemma NothingPut(accepts: Callback)
    ensures !Refused(accepts, [])
  {
  }
}
