// The decompressor on a zlib stream (RFC 1950): the header, the blocks and the checksum.

module Zlib {
  import opened Ints
  import opened Bits
  import opened Bitstream
  import opened Adler
  import opened LzSpec
  import opened DeflateStream
  import opened InflateTokens
  import opened InflateStream

  // A multiple of 31, no preset dictionary, and deflate as the method.
  predicate GoodHeader(z0: byte, z1: byte) {
    (z0 * 256 + z1) % 31 == 0 && z1 / 32 % 2 == 0 && z0 % 16 == 8
  }

  lemma HeaderIsGood()
    ensures GoodHeader(ZLIB_HEADER[0], ZLIB_HEADER[1])
  {
  }

  // The trailer as bits.
  ghost function Trailer(text: seq<byte>): (s: seq<bool>)
    ensures |s| == 32
  {
    BitsOfLength(BigEndian(Checksum(1, text)));
    BitsOf(BigEndian(Checksum(1, text)))
  }

  // The end of it, behind the blocks: the trailer against the checksum of the output.
  ghost predicate Finishes(x: Read<seq<byte>>, st: InflateStatus, text: seq<byte>) {
    if x.Got? then text == x.value && st == TrailerSays(x.rest[|x.rest| % 8..], text) else Fails(x, st)
  }

  ghost function TrailerSays(tail: seq<bool>, text: seq<byte>): InflateStatus {
    if |tail| < 32 then CannotMakeProgress else if tail[..32] == Trailer(text) then InflateDone else AdlerMismatch
  }

  // What a call on a whole zlib stream answers.
  ghost predicate ZlibAnswer(src: seq<byte>, room: nat, st: InflateStatus, text: seq<byte>) {
    if |src| < 2 then st == CannotMakeProgress
    else if !GoodHeader(src[0], src[1]) then st == InflateFailed
    else Finishes(RawMeaning(src[2..], room), st, text)
  }

  // ----- Reading -----

  method ReadHeader(r: Reader) returns (st: InflateStatus)
    requires r.Valid() && r.numBits == 0 && r.pos == 0
    modifies r
    ensures r.Valid() && st == if |r.src| < 2 then CannotMakeProgress else if GoodHeader(r.src[0], r.src[1]) then InflateDone else InflateFailed
    ensures |r.src| >= 2 ==> r.Rest() == BitsOf(r.src[2..])
  {
    hide BitsOf, Lsb, Pow2, Taken, GoodHeader;
    if r.pos >= |r.src| {
      return CannotMakeProgress;
    }
    var z0 := r.TakeByte();
    if r.pos >= |r.src| {
      return CannotMakeProgress;
    }
    var z1 := r.TakeByte();
    st := if GoodHeader(z0, z1) then InflateDone else InflateFailed;
  }

  // Four bytes, if there are so many, the highest first
  method ReadTrailer(r: Reader) returns (ok: bool, z: u32)
    requires r.Valid() && r.numBits == 0
    modifies r
    ensures ok == (|old(r.Rest())| >= 32) && (ok ==> old(r.Rest())[..32] == BitsOf(BigEndian(z)))
  {
    hide BitsOf, Lsb, Pow2, Taken, BigEndian;
    NextByte(r);
    ghost var rest, s := r.Rest(), r.src[r.pos..];
    BitsOfLength(s);
    z := 0;
    if r.pos >= |r.src| {
      return false, 0;
    }
    var a := r.TakeByte();
    if r.pos >= |r.src| {
      return false, 0;
    }
    var b := r.TakeByte();
    if r.pos >= |r.src| {
      return false, 0;
    }
    var c := r.TakeByte();
    if r.pos >= |r.src| {
      return false, 0;
    }
    var d := r.TakeByte();
    ok, z := true, Number(a, b, c, d);
    BigEndianOfNumber(a, b, c, d);
    assert s == [a, b, c, d] + s[4..];
    BitsOfBoth([a, b, c, d], s[4..]);
    BitsOfLength([a, b, c, d]);
  }

  lemma OneTrailer(x: u32, y: u32)
    ensures BitsOf(BigEndian(x)) == BitsOf(BigEndian(y)) <==> x == y
  {
    hide BitsOf, Lsb, BigEndian;
    NumberOfBigEndian(x);
    NumberOfBigEndian(y);
    if BitsOf(BigEndian(x)) == BitsOf(BigEndian(y)) {
      SameBytes(BigEndian(x), BigEndian(y));
    }
  }

  lemma SameBytes(s: seq<byte>, t: seq<byte>)
    requires BitsOf(s) == BitsOf(t)
    ensures s == t
  {
    hide BitsOf, Lsb;
    BitsOfLength(s);
    BitsOfLength(t);
    assert BitsOf(t) + [] == BitsOf(s) + [];
    BytesKept(s, [], t, []);
  }

  // The end of tinfl_decompress: the trailer against the checksum of the output.
  method CheckTrailer(r: Reader, bytes: seq<byte>) returns (st: InflateStatus)
    requires r.Valid()
    modifies r
    ensures st == TrailerSays(old(r.Rest())[|old(r.Rest())| % 8..], bytes)
  {
    hide BitsOf, Lsb, Pow2, Taken, Checksum, BigEndian, Reader.Valid, Reader.Rest;
    r.EndOfBlocks();
    NextByte(r);
    var ok, z := ReadTrailer(r);
    if !ok {
      return CannotMakeProgress;
    }
    var check := Adler32(1, bytes);
    OneTrailer(check, z);
    st := if check == z then InflateDone else AdlerMismatch;
  }

  // tinfl_decompress with TINFL_FLAG_PARSE_ZLIB_HEADER and a buffer for the whole output
  method InflateZlib(src: seq<byte>, out: array<byte>) returns (st: InflateStatus, n: nat)
    modifies out
    ensures n <= out.Length && ZlibAnswer(src, out.Length, st, out[..n])
  {
    hide *;
    n := 0;
    var r := new Reader(src);
    st := ReadHeader(r);
    if st != InflateDone {
      NoHeader(src, out.Length, st, out[..n]);
      return;
    }
    st, n := ReadBlocks(r, out);
    ghost var x := RawMeaning(src[2..], out.Length);
    MeaningIs(src[2..], out.Length);
    SaysOutcome(x, st, out[..n], r.Rest());
    if st == InflateDone {
      st := CheckTrailer(r, out[..n]);
    }
    IsEnd(x, st, out[..n]);
    WithHeader(src, out.Length, st, out[..n]);
  }

  lemma IsEnd(x: Read<seq<byte>>, st: InflateStatus, text: seq<byte>)
    requires if x.Got? then text == x.value && st == TrailerSays(x.rest[|x.rest| % 8..], text) else Fails(x, st)
    ensures Finishes(x, st, text)
  {
    hide TrailerSays;
  }

  lemma NoHeader(src: seq<byte>, room: nat, st: InflateStatus, text: seq<byte>)
    requires st == if |src| < 2 then CannotMakeProgress else if GoodHeader(src[0], src[1]) then InflateDone else InflateFailed
    requires st != InflateDone
    ensures ZlibAnswer(src, room, st, text)
  {
    hide GoodHeader, RawMeaning, Finishes;
  }

  lemma WithHeader(src: seq<byte>, room: nat, st: InflateStatus, text: seq<byte>)
    requires |src| >= 2 && GoodHeader(src[0], src[1])
    requires Finishes(RawMeaning(src[2..], room), st, text)
    ensures ZlibAnswer(src, room, st, text)
  {
    hide GoodHeader, RawMeaning, Finishes;
  }

  // ----- What it means -----

  ghost predicate TrailerBehind(more: seq<bool>, text: seq<byte>) {
    TrailerSays(more[|more| % 8..], text) == InflateDone
  }

  // A good header, a stream that means text, the rest of its last byte, and the checksum of
  // text, whatever follows.
  ghost predicate Framed(src: seq<byte>, ss: seq<Sent>, text: seq<byte>, more: seq<bool>) {
    |src| >= 2 && GoodHeader(src[0], src[1]) && StreamMeans(ss, BitsOf(src[2..]), text, more) && TrailerBehind(more, text)
  }

  // The answer that it is done with text, all of it proper.
  ghost predicate DoneProperly(src: seq<byte>, room: nat, text: seq<byte>) {
    ZlibAnswer(src, room, InflateDone, text) && |src| >= 2 && RawMeaning(src[2..], room).Got? && RawMeaning(src[2..], room).proper
  }

  // It is given exactly for those.
  lemma ZlibMeaning(src: seq<byte>, room: nat, text: seq<byte>)
    ensures DoneProperly(src, room, text) <==> |text| <= room && exists ss, more :: Framed(src, ss, text, more)
  {
    hide *;
    if ss, more :| |text| <= room && Framed(src, ss, text, more) {
      FramedIsDone(src, room, ss, text, more);
    }
    if DoneProperly(src, room, text) {
      var ss, more := DoneIsFramed(src, room, text);
    }
  }

  lemma FramedIsDone(src: seq<byte>, room: nat, ss: seq<Sent>, text: seq<byte>, more: seq<bool>)
    requires |text| <= room && Framed(src, ss, text, more)
    ensures DoneProperly(src, room, text)
  {
    hide GoodHeader, StreamMeans, TrailerSays, RawMeaning, BitsOf, ReadParts;
    BitsOfLength(src[2..]);
    MeaningIs(src[2..], room);
    MeansRead(ss, BitsOf(src[2..]), room, text, more);
  }

  lemma DoneIsFramed(src: seq<byte>, room: nat, text: seq<byte>) returns (ss: seq<Sent>, more: seq<bool>)
    requires DoneProperly(src, room, text)
    ensures |text| <= room && Framed(src, ss, text, more)
  {
    hide GoodHeader, StreamMeans, RawMeaning, BitsOf, ReadParts, Trailer;
    var x := RawMeaning(src[2..], room);
    BitsOfLength(src[2..]);
    MeaningIs(src[2..], room);
    StreamMeaning(BitsOf(src[2..]), room, x.value, x.rest);
    ss :| StreamMeans(ss, BitsOf(src[2..]), x.value, x.rest);
    more := x.rest;
  }
}
