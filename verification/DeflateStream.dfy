// Blocks in their three forms and the stream they make up (section 3.2.3 of RFC 1951).

module DeflateStream {
  import opened Bits
  import opened Ints
  import opened Bitstream
  import opened HuffmanCode
  import opened LzSpec
  import opened DeflateTokens
  import opened DeflateBlock
  import HuffmanBuild
  import CodeLengths
  import LzBuffer

  // ----- Fixed codes -----

  // The lengths of section 3.2.6.
  function FixedLit(): (s: seq<nat>)
    ensures |s| == LIT_SYMBOLS
  {
    CodeLengths.Times(8, 144) + CodeLengths.Times(9, 112) + CodeLengths.Times(7, 24) + CodeLengths.Times(8, 8)
  }

  function FixedDist(): (s: seq<nat>)
    ensures |s| == DIST_SYMBOLS
  {
    CodeLengths.Times(5, 32)
  }

  lemma {:induction false} BelowBoth(a: seq<nat>, b: seq<nat>, k: nat)
    ensures Below(a + b, k) == Below(a, k) + Below(b, k)
  {
    if b == [] {
      assert a + b == a;
    } else {
      assert (a + b)[..|a + b| - 1] == a + b[..|b| - 1];
      BelowBoth(a, b[..|b| - 1], k);
    }
  }

  lemma {:induction false} BelowTimes(v: nat, n: nat)
    requires 1 <= v <= MAX_LENGTH
    ensures Kraft(CodeLengths.Times(v, n)) == n * Weight(v)
  {
    hide Weight;
    if n > 0 {
      BelowTimes(v, n - 1);
      assert CodeLengths.Times(v, n)[..n - 1] == CodeLengths.Times(v, n - 1);
      Distribute(n - 1, 1, Weight(v));
    }
  }

  lemma FixedAcceptable()
    ensures Acceptable(FixedLit()) && Acceptable(FixedDist())
  {
    var a, b, c, d := CodeLengths.Times(8, 144), CodeLengths.Times(9, 112), CodeLengths.Times(7, 24), CodeLengths.Times(8, 8);
    BelowBoth(a + b + c, d, MAX_LENGTH + 1);
    BelowBoth(a + b, c, MAX_LENGTH + 1);
    BelowBoth(a, b, MAX_LENGTH + 1);
    BelowTimes(8, 144);
    BelowTimes(9, 112);
    BelowTimes(7, 24);
    BelowTimes(8, 8);
    BelowTimes(5, 32);
    Pow2Limits();
    Pow2Values();
    Pow2Sum(8, 2);
  }

  lemma FixedSayable(ts: seq<Token>)
    requires LzBuffer.AllOk(ts)
    ensures AllSayable(ts, FixedLit(), FixedDist())
  {
    FixedLengths();
    hide FixedLit, FixedDist;
    forall k | 0 <= k < |ts|
      ensures Sayable(ts[k], FixedLit(), FixedDist())
    {
      if ts[k].Match? {
        SymbolRange(ts[k].len - 3, ts[k].dist - 1);
      }
    }
  }

  // Both sides fill in the fixed lengths with the same loops.
  method FillFixed(size0: array<nat>, size1: array<nat>)
    requires size0 != size1 && size0.Length == LIT_SYMBOLS && size1.Length >= DIST_SYMBOLS
    modifies size0, size1
    ensures size0[..] == FixedLit() && size1[..DIST_SYMBOLS] == FixedDist()
  {
    for i := 0 to 144
      invariant forall j :: 0 <= j < i ==> size0[j] == 8
    {
      size0[i] := 8;
    }
    for i := 144 to 256
      invariant (forall j :: 0 <= j < 144 ==> size0[j] == 8) && forall j :: 144 <= j < i ==> size0[j] == 9
    {
      size0[i] := 9;
    }
    for i := 256 to 280
      invariant (forall j :: 0 <= j < 144 ==> size0[j] == 8) && (forall j :: 144 <= j < 256 ==> size0[j] == 9)
      invariant forall j :: 256 <= j < i ==> size0[j] == 7
    {
      size0[i] := 7;
    }
    for i := 280 to 288
      invariant (forall j :: 0 <= j < 144 ==> size0[j] == 8) && (forall j :: 144 <= j < 256 ==> size0[j] == 9)
      invariant (forall j :: 256 <= j < 280 ==> size0[j] == 7) && forall j :: 280 <= j < i ==> size0[j] == 8
    {
      size0[i] := 8;
    }
    forall i | 0 <= i < DIST_SYMBOLS {
      size1[i] := 5;
    }
  }

  // tdefl_compress_block with the fixed codes
  method WriteStaticBlock(w: Writer, buf: array<byte>, end: nat, ghost ts: seq<Token>)
    requires w.Valid() && end <= buf.Length && LzBuffer.AllOk(ts) && buf[..end] == LzBuffer.Packed(ts)
    modifies w
    ensures w.Valid() && AllSayable(ts, FixedLit(), FixedDist())
    ensures w.Stream() == old(w.Stream()) + (Lsb(1, 2) + BlockBits(ts, 0, FixedLit(), FixedDist()))
  {
    hide Writer.Stream, Writer.Valid, LzBuffer.Packed, BlockBits, Pow2, Lsb, HuffmanBuild.Coded, AllSayable, Acceptable, FixedLit, FixedDist;
    var sizes0 := new nat[LIT_SYMBOLS](_ => 0);
    var codes0 := new nat[LIT_SYMBOLS](_ => 0);
    var sizes1 := new nat[DIST_SYMBOLS](_ => 0);
    var codes1 := new nat[DIST_SYMBOLS](_ => 0);
    FillFixed(sizes0, sizes1);
    ghost var lit, dist := sizes0[..], sizes1[..];
    assert dist == sizes1[..DIST_SYMBOLS];
    FixedLengths();
    HuffmanBuild.StaticTable(sizes0, codes0);
    HuffmanBuild.StaticTable(sizes1, codes1);
    assert sizes0[..] == lit && sizes1[..] == dist;
    FixedSayable(ts);
    Pow2Limits();
    ghost var so := w.Stream();
    w.PutBits(1, 2);
    CompressLzCodes(w, buf, end, sizes0, codes0, sizes1, codes1, ts, lit, dist);
    assert (so + Lsb(1, 2)) + BlockBits(ts, 0, lit, dist) == so + (Lsb(1, 2) + BlockBits(ts, 0, lit, dist));
  }

  lemma FixedLengths()
    ensures Lengths(FixedLit()) && Lengths(FixedDist()) && |FixedLit()| == LIT_SYMBOLS && |FixedDist()| == DIST_SYMBOLS
    ensures (forall i :: 0 <= i < LIT_SYMBOLS ==> FixedLit()[i] != 0) && forall i :: 0 <= i < DIST_SYMBOLS ==> FixedDist()[i] != 0
  {
    FixedEach();
    hide FixedLit, FixedDist;
  }

  lemma FixedEach()
    ensures forall i :: 0 <= i < LIT_SYMBOLS ==> 7 <= FixedLit()[i] <= 9
    ensures forall i :: 0 <= i < DIST_SYMBOLS ==> FixedDist()[i] == 5
  {
    var a, b, c, d := CodeLengths.Times(8, 144), CodeLengths.Times(9, 112), CodeLengths.Times(7, 24), CodeLengths.Times(8, 8);
    hide CodeLengths.Times;
    assert FixedLit() == a + b + c + d && |a| == 144 && |b| == 112 && |c| == 24 && |d| == 8;
  }

  // ----- Stored bytes -----

  // Type, whatever fills up the byte, the length and its complement, the bytes.
  function StoredBits(bytes: seq<byte>, fill: seq<bool>): seq<bool>
    requires |bytes| < 0x1_0000
  {
    Lsb(0, 2) + (fill + (Lsb(|bytes|, 16) + (Lsb(0xFFFF - |bytes|, 16) + BitsOf(bytes))))
  }

  lemma SixteenBits(n: nat)
    requires n < 0x1_0000
    ensures n < Pow2(16) && 0xFFFF - n < Pow2(16)
  {
    Pow2Values();
    Pow2Sum(8, 8);
  }

  lemma StreamLength(w: Writer)
    requires w.Valid()
    ensures |w.Stream()| % 8 == w.bitsIn
  {
    BitsOfLength(w.out);
  }

  method PutBytes(w: Writer, bytes: seq<byte>)
    requires w.Valid()
    modifies w
    ensures w.Valid() && w.Stream() == old(w.Stream()) + BitsOf(bytes)
  {
    Pow2Values();
    hide Writer.Stream, Writer.Valid, Lsb, Pow2, BitsOf;
    ghost var so := w.Stream();
    assert bytes[..0] == [];
    NoBits();
    for i := 0 to |bytes|
      invariant w.Valid() && w.Stream() == so + BitsOf(bytes[..i])
    {
      w.PutBits(bytes[i], 8);
      assert bytes[..i + 1] == bytes[..i] + [bytes[i]];
      BitsOfBoth(bytes[..i], [bytes[i]]);
      BitsOfOne(bytes[i]);
    }
    assert bytes[..|bytes|] == bytes;
  }

  lemma NoBits()
    ensures BitsOf([]) == []
  {
  }

  // Zeros up to the next byte boundary.
  method PadToByte(w: Writer) returns (ghost pad: nat)
    requires w.Valid()
    modifies w
    ensures w.Valid() && pad < 8 && w.bitsIn == 0 && w.Stream() == old(w.Stream()) + Lsb(0, pad) && |w.Stream()| % 8 == 0
  {
    StreamLength(w);
    pad := 0;
    if w.bitsIn != 0 {
      pad := 8 - w.bitsIn;
      w.PutBits(0, 8 - w.bitsIn);
    }
    StreamLength(w);
  }

  // The type of a stored block and the padding behind it.
  method PutStoredType(w: Writer) returns (ghost pad: nat)
    requires w.Valid()
    modifies w
    ensures w.Valid() && pad < 8 && (|old(w.Stream())| + 2 + pad) % 8 == 0
    ensures w.Stream() == (old(w.Stream()) + Lsb(0, 2)) + Lsb(0, pad)
  {
    Pow2Limits();
    ghost var so := w.Stream();
    hide *;
    w.PutBits(0, 2);
    pad := PadToByte(w);
    PaddedLength(so, pad);
  }

  // The stored form of a block in tdefl_flush_block
  method WriteStoredBlock(w: Writer, bytes: seq<byte>) returns (ghost pad: nat)
    requires w.Valid() && |bytes| < 0x1_0000
    modifies w
    ensures w.Valid() && pad < 8 && (|old(w.Stream())| + 2 + pad) % 8 == 0
    ensures w.Stream() == old(w.Stream()) + StoredBits(bytes, Lsb(0, pad))
  {
    hide *;
    SixteenBits(|bytes|);
    ghost var so := w.Stream();
    pad := PutStoredType(w);
    w.PutBits(|bytes|, 16);
    w.PutBits(0xFFFF - |bytes|, 16);
    PutBytes(w, bytes);
    StoredParts(so, bytes, pad);
  }

  lemma PaddedLength(s: seq<bool>, pad: nat)
    ensures |(s + Lsb(0, 2)) + Lsb(0, pad)| == |s| + 2 + pad
  {
    TwoBits();
    PadLength(pad);
  }

  lemma StoredParts(s: seq<bool>, bytes: seq<byte>, pad: nat)
    requires |bytes| < 0x1_0000
    ensures ((((s + Lsb(0, 2)) + Lsb(0, pad)) + Lsb(|bytes|, 16)) + Lsb(0xFFFF - |bytes|, 16)) + BitsOf(bytes) == s + StoredBits(bytes, Lsb(0, pad))
  {
    hide Lsb, BitsOf;
    FiveParts(s, Lsb(0, 2), Lsb(0, pad), Lsb(|bytes|, 16), Lsb(0xFFFF - |bytes|, 16), BitsOf(bytes));
  }

  lemma TwoBits()
    ensures |Lsb(0, 2)| == 2
  {
  }

  lemma PadLength(pad: nat)
    ensures |Lsb(0, pad)| == pad
  {
  }

  lemma ByteLow(b: byte)
    ensures Low(b, 8) == b
  {
    Pow2Values();
    LowOfSmall(b, 8);
  }

  lemma SameByte(x: byte, b: byte, s: seq<bool>, t: seq<bool>)
    requires Lsb(x, 8) + s == Lsb(b, 8) + t
    ensures x == b && s == t
  {
    var p, q := Lsb(x, 8), Lsb(b, 8);
    assert p == (p + s)[..8] && q == (q + t)[..8] && s == (p + s)[8..] && t == (q + t)[8..];
    ByteLow(x);
    ByteLow(b);
    NumOfLsb(x, 8);
    NumOfLsb(b, 8);
  }

  lemma SixteenLong(n: nat)
    ensures |Lsb(n, 16)| == 16
  {
  }

  // ----- The stream -----

  // How a block was written.
  datatype Form = Dynamic(h: Header) | Fixed | Raw(fill: seq<bool>)

  datatype Sent = Sent(block: Block, form: Form, last: bool)

  ghost predicate FormFits(s: Sent) {
    match s.form
    case Dynamic(h) => s.block.Coded? && GoodHeader(h) && AllSayable(s.block.tokens, h.lit, h.dist)
    case Fixed => s.block.Coded? && AllSayable(s.block.tokens, FixedLit(), FixedDist())
    case Raw(fill) => s.block.Stored? && |s.block.bytes| < 0x1_0000 && |fill| < 8
  }

  // What follows the bit that marks the last block.
  ghost function BodyBits(s: Sent): seq<bool>
    requires FormFits(s)
  {
    match s.form
    case Dynamic(h) => Lsb(2, 2) + (HeaderBits(h) + BlockBits(s.block.tokens, 0, h.lit, h.dist))
    case Fixed => Lsb(1, 2) + BlockBits(s.block.tokens, 0, FixedLit(), FixedDist())
    case Raw(fill) => StoredBits(s.block.bytes, fill)
  }

  ghost predicate AllFit(ss: seq<Sent>) {
    forall k :: 0 <= k < |ss| ==> FormFits(ss[k])
  }

  ghost function StreamBits(ss: seq<Sent>): seq<bool>
    requires AllFit(ss)
  {
    if ss == [] then [] else StreamBits(ss[..|ss| - 1]) + ([ss[|ss| - 1].last] + BodyBits(ss[|ss| - 1]))
  }

  // Padding ends on a byte boundary.
  ghost predicate Aligned(s: Sent, pos: nat) {
    s.form.Raw? ==> (pos + 3 + |s.form.fill|) % 8 == 0
  }

  ghost predicate GoodStream(ss: seq<Sent>) {
    AllFit(ss) && forall k :: 0 <= k < |ss| ==> AllFit(ss[..k]) && Aligned(ss[k], |StreamBits(ss[..k])|)
  }

  lemma StreamMore(ss: seq<Sent>, s: Sent)
    requires GoodStream(ss) && FormFits(s) && Aligned(s, |StreamBits(ss)|)
    ensures GoodStream(ss + [s]) && StreamBits(ss + [s]) == StreamBits(ss) + ([s.last] + BodyBits(s))
  {
    hide FormFits, BodyBits;
    var t := ss + [s];
    assert t[..|ss|] == ss;
    forall k | 0 <= k < |t|
      ensures AllFit(t[..k]) && Aligned(t[k], |StreamBits(t[..k])|)
    {
      if k < |ss| {
        assert t[..k] == ss[..k];
      }
    }
  }

  function BlocksOf(ss: seq<Sent>): (bs: seq<Block>)
    ensures |bs| == |ss| && forall k :: 0 <= k < |bs| ==> bs[k] == ss[k].block
  {
    seq(|ss|, k requires 0 <= k < |ss| => ss[k].block)
  }

  // ----- Writing a block -----

  // tdefl_compress_block: the tokens with the fixed codes or with codes of their own.
  method WriteCodedBlock(w: Writer, buf: array<byte>, end: nat, isStatic: bool, ghost ts: seq<Token>, ghost last: bool) returns (ghost s: Sent)
    requires w.Valid() && end <= buf.Length && LzBuffer.AllOk(ts) && buf[..end] == LzBuffer.Packed(ts) && |ts| < 0xFFFF
    modifies w
    ensures w.Valid() && FormFits(s) && s.block == Coded(ts) && s.last == last && !s.form.Raw? && s.form.Fixed? == isStatic
    ensures w.Stream() == old(w.Stream()) + BodyBits(s)
  {
    hide Writer.Stream, Writer.Valid, LzBuffer.Packed, BlockBits, Pow2, Lsb, AllSayable, GoodHeader, HeaderBits, FixedLit, FixedDist;
    if isStatic {
      WriteStaticBlock(w, buf, end, ts);
      s := Sent(Coded(ts), Fixed, last);
    } else {
      ghost var bits, h := WriteDynamicBlock(w, buf, end, ts);
      s := Sent(Coded(ts), Dynamic(h), last);
    }
  }

  lemma TokenLength(t: Token)
    requires Sayable(t, FixedLit(), FixedDist())
    ensures 25 * |TokenBits(t, FixedLit(), FixedDist())| <= 31 * (if t.Match? then 25 else 9)
  {
    FixedLengths();
    FixedShort();
    if t.Match? {
      var lit, dist := FixedLit(), FixedDist();
      WordLength(lit, LenSym(t.len - 3));
      WordLength(dist, DistSym(t.dist - 1));
      ExtraShort(t.len - 3, t.dist - 1);
      SymbolRange(t.len - 3, t.dist - 1);
      hide FixedLit, FixedDist, Word, Lsb, LenSym, DistSym, LenExtra, DistExtra;
      FourLengths(Word(lit, LenSym(t.len - 3)), Lsb(t.len - 3, LenExtra(t.len - 3)), Word(dist, DistSym(t.dist - 1)), Lsb(t.dist - 1, DistExtra(t.dist - 1)));
    } else {
      WordLength(FixedLit(), t.b);
    }
  }

  lemma FourLengths(a: seq<bool>, b: seq<bool>, c: seq<bool>, d: seq<bool>)
    ensures |a + b + c + d| == |a| + |b| + |c| + |d|
  {
  }

  lemma ExtraShort(l: nat, d: nat)
    requires l < 256 && d < 32768
    ensures |Lsb(l, LenExtra(l))| <= 5 && |Lsb(d, DistExtra(d))| <= 13
  {
  }

  lemma FixedShort()
    ensures (forall i :: 0 <= i < LIT_SYMBOLS ==> FixedLit()[i] <= 9) && FixedLit()[END_OF_BLOCK] == 7
    ensures (forall i :: 256 <= i < LIT_SYMBOLS ==> FixedLit()[i] <= 8) && forall i :: 0 <= i < DIST_SYMBOLS ==> FixedDist()[i] <= 5
  {
  }

  // With the fixed codes, a block takes at most 1.24 times the packed tokens.
  lemma {:induction false} StaticLength(ts: seq<Token>, k: nat)
    requires AllSayable(ts, FixedLit(), FixedDist()) && k <= |ts|
    ensures 25 * |BlockBits(ts, k, FixedLit(), FixedDist())| <= 31 * LzBuffer.PackedCost(ts[k..]) + 175
    decreases |ts| - k
  {
    FixedLengths();
    if k == |ts| {
      FixedShort();
      WordLength(FixedLit(), END_OF_BLOCK);
    } else {
      hide FixedLit, FixedDist, TokenBits;
      TokenLength(ts[k]);
      StaticLength(ts, k + 1);
      assert ts[k..][0] == ts[k] && ts[k..][1..] == ts[k + 1..];
    }
  }

  // The empty stored block behind a flush that does not end the stream.
  method WriteEmptyBlock(w: Writer) returns (ghost s: Sent)
    requires w.Valid()
    modifies w
    ensures w.Valid() && w.bitsIn == 0 && FormFits(s) && s.block == Stored([]) && !s.last && Aligned(s, |old(w.Stream())|)
    ensures w.Stream() == old(w.Stream()) + ([s.last] + BodyBits(s)) && |w.Stream()| <= |old(w.Stream())| + 42
  {
    hide *;
    ghost var so := w.Stream();
    ghost var pad := PutEmptyType(w);
    PutEmptyLength(w);
    EmptyParts(so, pad);
    s := EmptySent(|so|, pad);
  }

  // The bit that says there is more, the type of a stored block and the padding.
  method PutEmptyType(w: Writer) returns (ghost pad: nat)
    requires w.Valid()
    modifies w
    ensures w.Valid() && pad < 8 && (|old(w.Stream())| + 3 + pad) % 8 == 0 && w.bitsIn == 0
    ensures w.Stream() == (old(w.Stream()) + Lsb(0, 3)) + Lsb(0, pad)
  {
    SixteenBits(0);
    ghost var so := w.Stream();
    hide *;
    w.PutBits(0, 3);
    pad := PadToByte(w);
    EmptyParts(so, pad);
  }

  // No bytes, and the complement of that.
  method PutEmptyLength(w: Writer)
    requires w.Valid() && w.bitsIn == 0
    modifies w
    ensures w.Valid() && w.bitsIn == 0 && w.Stream() == (old(w.Stream()) + Lsb(0, 16)) + Lsb(0xFFFF, 16)
  {
    SixteenBits(0);
    SixteenLong(0);
    SixteenLong(0xFFFF);
    ghost var so := w.Stream();
    EightMore(|so|, 4);
    hide *;
    StreamLength(w);
    w.PutBits(0, 16);
    w.PutBits(0xFFFF, 16);
    StreamLength(w);
    assert |w.Stream()| == |so| + 32;
  }

  // What was written is the form of a block.
  lemma EmptySent(at: nat, pad: nat) returns (s: Sent)
    requires pad < 8 && (at + 3 + pad) % 8 == 0
    ensures FormFits(s) && s.block == Stored([]) && !s.last && Aligned(s, at) && BodyBits(s) == StoredBits([], Lsb(0, pad))
  {
    hide StoredBits;
    s := Sent(Stored([]), Raw(Lsb(0, pad)), false);
  }

  lemma EmptyParts(s: seq<bool>, pad: nat)
    ensures (((s + Lsb(0, 3)) + Lsb(0, pad)) + Lsb(0, 16)) + Lsb(0xFFFF, 16) == s + ([false] + StoredBits([], Lsb(0, pad)))
    ensures |(s + Lsb(0, 3)) + Lsb(0, pad)| == |s| + 3 + pad && |[false] + StoredBits([], Lsb(0, pad))| == 35 + pad
  {
    hide Lsb;
    ThreeBits();
    StoredLength([], Lsb(0, pad));
    NoBits();
    EmptyRegrouped(s, [false], Lsb(0, 2), Lsb(0, pad), Lsb(0, 16), Lsb(0xFFFF, 16));
    PadLength(pad);
  }

  lemma ThreeBits()
    ensures Lsb(0, 3) == [false] + Lsb(0, 2) && |Lsb(0, 3)| == 3
  {
  }

  lemma EmptyRegrouped(s: seq<bool>, l: seq<bool>, a: seq<bool>, b: seq<bool>, c: seq<bool>, d: seq<bool>)
    ensures (((s + (l + a)) + b) + c) + d == s + (l + (a + (b + (c + (d + [])))))
  {
  }

  // How many whole bytes a stream makes.
  lemma OutLength(w: Writer)
    requires w.Valid()
    ensures 8 * |w.out| + w.bitsIn == |w.Stream()| && w.bitsIn < 8
  {
    BitsOfLength(w.out);
  }

  // Bits put behind a stream leave its whole bytes as they are.
  lemma OutGrows(a: seq<byte>, x: seq<bool>, w: Writer, z: seq<bool>)
    requires w.Valid() && |x| < 8 && w.Stream() == (BitsOf(a) + x) + z
    ensures a <= w.out
  {
    BytesKept(a, x + z, w.out, Lsb(w.bitBuffer, w.bitsIn));
  }

  lemma {:induction false} BytesKept(a: seq<byte>, x: seq<bool>, b: seq<byte>, y: seq<bool>)
    requires BitsOf(b) + y == BitsOf(a) + x && |y| < 8
    ensures a <= b
  {
    hide Lsb;
    if a != [] {
      BitsOfLength(a);
      BitsOfLength(b);
      assert (Lsb(b[0], 8) + BitsOf(b[1..])) + y == Lsb(b[0], 8) + (BitsOf(b[1..]) + y);
      assert (Lsb(a[0], 8) + BitsOf(a[1..])) + x == Lsb(a[0], 8) + (BitsOf(a[1..]) + x);
      SameByte(b[0], a[0], BitsOf(b[1..]) + y, BitsOf(a[1..]) + x);
      BytesKept(a[1..], x, b[1..], y);
      assert a == [a[0]] + a[1..] && b == [b[0]] + b[1..];
    }
  }

  // The fixed form of a block is short.
  lemma StaticBody(s: Sent)
    requires FormFits(s) && s.form.Fixed? && LzBuffer.AllOk(s.block.tokens)
    ensures 25 * |BodyBits(s)| <= 248 * |LzBuffer.Packed(s.block.tokens)| + 225
  {
    var ts := s.block.tokens;
    hide FixedLit, FixedDist, AllSayable, LzBuffer.Packed, BlockBits;
    StaticLength(ts, 0);
    assert ts[0..] == ts;
    LzBuffer.PackedIsLong(ts);
    TwoBits();
  }

  // ----- The state of a stream -----

  // No block yet says that it is the last.
  ghost predicate Open(bits: seq<bool>, ss: seq<Sent>) {
    GoodStream(ss) && bits == StreamBits(ss) && forall k :: 0 <= k < |ss| ==> !ss[k].last
  }

  // The last block is out, and padding may follow.
  ghost predicate Ended(bits: seq<bool>, ss: seq<Sent>) {
    GoodStream(ss) && OneLast(ss) && exists pad: nat :: pad < 8 && bits == StreamBits(ss) + Lsb(0, pad)
  }

  lemma OpenAtStart()
    ensures Open([], []) && BlocksOf([]) == []
  {
  }

  lemma BlocksMore(ss: seq<Sent>, s: Sent)
    ensures BlocksOf(ss + [s]) == BlocksOf(ss) + [s.block]
  {
  }

  lemma StaysOpen(bits: seq<bool>, ss: seq<Sent>, s: Sent)
    requires Open(bits, ss) && FormFits(s) && Aligned(s, |bits|) && !s.last
    ensures Open(bits + ([s.last] + BodyBits(s)), ss + [s])
  {
    hide FormFits, BodyBits, StreamBits;
    StreamMore(ss, s);
  }

  lemma EndsWith(bits: seq<bool>, ss: seq<Sent>, s: Sent, pad: nat)
    requires Open(bits, ss) && FormFits(s) && Aligned(s, |bits|) && s.last && pad < 8
    ensures Ended((bits + ([s.last] + BodyBits(s))) + Lsb(0, pad), ss + [s])
  {
    hide FormFits, BodyBits, StreamBits, Lsb;
    StreamMore(ss, s);
  }

  // Every block but the last says that more follow.
  predicate OneLast(ss: seq<Sent>) {
    ss != [] && forall k :: 0 <= k < |ss| ==> (ss[k].last <==> k == |ss| - 1)
  }

  lemma RawLength(s: Sent)
    requires FormFits(s) && s.form.Raw?
    ensures s.block.Stored?
    ensures |BodyBits(s)| == 34 + |s.form.fill| + 8 * |s.block.bytes|
  {
    StoredLength(s.block.bytes, s.form.fill);
  }

  lemma StoredLength(bytes: seq<byte>, fill: seq<bool>)
    requires |bytes| < 0x1_0000
    ensures |StoredBits(bytes, fill)| == 34 + |fill| + 8 * |bytes|
  {
    BitsOfLength(bytes);
    TwoBits();
    SixteenLong(|bytes|);
    SixteenLong(0xFFFF - |bytes|);
  }
}
