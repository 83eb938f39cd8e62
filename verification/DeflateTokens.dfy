// The tokens of a compressed block as bits (section 3.2.5 of RFC 1951), and how the compressor
// writes them.

module DeflateTokens {
  import opened Bits
  import opened Ints
  import opened Bitstream
  import opened HuffmanCode
  import HuffmanBuild
  import opened LzSpec
  import LzBuffer

  const END_OF_BLOCK: nat := 256

  // ----- Symbols and extra bits -----

  // s_tdefl_len_sym and s_tdefl_len_extra, by the length less three
  function LenSym(l: nat): (s: nat)
    requires l < 256
  {
    if l < 8 then 257 + l
    else if l < 16 then 265 + (l - 8) / 2
    else if l < 32 then 269 + (l - 16) / 4
    else if l < 64 then 273 + (l - 32) / 8
    else if l < 128 then 277 + (l - 64) / 16
    else if l < 255 then 281 + (l - 128) / 32
    else 285
  }

  function LenExtra(l: nat): nat
    requires l < 256
  {
    if l < 8 then 0 else if l < 16 then 1 else if l < 32 then 2 else if l < 64 then 3 else if l < 128 then 4 else if l < 255 then 5 else 0
  }

  // s_tdefl_small_dist_sym and s_tdefl_small_dist_extra, by the distance less one
  function SmallDistSym(d: nat): nat
    requires d < 512
  {
    if d < 4 then d
    else if d < 8 then 4 + (d - 4) / 2
    else if d < 16 then 6 + (d - 8) / 4
    else if d < 32 then 8 + (d - 16) / 8
    else if d < 64 then 10 + (d - 32) / 16
    else if d < 128 then 12 + (d - 64) / 32
    else if d < 256 then 14 + (d - 128) / 64
    else 16 + (d - 256) / 128
  }

  function SmallDistExtra(d: nat): nat
    requires d < 512
  {
    if d < 4 then 0 else if d < 8 then 1 else if d < 16 then 2 else if d < 32 then 3
    else if d < 64 then 4 else if d < 128 then 5 else if d < 256 then 6 else 7
  }

  // s_tdefl_large_dist_sym and s_tdefl_large_dist_extra, by its high byte
  function LargeDistSym(h: nat): nat
    requires 2 <= h < 128
  {
    if h < 4 then 18 + (h - 2)
    else if h < 8 then 20 + (h - 4) / 2
    else if h < 16 then 22 + (h - 8) / 4
    else if h < 32 then 24 + (h - 16) / 8
    else if h < 64 then 26 + (h - 32) / 16
    else 28 + (h - 64) / 32
  }

  function LargeDistExtra(h: nat): nat
    requires 2 <= h < 128
  {
    if h < 4 then 8 else if h < 8 then 9 else if h < 16 then 10 else if h < 32 then 11 else if h < 64 then 12 else 13
  }

  function DistSym(d: nat): nat
    requires d < 32768
  {
    if d < 512 then SmallDistSym(d) else LargeDistSym(d / 256)
  }

  function DistExtra(d: nat): nat
    requires d < 32768
  {
    if d < 512 then SmallDistExtra(d) else LargeDistExtra(d / 256)
  }

  // s_length_base, s_length_extra, s_dist_base and s_dist_extra
  const LENGTH_BASE: seq<nat> :=
    [3, 4, 5, 6, 7, 8, 9, 10, 11, 13, 15, 17, 19, 23, 27, 31, 35, 43, 51, 59, 67, 83, 99, 115, 131, 163, 195, 227, 258, 0, 0]
  const LENGTH_EXTRA: seq<nat> :=
    [0, 0, 0, 0, 0, 0, 0, 0, 1, 1, 1, 1, 2, 2, 2, 2, 3, 3, 3, 3, 4, 4, 4, 4, 5, 5, 5, 5, 0, 0, 0]
  const DIST_BASE: seq<nat> :=
    [1, 2, 3, 4, 5, 7, 9, 13, 17, 25, 33, 49, 65, 97, 129, 193, 257, 385, 513, 769, 1025, 1537, 2049, 3073, 4097, 6145, 8193, 12289,
     16385, 24577, 0, 0]
  const DIST_EXTRA: seq<nat> :=
    [0, 0, 0, 0, 1, 1, 2, 2, 3, 3, 4, 4, 5, 5, 6, 6, 7, 7, 8, 8, 9, 9, 10, 10, 11, 11, 12, 12, 13, 13, 0, 0]

  // The two sides' tables belong together: base plus the low bits is the length.
  lemma LengthRoundTrip(l: nat)
    requires l < 256
    ensures var i := LenSym(l) - 257; 0 <= i <= 28 && LENGTH_EXTRA[i] == LenExtra(l) && LENGTH_BASE[i] + Low(l, LenExtra(l)) == l + 3
  {
    LowMods(l);
    if l < 32 {
      ShortLength(l);
    } else {
      LongLength(l);
    }
  }

  lemma ShortLength(l: nat)
    requires l < 32
    ensures var i := LenSym(l) - 257; var n := LenExtra(l);
            0 <= i <= 28 && LENGTH_EXTRA[i] == n && LENGTH_BASE[i] + (if n == 0 then 0 else if n == 1 then l % 2 else l % 4) == l + 3
  {
    var i := LenSym(l) - 257;
    if l < 8 {
    } else if l < 16 {
      assert i == 8 || i == 9 || i == 10 || i == 11;
    } else {
      assert i == 12 || i == 13 || i == 14 || i == 15;
    }
  }

  lemma LongLength(l: nat)
    requires 32 <= l < 256
    ensures var i := LenSym(l) - 257; var n := LenExtra(l);
            0 <= i <= 28 && LENGTH_EXTRA[i] == n &&
            LENGTH_BASE[i] + (if n == 0 then 0 else if n == 3 then l % 8 else if n == 4 then l % 16 else l % 32) == l + 3
  {
    var i := LenSym(l) - 257;
    if l < 64 {
      assert i == 16 || i == 17 || i == 18 || i == 19;
    } else if l < 128 {
      assert i == 20 || i == 21 || i == 22 || i == 23;
    } else if l < 255 {
      assert i == 24 || i == 25 || i == 26 || i == 27;
    }
  }

  lemma DistanceRoundTrip(d: nat)
    requires d < 32768
    ensures var i := DistSym(d); i <= 29 && DIST_EXTRA[i] == DistExtra(d) && DIST_BASE[i] + Low(d, DistExtra(d)) == d + 1
  {
    if d < 4 {
    } else {
      var i := DistSym(d);
      var k := DistExtra(d);
      hide Low;
      DistanceRange(d, k);
      var p := Pow2(k);
      LowIsMod(d, k, p);
      if d < 2 * p + p {
        QuotientIs(d, p, 2, d - 2 * p);
      } else {
        QuotientIs(d, p, 3, d - 3 * p);
      }
    }
  }

  // With k extra bits there are two symbols, for 2 * 2^k and 3 * 2^k on.
  lemma DistanceRange(d: nat, k: nat)
    requires 4 <= d < 32768 && k == DistExtra(d)
    ensures var i := DistSym(d); var p := Pow2(k);
            2 * p <= d < 4 * p && i == (if d < 3 * p then 2 * k + 2 else 2 * k + 3) && i <= 29 && DIST_EXTRA[i] == k &&
            DIST_BASE[i] == (if d < 3 * p then 2 * p + 1 else 3 * p + 1)
  {
    Pow2Values();
    Pow2Sum(8, 1);
    Pow2Sum(8, 2);
    Pow2Sum(8, 3);
    Pow2Sum(8, 4);
    Pow2Sum(8, 5);
    hide Pow2;
    if d < 512 {
      SmallRange(d, k);
    } else {
      LargeRange(d, k);
    }
  }

  lemma SmallRange(d: nat, k: nat)
    requires 4 <= d < 512 && k == SmallDistExtra(d)
    ensures var p := if k == 1 then 2 else if k == 2 then 4 else if k == 3 then 8 else if k == 4 then 16 else if k == 5 then 32 else if k == 6 then 64 else 128;
            var i := SmallDistSym(d);
            1 <= k <= 7 && 2 * p <= d < 4 * p && i == (if d < 3 * p then 2 * k + 2 else 2 * k + 3) && i <= 29 && DIST_EXTRA[i] == k &&
            DIST_BASE[i] == (if d < 3 * p then 2 * p + 1 else 3 * p + 1)
  {
  }

  lemma LargeRange(d: nat, k: nat)
    requires 512 <= d < 32768 && k == LargeDistExtra(d / 256)
    ensures var p := if k == 8 then 256 else if k == 9 then 512 else if k == 10 then 1024 else if k == 11 then 2048 else if k == 12 then 4096 else 8192;
            var i := LargeDistSym(d / 256);
            8 <= k <= 13 && 2 * p <= d < 4 * p && i == (if d < 3 * p then 2 * k + 2 else 2 * k + 3) && i <= 29 && DIST_EXTRA[i] == k &&
            DIST_BASE[i] == (if d < 3 * p then 2 * p + 1 else 3 * p + 1)
  {
  }

  lemma LowMods(x: nat)
    ensures Low(x, 0) == 0 && Low(x, 1) == x % 2 && Low(x, 2) == x % 4 && Low(x, 3) == x % 8 && Low(x, 4) == x % 16 && Low(x, 5) == x % 32
  {
    Pow2Values();
    LowIsMod(x, 1, 2);
    LowIsMod(x, 2, 4);
    LowIsMod(x, 3, 8);
    LowIsMod(x, 4, 16);
    LowIsMod(x, 5, 32);
  }

  lemma LowIsMod(x: nat, n: nat, p: nat)
    requires p == Pow2(n)
    ensures Low(x, n) == x % p
  {
    LowHigh(x, n);
    QuotientIs(x, p, High(x, n), Low(x, n));
  }

  // ----- The bits of a block -----

  // The codes have a word for everything the token needs.
  predicate Sayable(t: Token, lit: seq<nat>, dist: seq<nat>) {
    TokenOk(t) && match t
    case Literal(b) => Used(lit, b)
    case Match(len, d) => Used(lit, LenSym(len - MIN_MATCH_LEN)) && Used(dist, DistSym(d - 1))
  }

  predicate AllSayable(ts: seq<Token>, lit: seq<nat>, dist: seq<nat>) {
    Used(lit, END_OF_BLOCK) && forall k :: 0 <= k < |ts| ==> Sayable(ts[k], lit, dist)
  }

  function TokenBits(t: Token, lit: seq<nat>, dist: seq<nat>): seq<bool>
    requires Sayable(t, lit, dist)
  {
    match t
    case Literal(b) => Word(lit, b)
    case Match(len, d) =>
      Word(lit, LenSym(len - 3)) + Lsb(len - 3, LenExtra(len - 3)) + Word(dist, DistSym(d - 1)) + Lsb(d - 1, DistExtra(d - 1))
  }

  // The tokens from k on and the end of the block.
  function BlockBits(ts: seq<Token>, k: nat, lit: seq<nat>, dist: seq<nat>): seq<bool>
    requires AllSayable(ts, lit, dist) && k <= |ts|
    decreases |ts| - k
  {
    if k == |ts| then Word(lit, END_OF_BLOCK) else TokenBits(ts[k], lit, dist) + BlockBits(ts, k + 1, lit, dist)
  }

  // ----- Writing -----

  method PutSymbol(w: Writer, sizes: array<nat>, codes: array<nat>, sym: nat, ghost cs: seq<nat>)
    requires w.Valid() && sizes[..] == cs && HuffmanBuild.Coded(cs, codes[..]) && Used(cs, sym)
    modifies w
    ensures w.Valid() && w.Stream() == old(w.Stream()) + Word(cs, sym)
  {
    assert sizes[sym] == cs[sym] && HuffmanBuild.CodedAt(cs, codes[..], sym);
    hide Word, Lsb, Pow2;
    w.PutBits(codes[sym], sizes[sym]);
  }

  method PutExtra(w: Writer, x: nat, n: nat)
    requires w.Valid() && n <= 16
    modifies w
    ensures w.Valid() && w.Stream() == old(w.Stream()) + Lsb(x, n)
  {
    LowHigh(x, n);
    LsbOfLow(x, n);
    hide Low, Lsb, Pow2;
    w.PutBits(Low(x, n), n);
  }

  // The body of the loop of tdefl_compress_lz_codes
  method PutToken(w: Writer, t: Token, sizes0: array<nat>, codes0: array<nat>, sizes1: array<nat>, codes1: array<nat>,
                  ghost lit: seq<nat>, ghost dist: seq<nat>)
    requires w.Valid() && sizes0[..] == lit && sizes1[..] == dist && Sayable(t, lit, dist)
    requires HuffmanBuild.Coded(lit, codes0[..]) && HuffmanBuild.Coded(dist, codes1[..])
    modifies w
    ensures w.Valid() && w.Stream() == old(w.Stream()) + TokenBits(t, lit, dist)
  {
    hide Word, Lsb, HuffmanBuild.Coded, LenSym, LenExtra, DistSym, DistExtra;
    match t
    case Literal(b) =>
      PutSymbol(w, sizes0, codes0, b, lit);
    case Match(len, d) =>
      var l, e := len - MIN_MATCH_LEN, d - 1;
      ExtraSmall(l, e);
      PutSymbol(w, sizes0, codes0, LenSym(l), lit);
      PutExtra(w, l, LenExtra(l));
      PutSymbol(w, sizes1, codes1, DistSym(e), dist);
      PutExtra(w, e, DistExtra(e));
  }

  lemma ExtraSmall(l: nat, d: nat)
    requires l < 256 && d < 32768
    ensures LenExtra(l) <= 5 && DistExtra(d) <= 13
  {
  }

  // tdefl_compress_lz_codes: the closed code buffer, token by token, and the end of block.
  method CompressLzCodes(w: Writer, buf: array<byte>, end: nat, sizes0: array<nat>, codes0: array<nat>, sizes1: array<nat>, codes1: array<nat>,
                         ghost ts: seq<Token>, ghost lit: seq<nat>, ghost dist: seq<nat>)
    requires w.Valid() && end <= buf.Length && LzBuffer.AllOk(ts) && buf[..end] == LzBuffer.Packed(ts)
    requires sizes0[..] == lit && sizes1[..] == dist && AllSayable(ts, lit, dist)
    requires HuffmanBuild.Coded(lit, codes0[..]) && HuffmanBuild.Coded(dist, codes1[..])
    modifies w
    ensures w.Valid() && w.Stream() == old(w.Stream()) + BlockBits(ts, 0, lit, dist)
  {
    hide Word, HuffmanBuild.Coded, TokenBits, LzBuffer.Packed;
    var tokens := LzBuffer.ReadTokens(buf, end, ts);
    ghost var before, all := w.Stream(), BlockBits(ts, 0, lit, dist);
    for k := 0 to |tokens|
      invariant w.Valid() && w.Stream() + BlockBits(ts, k, lit, dist) == before + all
    {
      ghost var so := w.Stream();
      PutToken(w, tokens[k], sizes0, codes0, sizes1, codes1, lit, dist);
      assert so + (TokenBits(ts[k], lit, dist) + BlockBits(ts, k + 1, lit, dist)) == w.Stream() + BlockBits(ts, k + 1, lit, dist);
    }
    PutSymbol(w, sizes0, codes0, END_OF_BLOCK, lit);
  }
}
