// The numbers of RFC 1950 and RFC 1951, apart from the tables of the code: base values and extra
// bits, the fixed code words, the runs of code lengths, and two streams followed bit by bit.

module DeflateFormat {
  import opened Ints
  import opened Bits
  import opened Bitstream
  import opened HuffmanCode
  import opened LzSpec
  import opened DeflateTokens
  import opened DeflateBlock
  import opened DeflateStream
  import opened InflateTokens
  import opened InflateStream
  import CodeLengths
  import LzBuffer
  import Adler
  import Zlib

  // ----- Lengths and distances (section 3.2.5) --------------------------------------------

  // Every symbol takes over where the one before it ends, except for the last, which stands
  // for 258 alone.
  lemma LengthTables(i: nat)
    requires i < 29
    ensures LENGTH_EXTRA[i] == if i < 8 || i == 28 then 0 else (i - 4) / 4
    ensures LENGTH_BASE[0] == 3 && LENGTH_BASE[28] == 258
    ensures i < 27 ==> LENGTH_BASE[i + 1] == LENGTH_BASE[i] + Pow2(LENGTH_EXTRA[i])
  {
    Pow2Values();
    hide Pow2;
  }

  lemma DistanceTables(i: nat)
    requires i < 30
    ensures DIST_EXTRA[i] == if i < 2 then 0 else (i - 2) / 2
    ensures DIST_BASE[0] == 1 && DIST_BASE[29] + Pow2(DIST_EXTRA[29]) == 32769
    ensures i < 29 ==> DIST_BASE[i + 1] == DIST_BASE[i] + Pow2(DIST_EXTRA[i])
  {
    Pow2Values();
    Pow2Sum(8, 1);
    Pow2Sum(8, 2);
    Pow2Sum(8, 3);
    Pow2Sum(8, 4);
    Pow2Sum(8, 5);
    hide Pow2;
    ExtrasAre(i);
    if i < 16 {
      NearTable(i);
    } else if i < 29 {
      FarTable(i);
    }
    hide DIST_BASE, DIST_EXTRA;
  }

  lemma ExtrasAre(i: nat)
    requires i < 30
    ensures |DIST_EXTRA| == |DIST_BASE| == 32 && DIST_EXTRA[i] == (if i < 2 then 0 else (i - 2) / 2) && DIST_EXTRA[29] == 13
    ensures DIST_BASE[0] == 1 && DIST_BASE[29] == 24577
  {
  }

  lemma NearTable(i: nat)
    requires i < 16
    ensures DIST_BASE[i + 1] == DIST_BASE[i] + if i < 4 then 1 else if i < 6 then 2 else if i < 8 then 4 else if i < 10 then 8
                                               else if i < 12 then 16 else if i < 14 then 32 else 64
  {
  }

  lemma FarTable(i: nat)
    requires 16 <= i < 29
    ensures DIST_BASE[i + 1] == DIST_BASE[i] + if i < 18 then 128 else if i < 20 then 256 else if i < 22 then 512 else if i < 24 then 1024
                                               else if i < 26 then 2048 else if i < 28 then 4096 else 8192
  {
  }

  // ----- The fixed codes (section 3.2.6) ------------------------------------------------------

  lemma {:induction false} CountBoth(a: seq<nat>, b: seq<nat>, k: nat)
    ensures Count(a + b, k) == Count(a, k) + Count(b, k)
  {
    if b == [] {
      assert a + b == a;
    } else {
      assert (a + b)[..|a + b| - 1] == a + b[..|b| - 1];
      CountBoth(a, b[..|b| - 1], k);
    }
  }

  lemma {:induction false} CountTimes(v: nat, n: nat, k: nat)
    ensures Count(CodeLengths.Times(v, n), k) == if k == v then n else 0
  {
    if n > 0 {
      CountTimes(v, n - 1, k);
      assert CodeLengths.Times(v, n)[..n - 1] == CodeLengths.Times(v, n - 1);
    }
  }

  // How many of the first i symbols have length k.
  lemma FixedCount(i: nat, k: nat)
    requires i <= 288 && |FixedLit()| == 288
    ensures k == 7 ==> Count(FixedLit()[..i], k) == if i < 256 then 0 else if i < 280 then i - 256 else 24
    ensures k == 8 ==> Count(FixedLit()[..i], k) == if i < 144 then i else if i < 280 then 144 else i - 136
    ensures k == 9 ==> Count(FixedLit()[..i], k) == if i < 144 then 0 else if i < 256 then i - 144 else 112
    ensures k < 7 ==> Count(FixedLit()[..i], k) == 0
  {
    var w, x, y, z := if i < 144 then i else 144, if i < 144 then 0 else if i < 256 then i - 144 else 112,
      if i < 256 then 0 else if i < 280 then i - 256 else 24, if i < 280 then 0 else i - 280;
    var a, b, c, d := CodeLengths.Times(8, w), CodeLengths.Times(9, x), CodeLengths.Times(7, y), CodeLengths.Times(8, z);
    FixedPart(i, w, x, y, z);
    CountBoth(a + b + c, d, k);
    CountBoth(a + b, c, k);
    CountBoth(a, b, k);
    CountTimes(8, w, k);
    CountTimes(9, x, k);
    CountTimes(7, y, k);
    CountTimes(8, z, k);
  }

  lemma FixedPart(i: nat, w: nat, x: nat, y: nat, z: nat)
    requires i <= 288 && w <= 144 && x <= 112 && y <= 24 && z <= 8 && i == w + x + y + z
    requires (x > 0 ==> w == 144) && (y > 0 ==> x == 112 && w == 144) && (z > 0 ==> y == 24 && x == 112 && w == 144)
    ensures FixedLit()[..i] == CodeLengths.Times(8, w) + CodeLengths.Times(9, x) + CodeLengths.Times(7, y) + CodeLengths.Times(8, z)
  {
    hide CodeLengths.Times;
    var a, b, c, d := CodeLengths.Times(8, 144), CodeLengths.Times(9, 112), CodeLengths.Times(7, 24), CodeLengths.Times(8, 8);
    assert FixedLit() == a + b + c + d && |a| == 144 && |b| == 112 && |c| == 24 && |d| == 8;
  }

  lemma {:induction false} NoShorter(cs: seq<nat>, k: nat)
    requires forall j: nat :: 1 <= j < k ==> Count(cs, j) == 0
    ensures FirstCode(cs, k) == 0
  {
    hide Count;
    if k > 1 {
      NoShorter(cs, k - 1);
    }
  }

  lemma FixedFirst()
    ensures FirstCode(FixedLit(), 7) == 0 && FirstCode(FixedLit(), 8) == 48 && FirstCode(FixedLit(), 9) == 400
  {
    var f := FixedLit();
    assert f[..288] == f;
    hide Count, FixedLit;
    forall k: nat | 1 <= k <= 9 ensures Count(f, k) == if k == 7 then 24 else if k == 8 then 152 else if k == 9 then 112 else 0 {
      FixedCount(288, k);
    }
    NoShorter(f, 7);
    assert FirstCode(f, 8) == 2 * (FirstCode(f, 7) + Count(f, 7));
  }

  // The table of section 3.2.6: literals and lengths by their code words.
  lemma FixedWords(i: nat)
    requires i < 288
    ensures |FixedLit()| == 288
    ensures Word(FixedLit(), i) ==
            if i <= 143 then Msb(0x30 + i, 8)
            else if i <= 255 then Msb(0x190 + (i - 144), 9)
            else if i <= 279 then Msb(i - 256, 7)
            else Msb(0xC0 + (i - 280), 8)
  {
    hide FixedLit, Count, FirstCode, Word, Msb;
    FixedFirst();
    FixedSize(i);
    FixedCount(i, FixedLit()[i]);
    WordParts(FixedLit(), i);
  }

  lemma WordParts(cs: seq<nat>, i: nat)
    requires i < |cs|
    ensures Word(cs, i) == Msb(FirstCode(cs, cs[i]) + Count(cs[..i], cs[i]), cs[i])
  {
  }

  lemma FixedSize(i: nat)
    requires i < 288
    ensures |FixedLit()| == 288 && FixedLit()[i] == if i <= 143 then 8 else if i <= 255 then 9 else if i <= 279 then 7 else 8
  {
    hide CodeLengths.Times;
  }

  lemma FixedDistances(i: nat)
    requires i < 32
    ensures |FixedDist()| == 32 && Word(FixedDist(), i) == Msb(i, 5)
  {
    var f := CodeLengths.Times(5, 32);
    forall k: nat | k <= 5 ensures Count(f, k) == if k == 5 then 32 else 0 {
      CountTimes(5, 32, k);
    }
    assert f[..i] == CodeLengths.Times(5, i);
    CountTimes(5, i, 5);
    hide Count, CodeLengths.Times;
    NoShorter(f, 5);
  }

  // ----- Runs of code lengths (section 3.2.7) --------------------------------------------------

  // out, and behind it n times x.
  predicate Grown(e: CodeLengths.Expanded, out: seq<nat>, x: nat, n: nat) {
    e.Lengths? && |e.s| == |out| + n && e.s[..|out|] == out && forall k :: |out| <= k < |e.s| ==> e.s[k] == x
  }

  // 16 and two bits repeat the last length three to six times; 17 and three bits are three to
  // ten zeros, 18 and seven bits eleven to 138.
  lemma RunsAre(out: seq<nat>, n: nat)
    ensures ExtraOf(16) == 2 && ExtraOf(17) == 3 && ExtraOf(18) == 7
    ensures if out == [] then CodeLengths.Expand([16, n], out).Bad?
            else Grown(CodeLengths.Expand([16, n], out), out, out[|out| - 1], n + 3)
    ensures Grown(CodeLengths.Expand([17, n], out), out, 0, n + 3)
    ensures Grown(CodeLengths.Expand([18, n], out), out, 0, n + 11)
  {
    hide CodeLengths.Expand, Grown;
    if out != [] {
      OneRun(16, n, out);
    } else {
      NothingRepeated(n);
    }
    OneRun(17, n, out);
    OneRun(18, n, out);
  }

  lemma NothingRepeated(n: nat)
    ensures CodeLengths.Expand([16, n], []).Bad?
  {
  }

  lemma OneRun(code: nat, n: nat, out: seq<nat>)
    requires 16 <= code <= 18 && (code == 16 ==> out != [])
    ensures Grown(CodeLengths.Expand([code, n], out), out, if code == 16 then out[|out| - 1] else 0, n + if code == 18 then 11 else 3)
  {
    hide CodeLengths.Expand;
    RunExpanded(code, n, out);
  }

  lemma RunExpanded(code: nat, n: nat, out: seq<nat>)
    requires 16 <= code <= 18 && (code == 16 ==> out != [])
    ensures var t := CodeLengths.Times(if code == 16 then out[|out| - 1] else 0, n + if code == 18 then 11 else 3);
            CodeLengths.Expand([code, n], out) == CodeLengths.Lengths(out + t)
  {
    hide CodeLengths.Times;
    var p := [code, n];
    assert p[2..] == [] && |p| == 2 && p[0] == code && p[1] == n;
  }

  // The header begins with the numbers of lengths.
  lemma HeaderCounts(h: Header)
    requires GoodHeader(h)
    ensures var s := HeaderBits(h);
            |s| >= 14 && Num(s[..5]) == |h.lit| - 257 && Num(s[5..10]) == |h.dist| - 1 && Num(s[10..14]) == h.numBitLengths - 4
  {
    hide LengthBits, PackedBits, Lsb, Num, Writable, Acceptable;
    var a, b, c := Lsb(|h.lit| - 257, 5), Lsb(|h.dist| - 1, 5), Lsb(h.numBitLengths - 4, 4);
    var s := HeaderBits(h);
    assert s[..5] == a && s[5..10] == b && s[10..14] == c;
    Pow2Values();
    SmallNum(|h.lit| - 257, 5);
    SmallNum(|h.dist| - 1, 5);
    SmallNum(h.numBitLengths - 4, 4);
  }

  lemma SmallNum(x: nat, n: nat)
    requires x < Pow2(n)
    ensures Num(Lsb(x, n)) == x
  {
    NumOfLsb(x, n);
    LowIsMod(x, n, Pow2(n));
  }

  // ----- Whole streams ------------------------------------------------------------------------

  lemma OneBlock(s: Sent)
    requires FormFits(s) && s.last
    ensures AllFit([s]) && StreamBits([s]) == [true] + BodyBits(s) && BlocksOf([s]) == [s.block] && OneLast([s])
    ensures !s.form.Raw? ==> GoodStream([s])
    ensures s.form.Raw? && |s.form.fill| == 5 ==> GoodStream([s])
  {
    hide FormFits, BodyBits;
    assert [s][..0] == [] && [s][..1] == [s];
    assert StreamBits([]) == [];
    assert [] + ([true] + BodyBits(s)) == [true] + BodyBits(s);
  }

  // A stream of one block is read as what the block means.
  lemma OneBlockRead(s: Sent, src: seq<byte>, text: seq<byte>, more: seq<bool>, room: nat)
    requires FormFits(s) && s.last && (s.form.Raw? ==> |s.form.fill| == 5) && |BitsOf(src)| % 8 == 0
    requires BitsOf(src) == [true] + BodyBits(s) + more && ExpandBlocks([s.block]) == Text(text) && |text| <= room
    ensures RawMeaning(src, room) == Got(text, more, true)
  {
    OneBlock(s);
    hide ExpandBlocks, StreamBits, BitsOf, GoodStream, FormFits, BodyBits, AllFit, ReadParts, StreamMeans, OneLast;
    IsMeant([s], BitsOf(src), text, more);
    StreamMeaning(BitsOf(src), room, text, more);
  }

  lemma {:induction false} NumBoth(a: seq<bool>, b: seq<bool>)
    ensures Num(a + b) == Num(a) + Pow2(|a|) * Num(b)
  {
    if a == [] {
      assert a + b == b;
    } else {
      NumBoth(a[1..], b);
      assert (a + b)[1..] == a[1..] + b && (a + b)[0] == a[0];
      hide Pow2;
      PowerStep(|a|, Num(b));
    }
  }

  lemma NumAfter(a: seq<bool>, b: seq<bool>, p: nat)
    requires p == Pow2(|a|)
    ensures Num(a + b) == Num(a) + p * Num(b)
  {
    NumBoth(a, b);
  }

  lemma PowerStep(n: nat, x: nat)
    requires n > 0
    ensures Pow2(n) * x == 2 * (Pow2(n - 1) * x)
  {
    assert Pow2(n) == 2 * Pow2(n - 1);
  }

  // Bits are the same if there are as many and they make the same number.
  lemma SameBits(s: seq<bool>, t: seq<bool>)
    requires |s| == |t| && Num(s) == Num(t)
    ensures s == t
  {
    LsbOfNum(s);
    LsbOfNum(t);
  }

  // The lowest bit of the first byte comes first.
  lemma {:induction false} BytesNumber(s: seq<byte>)
    ensures Num(BitsOf(s)) == Little(s) && |BitsOf(s)| == 8 * |s|
  {
    if s != [] {
      BytesNumber(s[1..]);
      NumBoth(Lsb(s[0], 8), BitsOf(s[1..]));
      Pow2Values();
      SmallNum(s[0], 8);
    }
  }

  function Little(s: seq<byte>): nat {
    if s == [] then 0 else s[0] as int + 256 * Little(s[1..])
  }

  lemma WordNumbers()
    ensures Num(Msb(0x30 + 97, 8)) == 0x89 && Num(Msb(262 - 256, 7)) == 0x30 && Num(Msb(0, 7)) == 0 && Num(Msb(0, 5)) == 0
  {
    assert Msb(145, 8) == [true, false, false, true, false, false, false, true];
    assert Msb(6, 7) == [false, false, false, false, true, true, false];
    assert Msb(0, 7) == [false, false, false, false, false, false, false];
    assert Msb(0, 5) == [false, false, false, false, false];
    NumOfEight(true, false, false, true, false, false, false, true);
    NumOfSeven(false, false, false, false, true, true, false);
    NumOfSeven(false, false, false, false, false, false, false);
    NumOfFive(false, false, false, false, false);
  }

  function Bit(b: bool): nat {
    if b then 1 else 0
  }

  lemma NumOfFive(a: bool, b: bool, c: bool, d: bool, e: bool)
    ensures Num([a, b, c, d, e]) == Bit(a) + 2 * Bit(b) + 4 * Bit(c) + 8 * Bit(d) + 16 * Bit(e)
  {
    assert [a, b, c, d, e][1..] == [b, c, d, e] && [b, c, d, e][1..] == [c, d, e] && [c, d, e][1..] == [d, e] && [d, e][1..] == [e];
    assert Num([d, e]) == Bit(d) + 2 * Num([e]) && Num([e]) == Bit(e);
    assert Num([c, d, e]) == Bit(c) + 2 * Num([d, e]);
    assert Num([b, c, d, e]) == Bit(b) + 2 * Num([c, d, e]);
  }

  lemma NumOfSeven(x: bool, y: bool, a: bool, b: bool, c: bool, d: bool, e: bool)
    ensures Num([x, y, a, b, c, d, e]) == Bit(x) + 2 * Bit(y) + 4 * (Bit(a) + 2 * Bit(b) + 4 * Bit(c) + 8 * Bit(d) + 16 * Bit(e))
  {
    NumOfFive(a, b, c, d, e);
    assert [x, y, a, b, c, d, e][1..] == [y, a, b, c, d, e] && [y, a, b, c, d, e][1..] == [a, b, c, d, e];
    assert Num([y, a, b, c, d, e]) == Bit(y) + 2 * Num([a, b, c, d, e]);
  }

  lemma NumOfEight(w: bool, x: bool, y: bool, a: bool, b: bool, c: bool, d: bool, e: bool)
    ensures Num([w, x, y, a, b, c, d, e]) == Bit(w) + 2 * (Bit(x) + 2 * Bit(y) + 4 * (Bit(a) + 2 * Bit(b) + 4 * Bit(c) + 8 * Bit(d) + 16 * Bit(e)))
  {
    NumOfSeven(x, y, a, b, c, d, e);
    assert [w, x, y, a, b, c, d, e][1..] == [x, y, a, b, c, d, e];
  }

  const LETTERS: seq<Token> := [Literal(97), Literal(97), Match(8, 1)]

  lemma LettersSayable()
    ensures AllSayable(LETTERS, FixedLit(), FixedDist()) && FormFits(Sent(Coded(LETTERS), Fixed, true))
  {
    hide FixedLit, FixedDist;
    FixedSayable(LETTERS);
  }

  lemma LettersMean()
    ensures ExpandBlocks([Coded(LETTERS)]) == Text(seq(10, _ => 97))
  {
    var ts := LETTERS;
    assert [Coded(ts)][..0] == [] && ExpandBlocks([]) == Text([]);
    assert ts[..0] == [] && ts[..1] == ts[..2][..1] && ts[..2] == ts[..3][..2] && ts[..3] == ts;
    assert Expand(Text([]), ts[..1]) == Text([97]);
    assert Expand(Text([]), ts[..2]) == Text([97, 97]);
    hide CopyBack;
    CopyOne([97, 97], 8, 97);
    assert Expand(Text([]), ts) == Text([97, 97] + seq(8, _ => 97));
    assert [97, 97] + seq(8, _ => 97) == seq(10, _ => 97);
  }

  lemma {:induction false} CopyOne(s: seq<byte>, n: nat, x: byte)
    requires s != [] && s[|s| - 1] == x
    ensures CopyBack(s, n, 1) == s + seq(n, _ => x)
    decreases n
  {
    if n > 0 {
      CopyOne(s + [x], n - 1, x);
      assert [x] + seq(n - 1, _ => x) == seq(n, _ => x);
      assert s + [x] + seq(n - 1, _ => x) == s + ([x] + seq(n - 1, _ => x));
    } else {
      assert s + seq(0, _ => x) == s;
    }
  }

  lemma LettersParts(lit: seq<nat>, dist: seq<nat>)
    requires AllSayable(LETTERS, lit, dist)
    ensures 262 < |lit| && 0 < |dist| && LETTERS == [Literal(97), Literal(97), Match(8, 1)]
    ensures BlockBits(LETTERS, 0, lit, dist) == Word(lit, 97) + (Word(lit, 97) + (Word(lit, 262) + (Word(dist, 0) + Word(lit, 256))))
  {
    hide Word, BlockBits, TokenBits, Sayable, AllSayable;
    ThreeTokens(LETTERS, lit, dist);
    MatchBits(lit, dist);
    LiteralBits(lit, dist);
    assert (Word(lit, 262) + Word(dist, 0)) + Word(lit, 256) == Word(lit, 262) + (Word(dist, 0) + Word(lit, 256));
  }

  lemma ThreeTokens(ts: seq<Token>, lit: seq<nat>, dist: seq<nat>)
    requires |ts| == 3 && AllSayable(ts, lit, dist)
    ensures Sayable(ts[0], lit, dist) && Sayable(ts[1], lit, dist) && Sayable(ts[2], lit, dist) && 256 < |lit|
    ensures BlockBits(ts, 0, lit, dist) ==
            TokenBits(ts[0], lit, dist) + (TokenBits(ts[1], lit, dist) + (TokenBits(ts[2], lit, dist) + Word(lit, 256)))
  {
    hide TokenBits, Word, Sayable;
    assert BlockBits(ts, 3, lit, dist) == Word(lit, 256);
    assert BlockBits(ts, 2, lit, dist) == TokenBits(ts[2], lit, dist) + BlockBits(ts, 3, lit, dist);
    assert BlockBits(ts, 1, lit, dist) == TokenBits(ts[1], lit, dist) + BlockBits(ts, 2, lit, dist);
  }

  lemma MatchBits(lit: seq<nat>, dist: seq<nat>)
    requires Sayable(Match(8, 1), lit, dist)
    ensures 262 < |lit| && 0 < |dist| && TokenBits(Match(8, 1), lit, dist) == Word(lit, 262) + Word(dist, 0)
  {
    hide Word;
    assert Lsb(5, 0) == [] && Lsb(0, 0) == [];
  }

  lemma LiteralBits(lit: seq<nat>, dist: seq<nat>)
    requires Sayable(Literal(97), lit, dist)
    ensures 97 < |lit| && TokenBits(Literal(97), lit, dist) == Word(lit, 97)
  {
    hide Word;
  }

  lemma LettersBits()
    ensures AllSayable(LETTERS, FixedLit(), FixedDist())
    ensures var s := BlockBits(LETTERS, 0, FixedLit(), FixedDist());
            |s| == 35 && Num(s) == 0x89 + 256 * (0x89 + 256 * 0x30)
  {
    LettersSayable();
    Pow2Values();
    var lit, dist := FixedLit(), FixedDist();
    hide FixedLit, FixedDist, Word, Msb, Num, Pow2, BlockBits, AllSayable, LETTERS;
    LettersParts(lit, dist);
    FixedWords(97);
    FixedWords(262);
    FixedWords(256);
    FixedDistances(0);
    WordNumbers();
    var a, m, e, d := Word(lit, 97), Word(lit, 262), Word(lit, 256), Word(dist, 0);
    NumAfter(a, a + (m + (d + e)), 256);
    NumAfter(a, m + (d + e), 256);
    NumAfter(m, d + e, 128);
    NumAfter(d, e, 32);
  }

  // The bytes 4b 4c 84 01 00 are one block with the fixed codes: the letter a twice, and eight
  // bytes from one byte back.
  lemma FixedStream(room: nat)
    requires room >= 10
    ensures RawMeaning([0x4b, 0x4c, 0x84, 0x01, 0x00], room) == Got(seq(10, _ => 97), [false, false], true)
  {
    var s := Sent(Coded(LETTERS), Fixed, true);
    var src: seq<byte> := [0x4b, 0x4c, 0x84, 0x01, 0x00];
    hide BodyBits, FormFits, LETTERS, ExpandBlocks, BitsOf;
    LettersMean();
    FixedBits(s, src);
    OneBlockRead(s, src, seq(10, _ => 97), [false, false], room);
  }

  lemma FixedBits(s: Sent, src: seq<byte>)
    requires src == [0x4b, 0x4c, 0x84, 0x01, 0x00] && s == Sent(Coded(LETTERS), Fixed, true)
    ensures FormFits(s) && BitsOf(src) == [true] + BodyBits(s) + [false, false] && |BitsOf(src)| == 40
  {
    LettersSayable();
    LettersBits();
    hide LETTERS, AllSayable, FixedLit, FixedDist;
    var b, t := BlockBits(LETTERS, 0, FixedLit(), FixedDist()), Lsb(1, 2);
    hide BlockBits, BitsOf, Lsb;
    Pow2Values();
    SmallNum(1, 2);
    BytesNumber(src);
    assert Little(src) == 0x01844c4b by { LittleFive(src); }
    var v := [true] + (t + b) + [false, false];
    hide Num, Pow2, Little;
    assert v == [true] + (t + (b + [false, false]));
    NumAfter([true], t + (b + [false, false]), 2);
    NumAfter(t, b + [false, false], 4);
    NumBoth(b, [false, false]);
    FewBits();
    NoPower(Pow2(35));
    SameBits(BitsOf(src), v);
  }

  lemma NoPower(p: nat)
    ensures p * 0 == 0
  {
  }

  lemma FewBits()
    ensures Num([true]) == 1 && Num([false, false]) == 0
  {
    assert [false, false][1..] == [false];
  }

  lemma LittleFive(s: seq<byte>)
    requires |s| == 5
    ensures Little(s) == s[0] as int + 256 * (s[1] as int + 256 * (s[2] as int + 256 * (s[3] as int + 256 * (s[4] as int))))
  {
    assert Little(s[4..]) == s[4] by { assert s[4..][1..] == []; }
    assert Little(s[3..]) == s[3] + 256 * Little(s[4..]) by { assert s[3..][1..] == s[4..]; }
    assert Little(s[2..]) == s[2] + 256 * Little(s[3..]) by { assert s[2..][1..] == s[3..]; }
    assert Little(s[1..]) == s[1] + 256 * Little(s[2..]) by { assert s[1..][1..] == s[2..]; }
  }

  // The bytes 01 01 00 fe ff 61 are one stored block of the letter a.
  lemma StoredStream(room: nat)
    requires room >= 1
    ensures RawMeaning([0x01, 0x01, 0x00, 0xfe, 0xff, 0x61], room) == Got([97], [], true)
  {
    var fill := [false, false, false, false, false];
    var s := Sent(Stored([97]), Raw(fill), true);
    var src: seq<byte> := [0x01, 0x01, 0x00, 0xfe, 0xff, 0x61];
    hide BodyBits, ExpandBlocks, BitsOf;
    StoredMeans();
    RawBits(s, src);
    assert [true] + BodyBits(s) + [] == BitsOf(src);
    OneBlockRead(s, src, [97], [], room);
  }

  lemma StoredMeans()
    ensures ExpandBlocks([Stored([97])]) == Text([97])
  {
    assert [Stored([97])][..0] == [] && ExpandBlocks([]) == Text([]);
  }

  lemma RawBits(s: Sent, src: seq<byte>)
    requires src == [0x01, 0x01, 0x00, 0xfe, 0xff, 0x61] && s == Sent(Stored([97]), Raw([false, false, false, false, false]), true)
    ensures FormFits(s) && BitsOf(src) == [true] + BodyBits(s) && |BitsOf(src)| == 48
  {
    var fill := [false, false, false, false, false];
    var x, y, z, w := Lsb(0, 2), Lsb(1, 16), Lsb(0xFFFE, 16), BitsOf([97]);
    RawParts(s);
    RawNumbers();
    BytesNumber(src);
    BytesNumber([97]);
    LittleSix(src);
    hide Lsb, BitsOf, Num, Pow2, Little, BodyBits, FormFits;
    NumAfter([true], x + (fill + (y + (z + w))), 2);
    NumAfter(x, fill + (y + (z + w)), 4);
    NumAfter(fill, y + (z + w), 32);
    NumAfter(y, z + w, 0x10000);
    NumAfter(z, w, 0x10000);
    var v := [true] + (x + (fill + (y + (z + w))));
    SameBits(BitsOf(src), v);
  }

  lemma RawParts(s: Sent)
    requires s == Sent(Stored([97]), Raw([false, false, false, false, false]), true)
    ensures FormFits(s)
    ensures BodyBits(s) == Lsb(0, 2) + ([false, false, false, false, false] + (Lsb(1, 16) + (Lsb(0xFFFE, 16) + BitsOf([97]))))
  {
    hide Lsb, BitsOf;
  }

  lemma RawNumbers()
    ensures Num([true]) == 1 && Num(Lsb(0, 2)) == 0 && Num([false, false, false, false, false]) == 0
    ensures Num(Lsb(1, 16)) == 1 && Num(Lsb(0xFFFE, 16)) == 0xFFFE && Little([97]) == 97
    ensures Pow2(1) == 2 && Pow2(2) == 4 && Pow2(5) == 32 && Pow2(16) == 0x10000
  {
    assert [97 as byte][1..] == [];
    NumOfFive(false, false, false, false, false);
    FewBits();
    Pow2Values();
    SixteenBits(1);
    SmallNum(0, 2);
    SmallNum(1, 16);
    SmallNum(0xFFFE, 16);
    Pow2Sum(8, 8);
  }

  lemma LittleSix(s: seq<byte>)
    requires s == [0x01, 0x01, 0x00, 0xfe, 0xff, 0x61]
    ensures Little(s) == 0x61fffe000101
  {
    LittleFive(s[1..]);
  }

  // ----- Refused and cut streams ------------------------------------------------------------------

  lemma FirstByte(src: seq<byte>)
    requires src != []
    ensures NextNumber(BitsOf(src), 3) == Got(src[0] as nat % 8, BitsOf(src)[3..], true)
    ensures BitsOf(src)[3..][|BitsOf(src)[3..]| % 8..] == BitsOf(src[1..])
  {
    var a, b := Lsb(src[0], 8), BitsOf(src[1..]);
    BytesNumber(src[1..]);
    assert BitsOf(src) == a + b;
    SplitThree(a, b, |src| - 1);
    LsbPrefix(src[0], 3, 8);
    NumOfLsb(src[0], 3);
    Pow2Values();
    LowIsMod(src[0], 3, 8);
    hide Lsb, BitsOf, Num, Low, Pow2;
  }

  lemma SplitThree(a: seq<bool>, b: seq<bool>, k: nat)
    requires |a| == 8 && |b| == 8 * k
    ensures (a + b)[..3] == a[..3] && |(a + b)[3..]| % 8 == 5 && (a + b)[3..][5..] == b
  {
  }

  // Nothing is too little; the fourth type of block is none.
  lemma NoBlock(src: seq<byte>, room: nat)
    ensures src == [] ==> RawMeaning(src, room) == Starved
    ensures src != [] && src[0] as nat % 8 >= 6 ==> RawMeaning(src, room) == Corrupt
  {
    hide ReadParts, NextNumber;
    PartStep(BitsOf(src), [], room, true);
    if src != [] {
      FirstByte(src);
    } else {
      NothingRead();
    }
  }

  lemma NothingRead()
    ensures NextNumber(BitsOf([]), 3) == Starved
  {
  }

  lemma OneByteRead(a: byte, more: seq<byte>)
    ensures NextNumber(BitsOf([a] + more), 8) == Got(a as nat, BitsOf(more), true)
  {
    var s, t := Lsb(a, 8), BitsOf(more);
    assert ([a] + more)[1..] == more;
    assert BitsOf([a] + more) == s + t;
    assert (s + t)[..8] == s && (s + t)[8..] == t;
    Pow2Values();
    SmallNum(a, 8);
  }

  lemma TwoBytes(a: byte, b: byte, more: seq<byte>)
    ensures NextShort(BitsOf([a, b] + more)) == Got(a as nat + 256 * b as nat, BitsOf(more), true)
  {
    assert [a, b] + more == [a] + ([b] + more);
    OneByteRead(a, [b] + more);
    OneByteRead(b, more);
    hide NextNumber, BitsOf;
  }

  lemma {:induction false} RawBytes(more: seq<byte>, s: seq<byte>, room: nat, n: nat)
    requires |s| <= room
    ensures var x, left := ReadRaw(BitsOf(more), s, room, n), room - |s|;
            (n <= left && n <= |more| ==> x == Got(s + more[..n], BitsOf(more[n..]), true)) &&
            (|more| < n && |more| < left ==> x == Starved) && (left < n && left <= |more| ==> x == Full)
    decreases n
  {
    if n == 0 {
      assert s + more[..0] == s && more[0..] == more;
    } else if |s| < room && more != [] {
      var rest := more[1..];
      assert [more[0]] + rest == more;
      OneByteRead(more[0], rest);
      hide NextNumber, BitsOf;
      RawBytes(rest, s + [more[0]], room, n - 1);
      hide ReadRaw;
      if n <= |more| {
        OneMoreByte(more, s, n);
      }
    }
  }

  lemma OneMoreByte(more: seq<byte>, s: seq<byte>, n: nat)
    requires 0 < n <= |more|
    ensures s + [more[0]] + more[1..][..n - 1] == s + more[..n] && more[1..][n - 1..] == more[n..]
  {
  }

  // A last block that is stored: a wrong complement is refused; bytes that have no room, or
  // that are not there, are the answer when they come up.
  lemma StoredAnswer(head: byte, a: byte, b: byte, c: byte, d: byte, more: seq<byte>, room: nat)
    requires head as nat % 8 == 1
    ensures var x := RawMeaning([head, a, b, c, d] + more, room);
            var n, m := a as nat + 256 * b as nat, c as nat + 256 * d as nat;
            (n + m != 0xFFFF ==> x == Corrupt) &&
            (n + m == 0xFFFF && n <= room && n <= |more| ==> x == Got(more[..n], BitsOf(more[n..]), true)) &&
            (n + m == 0xFFFF && |more| < n && |more| < room ==> x == Starved) &&
            (n + m == 0xFFFF && room < n && room <= |more| ==> x == Full)
  {
    var src := [head, a, b, c, d] + more;
    assert src[1..] == [a, b] + ([c, d] + more);
    hide ReadParts, NextNumber, NextShort, BitsOf, ReadStored;
    PartStep(BitsOf(src), [], room, true);
    FirstByte(src);
    StoredBody(BitsOf(src)[3..], a, b, c, d, more, room);
  }

  lemma StoredBody(rest: seq<bool>, a: byte, b: byte, c: byte, d: byte, more: seq<byte>, room: nat)
    requires rest[|rest| % 8..] == BitsOf([a, b] + ([c, d] + more))
    ensures var x := ReadStored(rest, [], room);
            var n, m := a as nat + 256 * b as nat, c as nat + 256 * d as nat;
            (n + m != 0xFFFF ==> x == Corrupt) &&
            (n + m == 0xFFFF && n <= room && n <= |more| ==> x == Got(more[..n], BitsOf(more[n..]), true)) &&
            (n + m == 0xFFFF && |more| < n && |more| < room ==> x == Starved) &&
            (n + m == 0xFFFF && room < n && room <= |more| ==> x == Full)
  {
    var n := a as nat + 256 * b as nat;
    hide NextShort, BitsOf, ReadRaw;
    TwoBytes(a, b, [c, d] + more);
    TwoBytes(c, d, more);
    RawBytes(more, [], room, n);
    if n <= |more| {
      assert [] + more[..n] == more[..n];
    }
  }

  // ----- The frame (RFC 1950) ------------------------------------------------------------------

  // A header of window, method, level, dictionary bit and check is good exactly with deflate as the
  // method, no preset dictionary and a multiple of 31.
  lemma Headers(window: nat, m: nat, level: nat, preset: nat, check: nat)
    requires window < 16 && m < 16 && level < 4 && preset < 2 && check < 32
    ensures Zlib.GoodHeader(16 * window + m, 64 * level + 32 * preset + check) <==>
            m == 8 && preset == 0 && (256 * (16 * window + m) + (64 * level + 32 * preset + check)) % 31 == 0
    ensures Zlib.GoodHeader(0x78, 0x01) && Zlib.GoodHeader(0x78, 0x9c) && Zlib.GoodHeader(0x78, 0xda)
  {
    assert (64 * level + 32 * preset + check) / 32 == 2 * level + preset;
  }

  // Checksums of "a" and "abc".
  lemma Checksums()
    ensures Adler.Checksum(1, []) == 1 && Adler.Checksum(1, [97]) == 0x00620062 && Adler.Checksum(1, [97, 98, 99]) == 0x024d0127
  {
    var s: seq<byte> := [97, 98, 99];
    assert [97 as byte][..0] == [] && s[..2][..1] == [97] && s[..2] == [97, 98];
    assert Adler.Over(Adler.Sums(1, 0), [97]) == Adler.Sums(98, 98);
    assert [97 as byte, 98][..1] == [97];
    assert Adler.Over(Adler.Sums(1, 0), [97, 98]) == Adler.Sums(196, 294);
    assert Adler.Over(Adler.Sums(1, 0), s) == Adler.Sums(295, 589);
  }

  // Both sums are reduced modulo the largest prime below 2^16, and the second is the upper half.
  lemma ChecksumWraps(x: nat, y: nat)
    requires x < 65521 && y < 65521
    ensures Adler.Checksum(y * 65536 + x, [0]) == (if x + y < 65521 then x + y else x + y - 65521) * 65536 + x
  {
    assert [0 as byte][..0] == [];
    var s := Adler.Sums(x, y);
    Halves(x, y);
    assert Adler.Over(s, [0]) == Adler.Step(s, 0);
    hide *;
    Reduced(x);
    Reduced(x + y);
  }

  lemma Halves(x: nat, y: nat)
    requires x < 65536
    ensures (y * 65536 + x) / 65536 == y && (y * 65536 + x) % 65536 == x
  {
  }

  lemma Reduced(x: nat)
    requires x < 2 * 65521
    ensures x % 65521 == if x < 65521 then x else x - 65521
  {
  }
}
