// Compressed blocks with their own code lengths (section 3.2.7 of RFC 1951), and how the
// compressor writes them.

module DeflateBlock {
  import opened Bits
  import opened Ints
  import opened Bitstream
  import opened HuffmanCode
  import opened LzSpec
  import opened DeflateTokens
  import HuffmanBuild
  import CodeLengths
  import LzBuffer

  const LIT_SYMBOLS: nat := 288
  const DIST_SYMBOLS: nat := 32
  const LENGTH_SYMBOLS: nat := 19

  // ----- Trailing zeros -----

  // Lengths beyond the last word do not change the words.
  ghost predicate TrimmedTo(cs: seq<nat>, n: nat) {
    n <= |cs| && forall k :: n <= k < |cs| ==> cs[k] == 0
  }

  lemma {:induction false} TrimmedCount(cs: seq<nat>, n: nat, k: nat)
    requires TrimmedTo(cs, n) && k >= 1
    ensures Count(cs[..n], k) == Count(cs, k)
    decreases |cs|
  {
    if n < |cs| {
      var t := cs[..|cs| - 1];
      TrimmedCount(t, n, k);
      assert t[..n] == cs[..n];
    } else {
      assert cs[..n] == cs;
    }
  }

  lemma {:induction false} TrimmedFirst(cs: seq<nat>, n: nat, k: nat)
    requires TrimmedTo(cs, n)
    ensures FirstCode(cs[..n], k) == FirstCode(cs, k)
  {
    if k > 1 {
      TrimmedFirst(cs, n, k - 1);
      TrimmedCount(cs, n, k - 1);
    }
  }

  lemma {:induction false} TrimmedBelow(cs: seq<nat>, n: nat, k: nat)
    requires TrimmedTo(cs, n)
    ensures Below(cs[..n], k) == Below(cs, k)
    decreases |cs|
  {
    if n < |cs| {
      var t := cs[..|cs| - 1];
      TrimmedBelow(t, n, k);
      assert t[..n] == cs[..n];
    } else {
      assert cs[..n] == cs;
    }
  }

  lemma TrimmedWord(cs: seq<nat>, n: nat, i: nat)
    requires TrimmedTo(cs, n) && Used(cs, i)
    ensures Used(cs[..n], i) && Word(cs[..n], i) == Word(cs, i)
  {
    TrimmedFirst(cs, n, cs[i]);
    assert cs[..n][..i] == cs[..i];
  }

  lemma TrimmedAcceptable(cs: seq<nat>, n: nat)
    requires TrimmedTo(cs, n) && Acceptable(cs)
    ensures Acceptable(cs[..n])
  {
    TrimmedBelow(cs, n, MAX_LENGTH + 1);
    if Single(cs) {
      forall i: nat, j: nat | Used(cs[..n], i) && Used(cs[..n], j)
        ensures i == j
      {
        assert Used(cs, i) && Used(cs, j);
      }
    }
  }

  // The tokens have the same bits in the trimmed codes.
  lemma TrimmedToken(t: Token, lit: seq<nat>, n: nat, dist: seq<nat>, m: nat)
    requires TrimmedTo(lit, n) && TrimmedTo(dist, m) && Sayable(t, lit, dist)
    ensures Sayable(t, lit[..n], dist[..m]) && TokenBits(t, lit[..n], dist[..m]) == TokenBits(t, lit, dist)
  {
    hide Word;
    match t
    case Literal(b) => TrimmedWord(lit, n, b);
    case Match(len, d) =>
      TrimmedWord(lit, n, LenSym(len - 3));
      TrimmedWord(dist, m, DistSym(d - 1));
  }

  lemma TrimmedSayable(ts: seq<Token>, lit: seq<nat>, n: nat, dist: seq<nat>, m: nat)
    requires TrimmedTo(lit, n) && TrimmedTo(dist, m) && AllSayable(ts, lit, dist)
    ensures AllSayable(ts, lit[..n], dist[..m])
  {
    hide TokenBits;
    TrimmedWord(lit, n, END_OF_BLOCK);
    forall k | 0 <= k < |ts|
      ensures Sayable(ts[k], lit[..n], dist[..m])
    {
      TrimmedToken(ts[k], lit, n, dist, m);
    }
  }

  lemma {:induction false} TrimmedBlock(ts: seq<Token>, k: nat, lit: seq<nat>, n: nat, dist: seq<nat>, m: nat)
    requires TrimmedTo(lit, n) && TrimmedTo(dist, m) && AllSayable(ts, lit, dist) && AllSayable(ts, lit[..n], dist[..m]) && k <= |ts|
    ensures BlockBits(ts, k, lit[..n], dist[..m]) == BlockBits(ts, k, lit, dist)
    decreases |ts| - k
  {
    hide Word, TokenBits;
    if k < |ts| {
      TrimmedBlock(ts, k + 1, lit, n, dist, m);
      TrimmedToken(ts[k], lit, n, dist, m);
    } else {
      TrimmedWord(lit, n, END_OF_BLOCK);
    }
  }

  // ----- The header -----

  // The order of the format: the three repeats, zero, and then 8, 7, 9, 6, and so on to 15.
  function Ordered(k: nat): (s: nat)
    requires k < LENGTH_SYMBOLS
    ensures s < LENGTH_SYMBOLS
  {
    if k < 3 then 16 + k else if k == 3 then 0 else if k % 2 == 0 then 8 + (k - 4) / 2 else 7 - (k - 5) / 2
  }

  // s_tdefl_packed_code_size_syms_swizzle
  const SWIZZLE: seq<nat> := [16, 17, 18, 0, 8, 7, 9, 6, 10, 5, 11, 4, 12, 3, 13, 2, 14, 1, 15]

  lemma SwizzleIsOrder(k: nat)
    requires k < LENGTH_SYMBOLS
    ensures SWIZZLE[k] == Ordered(k)
  {
  }

  // What a header says: how many lengths, their packed form, and the lengths of the code
  // that the packed form is written in.
  datatype Header = Header(lit: seq<nat>, dist: seq<nat>, packed: seq<nat>, cs: seq<nat>, numBitLengths: nat)

  function ExtraOf(code: nat): nat
    requires 16 <= code <= 18
  {
    if code == 16 then 2 else if code == 17 then 3 else 7
  }

  // Every entry of the packed form has a word.
  predicate Writable(packed: seq<nat>, k: nat, cs: seq<nat>)
    decreases |packed| - k
  {
    k < |packed| ==> Used(cs, packed[k]) && packed[k] < LENGTH_SYMBOLS &&
                     if packed[k] < 16 then Writable(packed, k + 1, cs) else k + 1 < |packed| && Writable(packed, k + 2, cs)
  }

  function PackedBits(packed: seq<nat>, k: nat, cs: seq<nat>): seq<bool>
    requires k <= |packed| && Writable(packed, k, cs)
    decreases |packed| - k
  {
    if k == |packed| then []
    else if packed[k] < 16 then Word(cs, packed[k]) + PackedBits(packed, k + 1, cs)
    else Word(cs, packed[k]) + (Lsb(packed[k + 1], ExtraOf(packed[k])) + PackedBits(packed, k + 2, cs))
  }

  // The lengths of the length code, in the order in which the rarer ones come last.
  function LengthBits(cs: seq<nat>, i: nat, n: nat): seq<bool>
    requires |cs| == LENGTH_SYMBOLS && i <= n <= LENGTH_SYMBOLS
    decreases n - i
  {
    if i == n then [] else Lsb(cs[Ordered(i)], 3) + LengthBits(cs, i + 1, n)
  }

  // Where a symbol stands in that order.
  function Place(s: nat): (k: nat)
    requires s < LENGTH_SYMBOLS
    ensures k < LENGTH_SYMBOLS
  {
    if s >= 16 then s - 16 else if s == 0 then 3 else if s >= 8 then 4 + 2 * (s - 8) else 5 + 2 * (7 - s)
  }

  lemma PlaceOf(k: nat)
    requires k < LENGTH_SYMBOLS
    ensures Ordered(k) < LENGTH_SYMBOLS && Place(k) < LENGTH_SYMBOLS
    ensures Place(Ordered(k)) == k && Ordered(Place(k)) == k
  {
  }

  predicate OrderedZero(cs: seq<nat>, k: nat)
    requires |cs| == LENGTH_SYMBOLS && k < LENGTH_SYMBOLS
  {
    cs[Ordered(k)] == 0
  }

  ghost predicate GoodHeader(h: Header) {
    257 <= |h.lit| <= 288 && 1 <= |h.dist| <= 32 && Acceptable(h.lit) && Acceptable(h.dist) &&
    CodeLengths.Expand(h.packed, []) == CodeLengths.Lengths(h.lit + h.dist) && CodeLengths.Fits(h.packed) &&
    |h.cs| == LENGTH_SYMBOLS && Acceptable(h.cs) && (forall k :: 0 <= k < LENGTH_SYMBOLS ==> h.cs[k] <= 7) && Writable(h.packed, 0, h.cs) &&
    4 <= h.numBitLengths <= LENGTH_SYMBOLS && forall k: nat :: h.numBitLengths <= k < LENGTH_SYMBOLS ==> OrderedZero(h.cs, k)
  }

  // No length is sent that could be left out.
  predicate Shortest(h: Header) {
    (|h.lit| > 257 ==> h.lit[|h.lit| - 1] != 0) && (|h.dist| > 1 ==> h.dist[|h.dist| - 1] != 0) &&
    (4 < h.numBitLengths <= LENGTH_SYMBOLS == |h.cs| ==> !OrderedZero(h.cs, h.numBitLengths - 1))
  }

  ghost function HeaderBits(h: Header): seq<bool>
    requires GoodHeader(h)
  {
    Lsb(|h.lit| - 257, 5) + (Lsb(|h.dist| - 1, 5) + (Lsb(h.numBitLengths - 4, 4) + (LengthBits(h.cs, 0, h.numBitLengths) + PackedBits(h.packed, 0, h.cs))))
  }

  // ----- Counting -----

  lemma {:induction false} TotalUpdate(count: seq<u16>, i: nat, v: u16)
    requires i < |count|
    ensures HuffmanBuild.Total(count[i := v]) == HuffmanBuild.Total(count) - count[i] + v
  {
    var t := count[..|count| - 1];
    if i < |count| - 1 {
      TotalUpdate(t, i, v);
      assert count[i := v][..|count| - 1] == t[i := v];
    } else {
      assert count[i := v][..|count| - 1] == t;
    }
  }

  lemma {:induction false} TotalOfNone(count: seq<u16>)
    requires forall i :: 0 <= i < |count| ==> count[i] == 0
    ensures HuffmanBuild.Total(count) == 0
  {
    if count != [] {
      TotalOfNone(count[..|count| - 1]);
    }
  }

  lemma {:induction false} PartOfTotal(count: seq<u16>, i: nat)
    requires i < |count|
    ensures count[i] <= HuffmanBuild.Total(count)
  {
    if i < |count| - 1 {
      PartOfTotal(count[..|count| - 1], i);
    }
  }

  // One more occurrence of a symbol; what has been counted stays so.
  method Increment(count: array<u16>, i: nat)
    requires i < count.Length && HuffmanBuild.Total(count[..]) < 0xFFFF
    modifies count
    ensures HuffmanBuild.Total(count[..]) == HuffmanBuild.Total(old(count[..])) + 1
    ensures count[i] as int == old(count[i]) as int + 1 && forall j :: 0 <= j < count.Length && j != i ==> count[j] == old(count[j])
  {
    PartOfTotal(count[..], i);
    ghost var before := count[..];
    TotalUpdate(before, i, before[i] + 1);
    count[i] := count[i] + 1;
    assert count[..] == before[i := before[i] + 1];
  }

  predicate Counted(t: Token, count0: seq<u16>, count1: seq<u16>)
    requires |count0| == LIT_SYMBOLS && |count1| == DIST_SYMBOLS && TokenOk(t)
  {
    match t
    case Literal(b) => count0[b] > 0
    case Match(len, d) => count0[LenSym(len - 3)] > 0 && DistSym(d - 1) < 30 && count1[DistSym(d - 1)] > 0
  }

  ghost predicate NoLess(a: seq<u16>, b: seq<u16>) {
    |a| == |b| && forall j :: 0 <= j < |a| ==> a[j] <= b[j]
  }

  lemma CountedMore(t: Token, a0: seq<u16>, a1: seq<u16>, b0: seq<u16>, b1: seq<u16>)
    requires |a0| == LIT_SYMBOLS && |a1| == DIST_SYMBOLS && NoLess(a0, b0) && NoLess(a1, b1) && TokenOk(t) && Counted(t, a0, a1)
    ensures Counted(t, b0, b1)
  {
    if t.Match? {
      SymbolRange(t.len - 3, t.dist - 1);
    }
    hide LenSym, DistSym;
  }

  method CountToken(t: Token, count0: array<u16>, count1: array<u16>)
    requires TokenOk(t) && count0.Length == LIT_SYMBOLS && count1.Length == DIST_SYMBOLS && count0 != count1
    requires HuffmanBuild.Total(count0[..]) < 0xFFFF && HuffmanBuild.Total(count1[..]) < 0xFFFF
    modifies count0, count1
    ensures HuffmanBuild.Total(count0[..]) == HuffmanBuild.Total(old(count0[..])) + 1
    ensures HuffmanBuild.Total(count1[..]) <= HuffmanBuild.Total(old(count1[..])) + 1
    ensures Counted(t, count0[..], count1[..]) && NoLess(old(count0[..]), count0[..]) && NoLess(old(count1[..]), count1[..])
    ensures count0[286] == old(count0[286]) && count0[287] == old(count0[287]) && count1[30] == old(count1[30]) && count1[31] == old(count1[31])
  {
    match t
    case Literal(b) =>
      hide HuffmanBuild.Total;
      Increment(count0, b);
    case Match(len, d) =>
      SymbolRange(len - 3, d - 1);
      hide HuffmanBuild.Total, LenSym, DistSym;
      Increment(count0, LenSym(len - 3));
      Increment(count1, DistSym(d - 1));
  }

  lemma SymbolRange(l: nat, d: nat)
    requires l < 256 && d < 32768
    ensures 257 <= LenSym(l) <= 285 && DistSym(d) <= 29
  {
    DistanceRoundTrip(d);
  }

  // The symbol counts of a block: those of the record functions, and one end of block.
  method CountTokens(ts: seq<Token>) returns (count0: array<u16>, count1: array<u16>)
    requires LzBuffer.AllOk(ts) && |ts| < 0xFFFF
    ensures fresh(count0) && fresh(count1) && count0.Length == LIT_SYMBOLS && count1.Length == DIST_SYMBOLS && count0 != count1
    ensures HuffmanBuild.Total(count0[..]) < 0x1_0000 && HuffmanBuild.Total(count1[..]) < 0x1_0000
    ensures count0[END_OF_BLOCK] > 0 && forall k :: 0 <= k < |ts| ==> Counted(ts[k], count0[..], count1[..])
    ensures count0[286] == 0 && count0[287] == 0 && count1[30] == 0 && count1[31] == 0
  {
    hide HuffmanBuild.Total, LenSym, DistSym;
    count0 := new u16[LIT_SYMBOLS](_ => 0);
    count1 := new u16[DIST_SYMBOLS](_ => 0);
    TotalOfNone(count0[..]);
    TotalOfNone(count1[..]);
    hide Counted;
    Increment(count0, END_OF_BLOCK);
    for k := 0 to |ts|
      invariant HuffmanBuild.Total(count0[..]) == k + 1 && HuffmanBuild.Total(count1[..]) <= k
      invariant count0[END_OF_BLOCK] > 0 && forall j :: 0 <= j < k ==> Counted(ts[j], count0[..], count1[..])
      invariant count0[286] == 0 && count0[287] == 0 && count1[30] == 0 && count1[31] == 0
    {
      ghost var a0, a1 := count0[..], count1[..];
      CountToken(ts[k], count0, count1);
      forall j | 0 <= j < k
        ensures Counted(ts[j], count0[..], count1[..])
      {
        CountedMore(ts[j], a0, a1, count0[..], count1[..]);
      }
      assert a0[END_OF_BLOCK] <= count0[..][END_OF_BLOCK];
    }
  }

  // Counted symbols have words.
  lemma CountedIsSayable(t: Token, count0: seq<u16>, count1: seq<u16>, lit: seq<nat>, dist: seq<nat>)
    requires |count0| == LIT_SYMBOLS && |count1| == DIST_SYMBOLS && TokenOk(t) && Counted(t, count0, count1)
    requires HuffmanBuild.GoodLengths(count0, lit, MAX_LENGTH) && HuffmanBuild.GoodLengths(count1, dist, MAX_LENGTH)
    ensures Sayable(t, lit, dist)
  {
    hide Acceptable, LenSym, DistSym;
    if t.Match? {
      SymbolRange(t.len - 3, t.dist - 1);
    }
  }

  // The entries of a packed form from k on.
  function Entries(packed: seq<nat>, k: nat): set<nat>
    decreases |packed| - k
  {
    if k >= |packed| then {} else {packed[k]} + Entries(packed, if packed[k] < 16 then k + 1 else k + 2)
  }

  // The form from k on is whole.
  predicate Framed(packed: seq<nat>, k: nat)
    decreases |packed| - k
  {
    k < |packed| ==> packed[k] < LENGTH_SYMBOLS && if packed[k] < 16 then Framed(packed, k + 1) else k + 1 < |packed| && Framed(packed, k + 2)
  }

  lemma {:induction false} ExpandedIsFramed(packed: seq<nat>, k: nat, out: seq<nat>)
    requires k <= |packed| && CodeLengths.Expand(packed[k..], out).Lengths?
    ensures Framed(packed, k)
    decreases |packed| - k
  {
    if k < |packed| {
      var q := packed[k..];
      if q[0] < 16 {
        assert q[1..] == packed[k + 1..];
        ExpandedIsFramed(packed, k + 1, out + [q[0]]);
      } else {
        assert q[2..] == packed[k + 2..];
        ExpandedIsFramed(packed, k + 2, out + CodeLengths.Times(if q[0] == 16 then out[|out| - 1] else 0, q[1] + if q[0] == 18 then 11 else 3));
      }
    }
  }

  lemma {:induction false} FramedIsWritable(packed: seq<nat>, k: nat, cs: seq<nat>)
    requires Framed(packed, k) && forall c :: c in Entries(packed, k) ==> Used(cs, c)
    ensures Writable(packed, k, cs)
    decreases |packed| - k
  {
    if k < |packed| {
      assert packed[k] in Entries(packed, k);
      FramedIsWritable(packed, if packed[k] < 16 then k + 1 else k + 2, cs);
    }
  }

  // How often the packed form uses each entry.
  method CountEntries(packed: seq<nat>) returns (count: array<u16>)
    requires Framed(packed, 0) && |packed| <= 320
    ensures fresh(count) && count.Length == LENGTH_SYMBOLS && HuffmanBuild.Total(count[..]) < 0x1_0000
    ensures forall c :: c in Entries(packed, 0) ==> c < LENGTH_SYMBOLS && count[c] > 0
  {
    hide HuffmanBuild.Total;
    count := new u16[LENGTH_SYMBOLS](_ => 0);
    TotalOfNone(count[..]);
    var k := 0;
    ghost var seen: set<nat> := {};
    while k < |packed|
      invariant k <= |packed| && Framed(packed, k) && seen + Entries(packed, k) == Entries(packed, 0)
      invariant HuffmanBuild.Total(count[..]) <= k && forall c :: c in seen ==> c < LENGTH_SYMBOLS && count[c] > 0
    {
      var code := packed[k];
      Increment(count, code);
      seen := seen + {code};
      k := if code < 16 then k + 1 else k + 2;
    }
  }

  // ----- Writing -----

  // How many lengths have to be sent: those after the last word are left out.
  method TrimCount(sizes: array<nat>, from: nat, least: nat) returns (n: nat)
    requires least <= from <= sizes.Length && TrimmedTo(sizes[..], from)
    ensures least <= n <= from && TrimmedTo(sizes[..], n) && (n == least || sizes[n - 1] != 0)
  {
    n := from;
    while n > least && sizes[n - 1] == 0
      invariant least <= n <= from && TrimmedTo(sizes[..], n)
    {
      assert sizes[..][n - 1] == 0;
      n := n - 1;
    }
  }

  method CountBitLengths(sizes: array<nat>) returns (n: nat)
    requires sizes.Length == LENGTH_SYMBOLS
    ensures 4 <= n <= LENGTH_SYMBOLS && forall k: nat :: n <= k < LENGTH_SYMBOLS ==> OrderedZero(sizes[..], k)
    ensures n == 4 || !OrderedZero(sizes[..], n - 1)
  {
    assert forall k: nat :: k < LENGTH_SYMBOLS ==> SWIZZLE[k] == Ordered(k) by {
      forall k: nat | k < LENGTH_SYMBOLS ensures SWIZZLE[k] == Ordered(k) {
        SwizzleIsOrder(k);
      }
    }
    var i := 18;
    while i >= 0 && sizes[SWIZZLE[i]] == 0
      invariant -1 <= i <= 18 && forall k: nat :: i < k < LENGTH_SYMBOLS ==> OrderedZero(sizes[..], k)
    {
      i := i - 1;
    }
    n := if i + 1 < 4 then 4 else i + 1;
  }

  lemma LengthBitsStep(cs: seq<nat>, i: nat, n: nat)
    requires |cs| == LENGTH_SYMBOLS && i < n <= LENGTH_SYMBOLS
    ensures LengthBits(cs, i, n) == Lsb(cs[Ordered(i)], 3) + LengthBits(cs, i + 1, n)
  {
  }

  function ThreeBits(s: seq<bool>, k: nat): seq<bool>
    requires 3 * k + 3 <= |s|
  {
    s[3 * k..3 * k + 3]
  }

  // Where each length stands, symbol by symbol.
  lemma LengthOrder(cs: seq<nat>, n: nat)
    requires |cs| == LENGTH_SYMBOLS && 4 <= n <= LENGTH_SYMBOLS
    ensures |LengthBits(cs, 0, n)| == 3 * n
    ensures var s := LengthBits(cs, 0, n);
            ThreeBits(s, 0) == Lsb(cs[16], 3) && ThreeBits(s, 1) == Lsb(cs[17], 3) && ThreeBits(s, 2) == Lsb(cs[18], 3) && ThreeBits(s, 3) == Lsb(cs[0], 3) &&
            (forall j: nat :: j <= 7 && 4 + 2 * j < n ==> ThreeBits(s, 4 + 2 * j) == Lsb(cs[8 + j], 3)) &&
            (forall j: nat :: j <= 6 && 5 + 2 * j < n ==> ThreeBits(s, 5 + 2 * j) == Lsb(cs[7 - j], 3))
  {
    hide LengthBits, Lsb;
    LengthAt(cs, 0, n, 0);
    var s := LengthBits(cs, 0, n);
    forall k: nat | k < n ensures ThreeBits(s, k) == Lsb(cs[Ordered(k)], 3) {
      LengthAt(cs, 0, n, k);
    }
    OrderIs();
    hide Ordered;
    forall j: nat | j <= 7 && 4 + 2 * j < n ensures ThreeBits(s, 4 + 2 * j) == Lsb(cs[8 + j], 3) {
      assert cs[Ordered(4 + 2 * j)] == cs[8 + j];
    }
    forall j: nat | j <= 6 && 5 + 2 * j < n ensures ThreeBits(s, 5 + 2 * j) == Lsb(cs[7 - j], 3) {
      assert cs[Ordered(5 + 2 * j)] == cs[7 - j];
    }
  }

  lemma OrderIs()
    ensures Ordered(0) == 16 && Ordered(1) == 17 && Ordered(2) == 18 && Ordered(3) == 0
    ensures (forall j: nat :: j <= 7 ==> Ordered(4 + 2 * j) == 8 + j) && forall j: nat :: j <= 6 ==> Ordered(5 + 2 * j) == 7 - j
  {
  }

  lemma {:induction false} LengthAt(cs: seq<nat>, i: nat, n: nat, k: nat)
    requires |cs| == LENGTH_SYMBOLS && i <= k < n <= LENGTH_SYMBOLS
    ensures |LengthBits(cs, i, n)| == 3 * (n - i) && LengthBits(cs, i, n)[3 * (k - i)..3 * (k - i) + 3] == Lsb(cs[Ordered(k)], 3)
    decreases n - i
  {
    hide Ordered;
    var b, t := Lsb(cs[Ordered(i)], 3), LengthBits(cs, i + 1, n);
    assert |b| == 3;
    hide Lsb;
    if i + 1 == n {
      assert t == [] && LengthBits(cs, i, n) == b + [];
    } else if k == i {
      LengthAt(cs, i + 1, n, i + 1);
      assert (b + t)[..3] == b;
    } else {
      LengthAt(cs, i + 1, n, k);
      assert (b + t)[3 * (k - i)..3 * (k - i) + 3] == t[3 * (k - i - 1)..3 * (k - i - 1) + 3];
    }
  }

  lemma LengthBitsEnd(cs: seq<nat>, n: nat)
    requires |cs| == LENGTH_SYMBOLS && n <= LENGTH_SYMBOLS
    ensures LengthBits(cs, n, n) == []
  {
  }

  method PutLengths(w: Writer, sizes: array<nat>, n: nat)
    requires w.Valid() && sizes.Length == LENGTH_SYMBOLS && n <= LENGTH_SYMBOLS && forall k :: 0 <= k < LENGTH_SYMBOLS ==> sizes[k] <= 7
    modifies w
    ensures w.Valid() && w.Stream() == old(w.Stream()) + LengthBits(sizes[..], 0, n)
  {
    Pow2Values();
    hide Lsb, Pow2, BitsOf, Writer.Stream, Writer.Valid, Ordered, LengthBits;
    ghost var cs := sizes[..];
    for i := 0 to n
      invariant w.Valid() && w.Stream() + LengthBits(cs, i, n) == old(w.Stream()) + LengthBits(cs, 0, n)
    {
      PlaceOf(i);
      ghost var so, bits := w.Stream(), Lsb(cs[Ordered(i)], 3);
      SwizzleIsOrder(i);
      w.PutBits(sizes[SWIZZLE[i]], 3);
      LengthBitsStep(cs, i, n);
      assert so + (bits + LengthBits(cs, i + 1, n)) == w.Stream() + LengthBits(cs, i + 1, n);
    }
    LengthBitsEnd(cs, n);
  }

  method PutPacked(w: Writer, packed: seq<nat>, sizes: array<nat>, codes: array<nat>, ghost cs: seq<nat>)
    requires w.Valid() && sizes[..] == cs && HuffmanBuild.Coded(cs, codes[..]) && Writable(packed, 0, cs)
    requires CodeLengths.Fits(packed)
    modifies w
    ensures w.Valid() && w.Stream() == old(w.Stream()) + PackedBits(packed, 0, cs)
  {
    hide Lsb, Pow2, BitsOf, Word, HuffmanBuild.Coded;
    ghost var whole := w.Stream() + PackedBits(packed, 0, cs);
    assert packed[0..] == packed;
    var k := 0;
    while k < |packed|
      invariant k <= |packed| && Writable(packed, k, cs) && CodeLengths.Fits(packed[k..])
      invariant w.Valid() && w.Stream() + PackedBits(packed, k, cs) == whole
      decreases |packed| - k
    {
      var code := packed[k];
      ghost var so, q := w.Stream(), packed[k..];
      PutSymbol(w, sizes, codes, code, cs);
      k := k + 1;
      if code >= 16 {
        assert q[0] == code && q[1] == packed[k] && q[2..] == packed[k + 1..];
        FitsBits(code, packed[k]);
        w.PutBits(packed[k], ExtraOf(code));
        k := k + 1;
        assert so + (Word(cs, code) + (Lsb(packed[k - 1], ExtraOf(code)) + PackedBits(packed, k, cs))) ==
               w.Stream() + PackedBits(packed, k, cs);
      } else {
        assert q[0] == code && q[1..] == packed[k..];
        assert so + (Word(cs, code) + PackedBits(packed, k, cs)) == w.Stream() + PackedBits(packed, k, cs);
      }
    }
  }

  lemma FitsBits(code: nat, x: nat)
    requires 16 <= code <= 18 && x < if code == 16 then 4 else if code == 17 then 8 else 128
    ensures x < Pow2(ExtraOf(code)) && ExtraOf(code) <= 7
  {
    Pow2Values();
  }

  lemma Pow2Limits()
    ensures Pow2(15) == 32768 && Pow2(7) == 128 && Pow2(5) == 32 && Pow2(4) == 16 && Pow2(2) == 4
  {
    Pow2Values();
    Pow2Sum(8, 7);
  }

  // The codes for a block, of the right lengths and with a word for everything in it.
  method MakeCodes(ts: seq<Token>) returns (sizes0: array<nat>, codes0: array<nat>, sizes1: array<nat>, codes1: array<nat>)
    requires LzBuffer.AllOk(ts) && |ts| < 0xFFFF
    ensures fresh(sizes0) && fresh(codes0) && fresh(sizes1) && fresh(codes1)
    ensures sizes0.Length == LIT_SYMBOLS && sizes1.Length == DIST_SYMBOLS
    ensures HuffmanBuild.Coded(sizes0[..], codes0[..]) && HuffmanBuild.Coded(sizes1[..], codes1[..])
    ensures Acceptable(sizes0[..]) && Acceptable(sizes1[..]) && AllSayable(ts, sizes0[..], sizes1[..])
    ensures TrimmedTo(sizes0[..], 286) && TrimmedTo(sizes1[..], 30)
  {
    hide HuffmanBuild.Coded, Acceptable, HuffmanBuild.Total, Pow2, Counted;
    var count0, count1 := CountTokens(ts);
    sizes0 := new nat[LIT_SYMBOLS](_ => 0);
    codes0 := new nat[LIT_SYMBOLS](_ => 0);
    sizes1 := new nat[DIST_SYMBOLS](_ => 0);
    codes1 := new nat[DIST_SYMBOLS](_ => 0);
    HuffmanBuild.UsedSymsAre(count0[..], LIT_SYMBOLS);
    HuffmanBuild.UsedSymsAre(count1[..], DIST_SYMBOLS);
    Pow2Limits();
    ghost var depths := HuffmanBuild.OptimizeTable(count0, sizes0, codes0, 15);
    ghost var lit, c0 := sizes0[..], count0[..];
    depths := HuffmanBuild.OptimizeTable(count1, sizes1, codes1, 15);
    assert sizes0[..] == lit && count0[..] == c0;
    assert c0[END_OF_BLOCK] > 0;
    forall k | 0 <= k < |ts|
      ensures Sayable(ts[k], lit, sizes1[..])
    {
      CountedIsSayable(ts[k], c0, count1[..], lit, sizes1[..]);
    }
  }

  // What is to be said in the header.
  method PlanHeader(sizes0: array<nat>, sizes1: array<nat>)
    returns (numLit: nat, numDist: nat, packed: seq<nat>, sizes2: array<nat>, codes2: array<nat>, numBitLengths: nat, ghost h: Header)
    requires sizes0.Length == LIT_SYMBOLS && sizes1.Length == DIST_SYMBOLS && Acceptable(sizes0[..]) && Acceptable(sizes1[..])
    requires TrimmedTo(sizes0[..], 286) && TrimmedTo(sizes1[..], 30)
    ensures fresh(sizes2) && fresh(codes2) && sizes2.Length == LENGTH_SYMBOLS && HuffmanBuild.Coded(sizes2[..], codes2[..])
    ensures 257 <= numLit <= 286 && 1 <= numDist <= 30 && TrimmedTo(sizes0[..], numLit) && TrimmedTo(sizes1[..], numDist)
    ensures Shortest(h)
    ensures h == Header(sizes0[..numLit], sizes1[..numDist], packed, sizes2[..], numBitLengths) && GoodHeader(h)
  {
    hide HuffmanBuild.Coded, Acceptable, CodeLengths.Expand, CodeLengths.Fits, Writable, TrimmedTo, GoodHeader, OrderedZero;
    numLit := TrimCount(sizes0, 286, 257);
    numDist := TrimCount(sizes1, 30, 1);
    ghost var cs0, cs1 := sizes0[..], sizes1[..];
    ghost var lit, dist := cs0[..numLit], cs1[..numDist];
    assert sizes0[..numLit] == lit && sizes1[..numDist] == dist;
    TrimmedAcceptable(cs0, numLit);
    TrimmedAcceptable(cs1, numDist);
    ShortLengths(lit, dist);
    packed := CodeLengths.Pack(sizes0[..numLit] + sizes1[..numDist]);
    sizes2, codes2, numBitLengths := LengthCode(packed);
    h := Header(lit, dist, packed, sizes2[..], numBitLengths);
    HeaderIsGood(h);
    assert h.lit == sizes0[..numLit] && h.dist == sizes1[..numDist] && h.cs == sizes2[..];
  }

  lemma ShortLengths(lit: seq<nat>, dist: seq<nat>)
    requires Acceptable(lit) && Acceptable(dist)
    ensures forall i :: 0 <= i < |lit + dist| ==> (lit + dist)[i] < 16
  {
  }

  lemma HeaderIsGood(h: Header)
    requires 257 <= |h.lit| <= 288 && 1 <= |h.dist| <= 32 && Acceptable(h.lit) && Acceptable(h.dist)
    requires CodeLengths.Expand(h.packed, []) == CodeLengths.Lengths(h.lit + h.dist) && CodeLengths.Fits(h.packed)
    requires |h.cs| == LENGTH_SYMBOLS && Acceptable(h.cs) && (forall k :: 0 <= k < LENGTH_SYMBOLS ==> h.cs[k] <= 7) && Writable(h.packed, 0, h.cs)
    requires 4 <= h.numBitLengths <= LENGTH_SYMBOLS && forall k: nat :: h.numBitLengths <= k < LENGTH_SYMBOLS ==> OrderedZero(h.cs, k)
    ensures GoodHeader(h)
  {
    hide Acceptable, CodeLengths.Expand, CodeLengths.Fits, Writable, OrderedZero;
  }

  // The header part of tdefl_start_dynamic_block.
  method PutHeader(w: Writer, sizes0: array<nat>, sizes1: array<nat>) returns (ghost h: Header)
    requires w.Valid() && sizes0.Length == LIT_SYMBOLS && sizes1.Length == DIST_SYMBOLS && Acceptable(sizes0[..]) && Acceptable(sizes1[..])
    requires TrimmedTo(sizes0[..], 286) && TrimmedTo(sizes1[..], 30)
    modifies w
    ensures w.Valid() && GoodHeader(h) && Shortest(h) && w.Stream() == old(w.Stream()) + HeaderBits(h)
    ensures TrimmedTo(sizes0[..], |h.lit|) && h.lit == sizes0[..|h.lit|] && TrimmedTo(sizes1[..], |h.dist|) && h.dist == sizes1[..|h.dist|]
  {
    hide Lsb, Pow2, BitsOf, Word, HuffmanBuild.Coded, Acceptable, CodeLengths.Expand, CodeLengths.Fits, PackedBits, LengthBits, Writable, TrimmedTo;
    var numLit, numDist, packed, sizes2, codes2, numBitLengths, plan := PlanHeader(sizes0, sizes1);
    h := plan;
    Pow2Limits();
    ghost var so := w.Stream();
    w.PutBits(numLit - 257, 5);
    w.PutBits(numDist - 1, 5);
    w.PutBits(numBitLengths - 4, 4);
    PutLengths(w, sizes2, numBitLengths);
    PutPacked(w, packed, sizes2, codes2, sizes2[..]);
    FiveParts(so, Lsb(numLit - 257, 5), Lsb(numDist - 1, 5), Lsb(numBitLengths - 4, 4), LengthBits(h.cs, 0, numBitLengths), PackedBits(packed, 0, h.cs));
  }

  lemma FiveParts(s: seq<bool>, a: seq<bool>, b: seq<bool>, c: seq<bool>, d: seq<bool>, e: seq<bool>)
    ensures ((((s + a) + b) + c) + d) + e == s + (a + (b + (c + (d + e))))
  {
  }

  // The code that the lengths are written in.
  method LengthCode(packed: seq<nat>) returns (sizes2: array<nat>, codes2: array<nat>, numBitLengths: nat)
    requires CodeLengths.Expand(packed, []).Lengths? && |packed| <= 320
    ensures fresh(sizes2) && fresh(codes2) && sizes2.Length == LENGTH_SYMBOLS && HuffmanBuild.Coded(sizes2[..], codes2[..])
    ensures Acceptable(sizes2[..]) && (forall k :: 0 <= k < LENGTH_SYMBOLS ==> sizes2[k] <= 7) && Writable(packed, 0, sizes2[..])
    ensures 4 <= numBitLengths <= LENGTH_SYMBOLS && forall k: nat :: numBitLengths <= k < LENGTH_SYMBOLS ==> OrderedZero(sizes2[..], k)
    ensures numBitLengths == 4 || !OrderedZero(sizes2[..], numBitLengths - 1)
  {
    hide HuffmanBuild.Coded, Acceptable, HuffmanBuild.Total, Pow2, CodeLengths.Expand, OrderedZero;
    assert packed[0..] == packed;
    ExpandedIsFramed(packed, 0, []);
    var count2 := CountEntries(packed);
    sizes2 := new nat[LENGTH_SYMBOLS](_ => 0);
    codes2 := new nat[LENGTH_SYMBOLS](_ => 0);
    HuffmanBuild.UsedSymsAre(count2[..], LENGTH_SYMBOLS);
    Pow2Limits();
    ghost var depths := HuffmanBuild.OptimizeTable(count2, sizes2, codes2, 7);
    ghost var cs := sizes2[..];
    assert forall k :: 0 <= k < LENGTH_SYMBOLS ==> sizes2[k] == cs[k];
    FramedIsWritable(packed, 0, cs);
    numBitLengths := CountBitLengths(sizes2);
  }

  // What a block with its own codes looks like.
  ghost predicate DynamicBlock(bits: seq<bool>, h: Header, ts: seq<Token>) {
    GoodHeader(h) && AllSayable(ts, h.lit, h.dist) && bits == Lsb(2, 2) + (HeaderBits(h) + BlockBits(ts, 0, h.lit, h.dist))
  }

  // tdefl_compress_block with codes of its own, after the bit that marks the last block
  method WriteDynamicBlock(w: Writer, buf: array<byte>, end: nat, ghost ts: seq<Token>) returns (ghost bits: seq<bool>, ghost h: Header)
    requires w.Valid() && end <= buf.Length && LzBuffer.AllOk(ts) && buf[..end] == LzBuffer.Packed(ts) && |ts| < 0xFFFF
    modifies w
    ensures w.Valid() && w.Stream() == old(w.Stream()) + bits && DynamicBlock(bits, h, ts) && Shortest(h)
  {
    var tokens := LzBuffer.ReadTokens(buf, end, ts);
    var sizes0, codes0, sizes1, codes1 := MakeCodes(tokens);
    Pow2Limits();
    hide Lsb, Pow2, BitsOf, Word, HuffmanBuild.Coded, Acceptable, GoodHeader, BlockBits, AllSayable, LzBuffer.Packed, TrimmedTo;
    ghost var so := w.Stream();
    w.PutBits(2, 2);
    h := PutHeader(w, sizes0, sizes1);
    ghost var before := w.Stream();
    ghost var lit, dist := sizes0[..], sizes1[..];
    CompressLzCodes(w, buf, end, sizes0, codes0, sizes1, codes1, ts, lit, dist);
    TrimmedSayable(ts, lit, |h.lit|, dist, |h.dist|);
    TrimmedBlock(ts, 0, lit, |h.lit|, dist, |h.dist|);
    bits := Lsb(2, 2) + (HeaderBits(h) + BlockBits(ts, 0, h.lit, h.dist));
    ThreeParts(so, Lsb(2, 2), HeaderBits(h), BlockBits(ts, 0, h.lit, h.dist));
  }

  lemma ThreeParts(s: seq<bool>, a: seq<bool>, b: seq<bool>, c: seq<bool>)
    ensures ((s + a) + b) + c == s + (a + (b + c))
  {
  }
}
