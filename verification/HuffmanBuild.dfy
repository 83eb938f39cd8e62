// The compressor's Huffman tables: from symbol counts to length-limited code lengths and
// the code words ready for output.

module HuffmanBuild {
  import opened Bits
  import opened Ints
  import opened HuffmanCode
  import HuffmanTable
  import CodeCost
  import LengthLimit
  import MinimumRedundancy
  import RadixSort

  type SymFreq = RadixSort.SymFreq

  // ----- Counting lengths -----

  lemma KraftFront(l: seq<nat>, t: nat, b: nat)
    requires t < |l| && CodeCost.Within(l, b)
    ensures CodeCost.Within(l[..t], b) && CodeCost.Within(l[..t + 1], b)
    ensures CodeCost.Kraft(l[..t + 1], b) == CodeCost.Kraft(l[..t], b) + Pow2(b - l[t])
  {
    CodeCost.KraftWithout(l[..t + 1], b, t);
    assert CodeCost.Without(l[..t + 1], t) == l[..t];
  }

  lemma {:induction false} NoShare(num: seq<int>, hi: nat, m: nat)
    requires hi < |num| && hi <= m && forall k :: 0 <= k < |num| ==> num[k] == 0
    ensures LengthLimit.Words(num, hi) == 0 && LengthLimit.Share(num, hi, m) == 0
  {
    if hi > 0 {
      NoShare(num, hi - 1, m);
    }
  }

  // The table so far: how many of the first i words have each length.
  ghost predicate Tally(num: seq<int>, l: seq<nat>, i: nat)
    requires CodeCost.Within(l, LengthLimit.MAX_SUPPORTED) && i <= |l| && CodeCost.Within(l[..i], LengthLimit.MAX_SUPPORTED)
  {
    var m := LengthLimit.MAX_SUPPORTED;
    |num| == m + 1 && LengthLimit.Natural(num, m) && LengthLimit.Words(num, m) == i && LengthLimit.Share(num, m, m) == CodeCost.Kraft(l[..i], m)
  }

  lemma TallyStep(num: seq<int>, l: seq<nat>, i: nat)
    requires CodeCost.Within(l, LengthLimit.MAX_SUPPORTED) && i < |l| && CodeCost.Within(l[..i], LengthLimit.MAX_SUPPORTED)
    requires Tally(num, l, i) && l[i] >= 1
    ensures CodeCost.Within(l[..i + 1], LengthLimit.MAX_SUPPORTED) && Tally(num[l[i] := num[l[i]] + 1], l, i + 1)
  {
    hide LengthLimit.Words, LengthLimit.Share, CodeCost.Kraft;
    var m, k := LengthLimit.MAX_SUPPORTED, l[i];
    LengthLimit.WordsUpdate(num, m, k, num[k] + 1);
    LengthLimit.ShareUpdate(num, m, m, k, num[k] + 1);
    KraftFront(l, i, m);
  }

  // The table of how many words there are of each length.
  method CountWords(l: array<u16>) returns (numCodes: array<int>)
    requires CodeCost.Within(l[..], LengthLimit.MAX_SUPPORTED) && forall i :: 0 <= i < l.Length ==> l[i] >= 1
    ensures fresh(numCodes) && numCodes.Length == LengthLimit.MAX_SUPPORTED + 1
    ensures Tally(numCodes[..], l[..], l.Length)
    ensures forall k :: 1 <= k <= LengthLimit.MAX_SUPPORTED && (forall i :: 0 <= i < l.Length ==> l[i] != k) ==> numCodes[k] == 0
    ensures forall k :: 1 <= k <= LengthLimit.MAX_SUPPORTED ==> numCodes[k] == Count(l[..], k)
  {
    numCodes := new int[LengthLimit.MAX_SUPPORTED + 1](_ => 0);
    ghost var ls: seq<nat> := l[..];
    NoShare(numCodes[..], LengthLimit.MAX_SUPPORTED, LengthLimit.MAX_SUPPORTED);
    assert Tally(numCodes[..], ls, 0);
    assert ls[..0] == [];
    hide Tally;
    for i := 0 to l.Length
      invariant CodeCost.Within(ls[..i], LengthLimit.MAX_SUPPORTED) && Tally(numCodes[..], ls, i)
      invariant forall k :: 1 <= k <= LengthLimit.MAX_SUPPORTED && (forall i :: 0 <= i < l.Length ==> l[i] != k) ==> numCodes[k] == 0
      invariant forall k :: 1 <= k <= LengthLimit.MAX_SUPPORTED ==> numCodes[k] == Count(ls[..i], k)
    {
      var k := l[i];
      assert k == ls[i] && k <= LengthLimit.MAX_SUPPORTED;
      ghost var num := numCodes[..];
      TallyStep(num, ls, i);
      HuffmanTable.CountStep(ls, i);
      numCodes[k] := numCodes[k] + 1;
      assert numCodes[..] == num[k := num[k] + 1];
    }
    assert ls[..l.Length] == ls;
  }

  // ----- Lengths by symbol -----

  lemma {:induction false} CountUpdate(cs: seq<nat>, x: nat, v: nat, k: nat)
    requires x < |cs| && cs[x] == 0 && k >= 1
    ensures Count(cs[x := v], k) == Count(cs, k) + if v == k then 1 else 0
    decreases |cs|
  {
    var t := cs[..|cs| - 1];
    if x < |cs| - 1 {
      CountUpdate(t, x, v, k);
      assert cs[x := v][..|cs| - 1] == t[x := v];
    } else {
      assert cs[x := v][..|cs| - 1] == t;
    }
  }

  lemma {:induction false} CountNone(cs: seq<nat>, k: nat)
    requires k >= 1 && forall i :: 0 <= i < |cs| ==> cs[i] == 0
    ensures Count(cs, k) == 0
  {
    if cs != [] {
      CountNone(cs[..|cs| - 1], k);
    }
  }

  // The code space of the lengths, counted by length.
  lemma {:induction false} BelowIsShare(cs: seq<nat>, num: seq<int>, hi: nat)
    requires hi < |num| && hi <= MAX_LENGTH && forall k :: 1 <= k <= hi ==> Count(cs, k) == num[k]
    ensures Below(cs, hi + 1) == LengthLimit.Share(num, hi, MAX_LENGTH)
  {
    if hi == 0 {
      BelowOne(cs);
    } else {
      BelowIsShare(cs, num, hi - 1);
      BelowStep(cs, hi);
    }
  }

  lemma {:induction false} NoneBetween(cs: seq<nat>, lo: nat, hi: nat)
    requires lo <= hi && forall k :: lo <= k < hi ==> Count(cs, k) == 0
    ensures Below(cs, hi) == Below(cs, lo)
    decreases hi
  {
    if lo < hi {
      NoneBetween(cs, lo, hi - 1);
      BelowStep(cs, hi - 1);
    }
  }

  lemma {:induction false} CountBounded(cs: seq<nat>, limit: nat, k: nat)
    requires k > limit && forall i :: 0 <= i < |cs| ==> cs[i] <= limit
    ensures Count(cs, k) == 0
  {
    if cs != [] {
      CountBounded(cs[..|cs| - 1], limit, k);
    }
  }

  // Counts that fill the space of the limit make a complete code.
  lemma FullIsComplete(cs: seq<nat>, num: seq<int>, limit: nat)
    requires 1 <= limit <= MAX_LENGTH && limit < |num| && (forall i :: 0 <= i < |cs| ==> cs[i] <= limit)
    requires forall k :: 1 <= k <= limit ==> Count(cs, k) == num[k]
    requires LengthLimit.Share(num, limit, limit) == Pow2(limit)
    ensures Complete(cs)
  {
    BelowIsShare(cs, num, limit);
    forall k | limit + 1 <= k < MAX_LENGTH + 1
      ensures Count(cs, k) == 0
    {
      CountBounded(cs, limit, k);
    }
    NoneBetween(cs, limit + 1, MAX_LENGTH + 1);
    LengthLimit.ShareScaled(num, limit, limit, MAX_LENGTH - limit);
    Pow2Sum(limit, MAX_LENGTH - limit);
  }

  // ----- Code words -----

  // The code of symbol i is its word reversed, ready to be sent lowest bit first.
  ghost predicate CodedAt(cs: seq<nat>, codes: seq<nat>, i: nat)
    requires |codes| == |cs|
  {
    Used(cs, i) ==> codes[i] < Pow2(cs[i]) && Lsb(codes[i], cs[i]) == Word(cs, i)
  }

  ghost predicate Coded(cs: seq<nat>, codes: seq<nat>) {
    |codes| == |cs| && forall i: nat :: i < |cs| ==> CodedAt(cs, codes, i)
  }

  // The first code word of each length, once more.
  method NextCodes(limit: nat, numCodes: array<int>, ghost cs: seq<nat>) returns (nextCode: array<nat>)
    requires numCodes.Length == LengthLimit.MAX_SUPPORTED + 1 && 1 <= limit <= MAX_LENGTH
    requires forall k :: 1 <= k <= limit ==> numCodes[k] == Count(cs, k)
    ensures fresh(nextCode) && nextCode.Length == LengthLimit.MAX_SUPPORTED + 1
    ensures forall k :: 1 <= k <= limit ==> nextCode[k] == FirstCode(cs, k)
  {
    hide Count;
    nextCode := new nat[LengthLimit.MAX_SUPPORTED + 1](_ => 0);
    var j := 0;
    for i := 2 to limit + 1
      invariant j == FirstCode(cs, i - 1) && forall k :: 1 <= k < i ==> nextCode[k] == FirstCode(cs, k)
    {
      j := (j + numCodes[i - 1]) * 2;
      nextCode[i] := j;
    }
  }

  // The code of one symbol, reversed.
  method AssignCode(sizes: array<nat>, codes: array<nat>, i: nat, code: nat)
    requires codes.Length == sizes.Length && sizes != codes && i < sizes.Length && code == CodeOf(sizes[..], i)
    requires forall m: nat :: m < i ==> CodedAt(sizes[..], codes[..], m)
    modifies codes
    ensures forall m: nat :: m <= i ==> CodedAt(sizes[..], codes[..], m)
  {
    hide Word, Lsb, Pow2, CodeOf;
    ghost var cs, before := sizes[..], codes[..];
    var rev := HuffmanTable.Reverse(code, sizes[i]);
    WordIs(cs, i, code);
    codes[i] := rev;
    assert sizes[..] == cs && codes[..] == before[i := rev];
    forall m: nat | m < i
      ensures CodedAt(cs, codes[..], m)
    {
      assert CodedAt(cs, before, m);
    }
  }

  // The last part of tdefl_optimize_huffman_table: canonical codes, reversed.
  method AssignCodes(sizes: array<nat>, codes: array<nat>, tableLen: nat, limit: nat, numCodes: array<int>)
    requires codes != sizes && tableLen == sizes.Length == codes.Length && 1 <= limit <= MAX_LENGTH
    requires numCodes.Length == LengthLimit.MAX_SUPPORTED + 1 && (forall i :: 0 <= i < sizes.Length ==> sizes[i] <= limit)
    requires forall k :: 1 <= k <= limit ==> numCodes[k] == Count(sizes[..], k)
    modifies codes
    ensures Coded(sizes[..], codes[..])
  {
    hide CodedAt;
    ghost var cs := sizes[..];
    var nextCode := NextCodes(limit, numCodes, cs);
    HuffmanTable.NothingCounted();
    assert cs[..0] == [];
    hide Count, FirstCode;
    for i := 0 to tableLen
      invariant sizes[..] == cs && forall k :: 1 <= k <= limit ==> nextCode[k] == FirstCode(cs, k) + Count(cs[..i], k)
      invariant forall m: nat :: m < i ==> CodedAt(cs, codes[..], m)
    {
      HuffmanTable.CountStep(cs, i);
      assert sizes[i] == cs[i];
      var codeSize := sizes[i];
      if codeSize != 0 {
        var code := nextCode[codeSize];
        nextCode[codeSize] := code + 1;
        AssignCode(sizes, codes, i, code);
        assert sizes[..] == cs;
      } else {
        UnusedCoded(cs, codes[..], i);
      }
    }
  }

  lemma UnusedCoded(cs: seq<nat>, codes: seq<nat>, i: nat)
    requires |codes| == |cs| && !Used(cs, i)
    ensures CodedAt(cs, codes, i)
  {
  }

  lemma WordIs(cs: seq<nat>, i: nat, code: nat)
    requires i < |cs| && code == CodeOf(cs, i)
    ensures Word(cs, i) == Msb(code, cs[i])
  {
  }

  // ----- Giving out the lengths -----

  predicate Distinct(syms: seq<SymFreq>, size: nat) {
    (forall p :: 0 <= p < |syms| ==> syms[p].sym < size) &&
    forall p, q :: 0 <= p < q < |syms| ==> syms[p].sym != syms[q].sym
  }

  // The symbols from j on have their lengths, at most i and falling; no other has one.
  ghost predicate Given(cs: seq<nat>, syms: seq<SymFreq>, j: nat, i: nat)
    requires Distinct(syms, |cs|) && j <= |syms|
  {
    (forall p :: j <= p < |syms| ==> 1 <= cs[syms[p].sym] <= i) &&
    (forall p, q :: j <= p < q < |syms| ==> cs[syms[q].sym] <= cs[syms[p].sym]) &&
    (forall x :: 0 <= x < |cs| && cs[x] != 0 ==> exists p :: j <= p < |syms| && syms[p].sym == x)
  }

  lemma GiveOne(cs: seq<nat>, syms: seq<SymFreq>, j: nat, i: nat)
    requires Distinct(syms, |cs|) && 1 <= j <= |syms| && i >= 1 && Given(cs, syms, j, i)
    ensures cs[syms[j - 1].sym] == 0
    ensures Distinct(syms, |cs[syms[j - 1].sym := i]|) && Given(cs[syms[j - 1].sym := i], syms, j - 1, i)
  {
    var x := syms[j - 1].sym;
    var cs' := cs[x := i];
    forall y | 0 <= y < |cs'| && cs'[y] != 0
      ensures exists p :: j - 1 <= p < |syms| && syms[p].sym == y
    {
      if y != x {
        var p :| j <= p < |syms| && syms[p].sym == y;
      }
    }
  }

  lemma {:induction false} WordsMonotone(num: seq<int>, lo: nat, hi: nat)
    requires lo <= hi < |num| && LengthLimit.Natural(num, hi)
    ensures LengthLimit.Words(num, lo) <= LengthLimit.Words(num, hi)
    decreases hi
  {
    if lo < hi {
      WordsMonotone(num, lo, hi - 1);
    }
  }

  // The most frequent symbols get the shortest lengths.
  method AssignLengths(sorted: array<SymFreq>, n: nat, numCodes: array<int>, sizes: array<nat>, limit: nat)
    requires n <= sorted.Length && numCodes.Length == LengthLimit.MAX_SUPPORTED + 1 && 1 <= limit <= MAX_LENGTH
    requires Distinct(sorted[..n], sizes.Length) && (numCodes as object) != sizes
    requires LengthLimit.Natural(numCodes[..], limit) && LengthLimit.Words(numCodes[..], limit) == n
    modifies sizes
    ensures Given(sizes[..], sorted[..n], 0, limit)
    ensures forall k :: 1 <= k <= limit ==> Count(sizes[..], k) == numCodes[k]
  {
    hide Count, Given, Distinct;
    ghost var syms, num := sorted[..n], numCodes[..];
    ClearSizes(sizes);
    GivenNothing(sizes[..], syms);
    var j := n;
    for i: nat := 1 to limit + 1
      invariant syms == sorted[..n] && num == numCodes[..] && 0 <= j == n - LengthLimit.Words(num, i - 1) <= n
      invariant Given(sizes[..], syms, j, i - 1)
      invariant forall k :: 1 <= k <= limit ==> Count(sizes[..], k) == if k < i then num[k] else 0
    {
      WordsMonotone(num, 0, i);
      WordsMonotone(num, i, limit);
      GiveLengths(sorted, n, j, numCodes[i], sizes, i);
      j := j - numCodes[i];
    }
  }

  // All the words of one length.
  method GiveLengths(sorted: array<SymFreq>, n: nat, start: nat, count: int, sizes: array<nat>, i: nat)
    requires 0 <= count <= start <= n <= sorted.Length && i >= 1 && Distinct(sorted[..n], sizes.Length)
    requires Given(sizes[..], sorted[..n], start, i - 1)
    modifies sizes
    ensures Given(sizes[..], sorted[..n], start - count, i)
    ensures forall k :: k >= 1 ==> Count(sizes[..], k) == Count(old(sizes[..]), k) + if k == i then count else 0
  {
    hide Count, Given;
    GivenMore(sizes[..], sorted[..n], start, i - 1);
    ghost var syms, cs := sorted[..n], sizes[..];
    var j, l := start, count;
    while l > 0
      invariant 0 <= l <= count && j == start - count + l && syms == sorted[..n] && Given(sizes[..], syms, j, i)
      invariant forall k :: k >= 1 ==> Count(sizes[..], k) == Count(cs, k) + if k == i then count - l else 0
    {
      j := j - 1;
      GiveLength(sorted, n, j, sizes, i);
      l := l - 1;
    }
  }

  method ClearSizes(sizes: array<nat>)
    modifies sizes
    ensures forall x :: 0 <= x < sizes.Length ==> sizes[x] == 0
    ensures forall k :: 1 <= k ==> Count(sizes[..], k) == 0
  {
    forall x | 0 <= x < sizes.Length {
      sizes[x] := 0;
    }
    forall k | 1 <= k
      ensures Count(sizes[..], k) == 0
    {
      CountNone(sizes[..], k);
    }
  }

  lemma GivenNothing(cs: seq<nat>, syms: seq<SymFreq>)
    requires Distinct(syms, |cs|) && forall x :: 0 <= x < |cs| ==> cs[x] == 0
    ensures Given(cs, syms, |syms|, 0)
  {
  }

  lemma GivenMore(cs: seq<nat>, syms: seq<SymFreq>, j: nat, i: nat)
    requires Distinct(syms, |cs|) && j <= |syms| && Given(cs, syms, j, i)
    ensures Given(cs, syms, j, i + 1)
  {
  }

  method GiveLength(sorted: array<SymFreq>, n: nat, j: nat, sizes: array<nat>, i: nat)
    requires j < n <= sorted.Length && Distinct(sorted[..n], sizes.Length) && i >= 1 && Given(sizes[..], sorted[..n], j + 1, i)
    modifies sizes
    ensures Given(sizes[..], sorted[..n], j, i)
    ensures forall k :: k >= 1 ==> Count(sizes[..], k) == Count(old(sizes[..]), k) + if k == i then 1 else 0
  {
    hide Count, Given;
    ghost var cs, syms := sizes[..], sorted[..n];
    GiveOne(cs, syms, j + 1, i);
    var x := sorted[j].sym;
    assert syms[j] == sorted[j];
    forall k | k >= 1
      ensures Count(cs[x := i], k) == Count(cs, k) + if k == i then 1 else 0
    {
      CountUpdate(cs, x, i, k);
    }
    sizes[x] := i;
    assert sizes[..] == cs[x := i] && sorted[..n] == syms;
  }

  // ----- Collecting the symbols -----

  // The symbols with a count, in order.
  function UsedSyms(count: seq<u16>, t: nat): seq<SymFreq>
    requires t <= |count| <= 0x1_0000
  {
    if t == 0 then [] else UsedSyms(count, t - 1) + if count[t - 1] != 0 then [RadixSort.SymFreq(count[t - 1], t - 1)] else []
  }

  lemma {:induction false} UsedSymsAre(count: seq<u16>, t: nat)
    requires t <= |count| <= 0x1_0000
    ensures |UsedSyms(count, t)| <= t && Distinct(UsedSyms(count, t), t)
    ensures forall p :: 0 <= p < |UsedSyms(count, t)| ==> UsedSyms(count, t)[p].key == count[UsedSyms(count, t)[p].sym] > 0
    ensures forall x :: 0 <= x < t && count[x] != 0 ==> RadixSort.SymFreq(count[x], x) in UsedSyms(count, t)
  {
    if t > 0 {
      UsedSymsAre(count, t - 1);
    }
  }

  function Keys(syms: seq<SymFreq>): (k: seq<nat>)
    ensures |k| == |syms| && forall i :: 0 <= i < |k| ==> k[i] == syms[i].key
  {
    seq(|syms|, i requires 0 <= i < |syms| => syms[i].key)
  }

  function Total(count: seq<u16>): nat {
    if count == [] then 0 else Total(count[..|count| - 1]) + count[|count| - 1]
  }

  lemma {:induction false} KeySum(count: seq<u16>, t: nat)
    requires t <= |count| <= 0x1_0000
    ensures CodeCost.Sum(Keys(UsedSyms(count, t))) == Total(count[..t])
  {
    if t > 0 {
      KeySum(count, t - 1);
      var a, b := UsedSyms(count, t - 1), if count[t - 1] != 0 then [RadixSort.SymFreq(count[t - 1], t - 1)] else [];
      assert Keys(a + b) == Keys(a) + Keys(b);
      MinimumRedundancy.SumOfBoth(Keys(a), Keys(b));
      assert count[..t][..t - 1] == count[..t - 1];
      if b != [] {
        assert Keys(b) == [count[t - 1] as nat];
        MinimumRedundancy.SumOfOne(count[t - 1]);
      } else {
        assert Keys(b) == [];
      }
    }
  }

  lemma KeysAround(t: seq<SymFreq>, i: nat, k: seq<nat>)
    requires i < |t| && k == [t[i].key]
    ensures Keys(t) == Keys(t[..i]) + (k + Keys(t[i + 1..]))
    ensures Keys(CodeCost.Without(t, i)) == Keys(t[..i]) + Keys(t[i + 1..])
  {
    var x := [t[i]];
    assert t == t[..i] + (x + t[i + 1..]) && Keys(x) == k;
    hide Keys;
    KeysBoth(t[..i], x + t[i + 1..]);
    KeysBoth(x, t[i + 1..]);
    KeysBoth(t[..i], t[i + 1..]);
  }

  lemma KeysBoth(s: seq<SymFreq>, t: seq<SymFreq>)
    ensures Keys(s + t) == Keys(s) + Keys(t)
  {
  }

  lemma SumWithout(t: seq<SymFreq>, i: nat)
    requires i < |t|
    ensures CodeCost.Sum(Keys(t)) == t[i].key + CodeCost.Sum(Keys(CodeCost.Without(t, i)))
  {
    var k: seq<nat> := [t[i].key];
    KeysAround(t, i, k);
    hide CodeCost.Sum, Keys, CodeCost.Without;
    MinimumRedundancy.SumOfBoth(Keys(t[..i]), Keys(t[i + 1..]));
    MinimumRedundancy.SumOfBoth(Keys(t[..i]), k + Keys(t[i + 1..]));
    MinimumRedundancy.SumOfBoth(k, Keys(t[i + 1..]));
    MinimumRedundancy.SumOfOne(t[i].key);
  }

  lemma FindRest(s: seq<SymFreq>, t: seq<SymFreq>) returns (i: nat)
    requires s != [] && multiset(s) == multiset(t)
    ensures i < |t| && t[i] == s[0] && multiset(s[1..]) == multiset(CodeCost.Without(t, i))
  {
    assert s[0] in multiset(t);
    i :| 0 <= i < |t| && t[i] == s[0];
    assert s == [s[0]] + s[1..] && t == t[..i] + ([t[i]] + t[i + 1..]);
    assert multiset(CodeCost.Without(t, i)) == multiset(t) - multiset{t[i]};
  }

  // Sums do not depend on the order.
  lemma {:induction false} SameSum(s: seq<SymFreq>, t: seq<SymFreq>)
    requires multiset(s) == multiset(t)
    ensures CodeCost.Sum(Keys(s)) == CodeCost.Sum(Keys(t))
    decreases |s|
  {
    if s == [] {
      assert |multiset(t)| == 0;
      assert Keys(s) == [] && Keys(t) == [];
    } else {
      var i := FindRest(s, t);
      SameSum(s[1..], CodeCost.Without(t, i));
      SumWithout(t, i);
      SumWithout(s, 0);
      assert CodeCost.Without(s, 0) == s[1..];
    }
  }

  // A rearrangement of distinct symbols is distinct, and holds the same symbols.
  lemma SameSyms(s: seq<SymFreq>, t: seq<SymFreq>, size: nat)
    requires multiset(s) == multiset(t) && Distinct(s, size)
    ensures |s| == |t| && Distinct(t, size)
    ensures forall x :: x in s <==> x in t
  {
    assert |multiset(s)| == |s| && |multiset(t)| == |t|;
    forall x
      ensures x in s <==> x in t
    {
      assert x in s <==> x in multiset(s);
      assert x in t <==> x in multiset(t);
    }
    forall p, q | 0 <= p < q < |t|
      ensures t[p].sym != t[q].sym
    {
      if t[p].sym == t[q].sym {
        SameSymSame(s, t[p], t[q]) by {
          assert t[p] in t && t[q] in t;
        }
        TwiceIn(t, p, q);
        OnceIn(s, t[p], size);
      }
    }
    forall p | 0 <= p < |t|
      ensures t[p].sym < size
    {
      assert t[p] in t;
    }
  }

  lemma SameSymSame(s: seq<SymFreq>, x: SymFreq, y: SymFreq)
    requires x in s && y in s && x.sym == y.sym && forall p, q :: 0 <= p < q < |s| ==> s[p].sym != s[q].sym
    ensures x == y
  {
    var p :| 0 <= p < |s| && s[p] == x;
    var q :| 0 <= q < |s| && s[q] == y;
  }

  lemma TwiceIn(t: seq<SymFreq>, p: nat, q: nat)
    requires p < q < |t| && t[p] == t[q]
    ensures multiset(t)[t[p]] >= 2
  {
    assert t == (t[..p] + [t[p]] + t[p + 1..q]) + ([t[q]] + t[q + 1..]);
  }

  lemma {:induction false} OnceIn(s: seq<SymFreq>, x: SymFreq, size: nat)
    requires Distinct(s, size)
    ensures multiset(s)[x] <= 1
  {
    if s != [] {
      OnceIn(s[1..], x, size);
      assert s == [s[0]] + s[1..];
      if s[0] == x {
        assert x !in s[1..];
      }
    }
  }

  // ----- What a table costs -----

  // How many bits the symbols take, all occurrences together.
  function Cost(count: seq<u16>, l: seq<nat>, t: nat): nat
    requires t <= |count| == |l|
  {
    if t == 0 then 0 else Cost(count, l, t - 1) + count[t - 1] * l[t - 1]
  }

  // The symbols that occur have words of these lengths in some prefix code, none of them empty.
  predicate HasWords(count: seq<u16>, l: seq<nat>, b: nat)
    requires |count| == |l|
  {
    (forall x :: 0 <= x < |count| && count[x] != 0 ==> 1 <= l[x] <= b) && Space(count, l, b, |count|) <= Pow2(b)
  }

  // Their Kraft sum in units of 2^-b.
  function Space(count: seq<u16>, l: seq<nat>, b: nat, t: nat): nat
    requires t <= |count| == |l| && forall x :: 0 <= x < |count| && count[x] != 0 ==> l[x] <= b
  {
    if t == 0 then 0 else Space(count, l, b, t - 1) + if count[t - 1] != 0 then Pow2(b - l[t - 1]) else 0
  }

  // No prefix code for the symbols takes fewer bits.
  ghost predicate Cheapest(count: seq<u16>, cs: seq<nat>) {
    |count| == |cs| && forall l: seq<nat>, b: nat :: |l| == |count| && HasWords(count, l, b) ==> Cost(count, cs, |count|) <= Cost(count, l, |count|)
  }

  // The lengths of the listed symbols.
  function Picked(l: seq<nat>, syms: seq<SymFreq>): (r: seq<nat>)
    requires forall p :: 0 <= p < |syms| ==> syms[p].sym < |l|
    ensures |r| == |syms| && forall p :: 0 <= p < |r| ==> r[p] == l[syms[p].sym]
  {
    seq(|syms|, p requires 0 <= p < |syms| => l[syms[p].sym])
  }

  lemma {:induction false} DotBoth(v: seq<nat>, l: seq<nat>, w: seq<nat>, m: seq<nat>)
    requires |v| == |l| && |w| == |m|
    ensures CodeCost.Dot(v + w, l + m) == CodeCost.Dot(v, l) + CodeCost.Dot(w, m)
  {
    if v == [] {
      assert v + w == w && l + m == m;
    } else {
      assert (v + w)[1..] == v[1..] + w && (l + m)[1..] == l[1..] + m;
      DotBoth(v[1..], l[1..], w, m);
    }
  }

  lemma {:induction false} KraftBoth(l: seq<nat>, m: seq<nat>, b: nat)
    requires CodeCost.Within(l, b) && CodeCost.Within(m, b)
    ensures CodeCost.Within(l + m, b) && CodeCost.Kraft(l + m, b) == CodeCost.Kraft(l, b) + CodeCost.Kraft(m, b)
  {
    if l == [] {
      assert l + m == m;
    } else {
      assert (l + m)[1..] == l[1..] + m;
      KraftBoth(l[1..], m, b);
    }
  }

  predicate Inside(syms: seq<SymFreq>, n: nat) {
    forall p :: 0 <= p < |syms| ==> syms[p].sym < n
  }

  lemma OneMoreCost(u: seq<SymFreq>, x: SymFreq, l: seq<nat>)
    requires Inside(u, |l|) && x.sym < |l|
    ensures Inside(u + [x], |l|)
    ensures CodeCost.Dot(Keys(u + [x]), Picked(l, u + [x])) == CodeCost.Dot(Keys(u), Picked(l, u)) + x.key * l[x.sym]
  {
    var v := [x];
    assert Keys(u + v) == Keys(u) + Keys(v) && Picked(l, u + v) == Picked(l, u) + Picked(l, v);
    DotBoth(Keys(u), Picked(l, u), Keys(v), Picked(l, v));
    DotOne(Keys(v), Picked(l, v));
  }

  lemma OneMoreSpace(u: seq<SymFreq>, x: SymFreq, l: seq<nat>, b: nat)
    requires Inside(u, |l|) && x.sym < |l| && CodeCost.Within(Picked(l, u), b) && l[x.sym] <= b
    ensures Inside(u + [x], |l|) && CodeCost.Within(Picked(l, u + [x]), b)
    ensures CodeCost.Kraft(Picked(l, u + [x]), b) == CodeCost.Kraft(Picked(l, u), b) + Pow2(b - l[x.sym])
  {
    var v := [x];
    assert Picked(l, u + v) == Picked(l, u) + Picked(l, v);
    KraftOne(Picked(l, v), b);
    KraftBoth(Picked(l, u), Picked(l, v), b);
  }

  lemma DotOne(w: seq<nat>, l: seq<nat>)
    requires |w| == |l| == 1
    ensures CodeCost.Dot(w, l) == w[0] * l[0]
  {
    assert CodeCost.Dot(w[1..], l[1..]) == 0;
  }

  lemma KraftOne(l: seq<nat>, b: nat)
    requires |l| == 1 && l[0] <= b
    ensures CodeCost.Within(l, b) && CodeCost.Kraft(l, b) == Pow2(b - l[0])
  {
    hide Pow2;
    assert CodeCost.Kraft(l[1..], b) == 0;
  }

  // Cost and space of a table are those of the list of its symbols.
  lemma {:induction false} CostIs(count: seq<u16>, l: seq<nat>, t: nat)
    requires t <= |count| == |l| <= 0x1_0000
    ensures Inside(UsedSyms(count, t), |l|)
    ensures Cost(count, l, t) == CodeCost.Dot(Keys(UsedSyms(count, t)), Picked(l, UsedSyms(count, t)))
  {
    if t > 0 {
      CostIs(count, l, t - 1);
      var u := UsedSyms(count, t - 1);
      NextUsed(count, t);
      hide UsedSyms, Keys, Picked, CodeCost.Dot;
      if count[t - 1] != 0 {
        OneMoreCost(u, RadixSort.SymFreq(count[t - 1], t - 1), l);
      }
    }
  }

  lemma NextUsed(count: seq<u16>, t: nat)
    requires 0 < t <= |count| <= 0x1_0000
    ensures UsedSyms(count, t) == if count[t - 1] != 0 then UsedSyms(count, t - 1) + [RadixSort.SymFreq(count[t - 1], t - 1)] else UsedSyms(count, t - 1)
  {
  }

  lemma NextSpace(count: seq<u16>, l: seq<nat>, b: nat, t: nat)
    requires 0 < t <= |count| == |l| && forall x :: 0 <= x < |count| && count[x] != 0 ==> l[x] <= b
    ensures Space(count, l, b, t) == Space(count, l, b, t - 1) + if count[t - 1] != 0 then Pow2(b - l[t - 1]) else 0
  {
    hide Pow2;
  }

  lemma {:induction false} SpaceIs(count: seq<u16>, l: seq<nat>, b: nat, t: nat)
    requires t <= |count| == |l| <= 0x1_0000 && forall x :: 0 <= x < |count| && count[x] != 0 ==> l[x] <= b
    ensures Inside(UsedSyms(count, t), |l|) && CodeCost.Within(Picked(l, UsedSyms(count, t)), b)
    ensures Space(count, l, b, t) == CodeCost.Kraft(Picked(l, UsedSyms(count, t)), b)
  {
    if t > 0 {
      SpaceIs(count, l, b, t - 1);
      var u := UsedSyms(count, t - 1);
      NextUsed(count, t);
      NextSpace(count, l, b, t);
      hide UsedSyms, Picked, CodeCost.Kraft, Pow2, Space;
      if count[t - 1] != 0 {
        OneMoreSpace(u, RadixSort.SymFreq(count[t - 1], t - 1), l, b);
      }
    }
  }

  // Neither depends on the order of the symbols.
  lemma {:induction false} SameCost(s: seq<SymFreq>, t: seq<SymFreq>, l: seq<nat>)
    requires multiset(s) == multiset(t) && (forall p :: 0 <= p < |s| ==> s[p].sym < |l|) && forall p :: 0 <= p < |t| ==> t[p].sym < |l|
    ensures CodeCost.Dot(Keys(s), Picked(l, s)) == CodeCost.Dot(Keys(t), Picked(l, t))
    decreases |s|
  {
    if s == [] {
      assert |multiset(t)| == 0;
      assert t == [];
    } else {
      var i := FindRest(s, t);
      PickedWithout(s, 0, l);
      PickedWithout(t, i, l);
      assert CodeCost.Without(s, 0) == s[1..];
      SameCost(s[1..], CodeCost.Without(t, i), l);
      hide CodeCost.Dot, CodeCost.Without, Keys, Picked;
      CodeCost.DotWithout(Keys(s), Picked(l, s), 0);
      CodeCost.DotWithout(Keys(t), Picked(l, t), i);
    }
  }

  lemma PickedWithout(t: seq<SymFreq>, i: nat, l: seq<nat>)
    requires i < |t| && forall p :: 0 <= p < |t| ==> t[p].sym < |l|
    ensures forall p :: 0 <= p < |CodeCost.Without(t, i)| ==> CodeCost.Without(t, i)[p].sym < |l|
    ensures Picked(l, CodeCost.Without(t, i)) == CodeCost.Without(Picked(l, t), i)
    ensures Keys(CodeCost.Without(t, i)) == CodeCost.Without(Keys(t), i)
  {
  }

  lemma {:induction false} SameSpace(s: seq<SymFreq>, t: seq<SymFreq>, l: seq<nat>, b: nat)
    requires multiset(s) == multiset(t) && (forall p :: 0 <= p < |s| ==> s[p].sym < |l|) && forall p :: 0 <= p < |t| ==> t[p].sym < |l|
    requires CodeCost.Within(Picked(l, s), b)
    ensures CodeCost.Within(Picked(l, t), b) && CodeCost.Kraft(Picked(l, s), b) == CodeCost.Kraft(Picked(l, t), b)
    decreases |s|
  {
    if s == [] {
      assert |multiset(t)| == 0;
      assert t == [];
    } else {
      var i := FindRest(s, t);
      PickedWithout(s, 0, l);
      PickedWithout(t, i, l);
      assert CodeCost.Without(s, 0) == s[1..];
      assert Picked(l, s)[0] == l[s[0].sym] == Picked(l, t)[i];
      WithinWithout(Picked(l, s), 0, b);
      SameSpace(s[1..], CodeCost.Without(t, i), l, b);
      hide CodeCost.Kraft, Picked;
      WithinBack(Picked(l, t), i, b);
      CodeCost.KraftWithout(Picked(l, s), b, 0);
      CodeCost.KraftWithout(Picked(l, t), b, i);
    }
  }

  lemma WithinWithout(l: seq<nat>, i: nat, b: nat)
    requires i < |l| && CodeCost.Within(l, b)
    ensures CodeCost.Within(CodeCost.Without(l, i), b)
  {
  }

  lemma WithinBack(l: seq<nat>, i: nat, b: nat)
    requires i < |l| && l[i] <= b && CodeCost.Within(CodeCost.Without(l, i), b)
    ensures CodeCost.Within(l, b)
  {
    var m := CodeCost.Without(l, i);
    forall k | 0 <= k < |l| ensures l[k] <= b {
      if k < i {
        assert m[k] == l[k];
      } else if k > i {
        assert m[k - 1] == l[k];
      }
    }
  }

  // The symbols of a table have as many words of each length as the table.
  lemma {:induction false} PickedCount(cs: seq<nat>, syms: seq<SymFreq>, k: nat)
    requires k >= 1 && Distinct(syms, |cs|) && forall x :: 0 <= x < |cs| && cs[x] != 0 ==> exists p :: 0 <= p < |syms| && syms[p].sym == x
    ensures Count(Picked(cs, syms), k) == Count(cs, k)
    decreases |syms|
  {
    if syms == [] {
      CountNone(cs, k);
    } else {
      hide Count;
      var n := |syms| - 1;
      var x, t := syms[n].sym, syms[..n];
      var c := cs[x := 0];
      LastDropped(cs, syms);
      PickedCount(c, t, k);
      CountUpdate(c, x, cs[x], k);
      assert c[x := cs[x]] == cs;
      CountLast(Picked(cs, syms), k);
    }
  }

  lemma CountLast(l: seq<nat>, k: nat)
    requires l != []
    ensures Count(l, k) == Count(l[..|l| - 1], k) + if l[|l| - 1] == k then 1 else 0
  {
  }

  lemma LastDropped(cs: seq<nat>, syms: seq<SymFreq>)
    requires syms != [] && Distinct(syms, |cs|) && forall x :: 0 <= x < |cs| && cs[x] != 0 ==> exists p :: 0 <= p < |syms| && syms[p].sym == x
    ensures var n := |syms| - 1;
            var c := cs[syms[n].sym := 0];
            Distinct(syms[..n], |c|) && Picked(c, syms[..n]) == Picked(cs, syms)[..n] &&
            forall y :: 0 <= y < |c| && c[y] != 0 ==> exists p :: 0 <= p < |syms[..n]| && syms[..n][p].sym == y
  {
    var n := |syms| - 1;
    var c, t := cs[syms[n].sym := 0], syms[..n];
    forall y | 0 <= y < |c| && c[y] != 0 ensures exists p :: 0 <= p < |t| && t[p].sym == y {
      var p :| 0 <= p < |syms| && syms[p].sym == y;
      assert t[p].sym == y;
    }
  }

  predicate Falling(l: seq<nat>) {
    forall i, j :: 0 <= i < j < |l| ==> l[j] <= l[i]
  }

  lemma {:induction false} CountZero(l: seq<nat>, k: nat)
    requires forall i :: 0 <= i < |l| ==> l[i] != k
    ensures Count(l, k) == 0
  {
    if l != [] {
      CountZero(l[..|l| - 1], k);
    }
  }

  // Lengths in falling order are determined by how many there are of each.
  lemma {:induction false} SameLengths(l: seq<nat>, m: seq<nat>)
    requires |l| == |m| && Falling(l) && Falling(m) && (forall i :: 0 <= i < |l| ==> l[i] >= 1 && m[i] >= 1)
    requires forall k :: k >= 1 ==> Count(l, k) == Count(m, k)
    ensures l == m
  {
    hide Count;
    if l != [] {
      var n := |l| - 1;
      LastSame(l, m);
      LastSame(m, l);
      forall k | k >= 1 ensures Count(l[..n], k) == Count(m[..n], k) {
        CountLast(l, k);
        CountLast(m, k);
      }
      SameLengths(l[..n], m[..n]);
      assert l == l[..n] + [l[n]] && m == m[..n] + [m[n]];
    }
  }

  lemma LastSame(l: seq<nat>, m: seq<nat>)
    requires |l| == |m| > 0 && Falling(m) && l[|l| - 1] >= 1 && forall k :: k >= 1 ==> Count(l, k) == Count(m, k)
    ensures l[|l| - 1] >= m[|m| - 1]
  {
    var k := l[|l| - 1];
    hide Count;
    if k < m[|m| - 1] {
      CountZero(m, k);
      CountLast(l, k);
    }
  }

  // The lengths that the sorted symbols have before the limit is looked at cost the least.
  ghost predicate Unlimited(count: seq<u16>, depths: seq<nat>) {
    |count| <= 0x1_0000 && exists s ::
      multiset(s) == multiset(UsedSyms(count, |count|)) && |s| == |depths| && Best(Keys(s), depths)
  }

  // A single word has one bit.
  ghost predicate Best(f: seq<nat>, depths: seq<nat>)
    requires |f| == |depths|
  {
    (|f| > 1 ==> CodeCost.AtLeast(f, CodeCost.Dot(f, depths))) && (|f| == 1 ==> depths[0] == 1)
  }

  lemma GivenIsCheapest(c: seq<u16>, s: seq<SymFreq>, cs: seq<nat>, num: seq<int>, depths: seq<nat>, limit: nat)
    requires |c| == |cs| <= 0x1_0000 && multiset(s) == multiset(UsedSyms(c, |c|)) && Distinct(s, |cs|) && Given(cs, s, 0, limit)
    requires limit < |num| && (forall k :: 1 <= k <= limit ==> Count(cs, k) == num[k] == Count(depths, k)) && |depths| == |s| && Falling(depths)
    requires (forall i :: 0 <= i < |depths| ==> 1 <= depths[i] <= limit) && Best(Keys(s), depths)
    ensures Cheapest(c, cs)
  {
    var e := Picked(cs, s);
    hide Best;
    forall k | k >= 1 ensures Count(e, k) == Count(depths, k) {
      PickedCount(cs, s, k);
      if k > limit {
        CountZero(e, k);
        CountZero(depths, k);
      }
    }
    GivenFalls(cs, s, limit);
    SameLengths(e, depths);
    CheapestSymbols(c, s, cs);
  }

  lemma GivenFalls(cs: seq<nat>, s: seq<SymFreq>, limit: nat)
    requires Distinct(s, |cs|) && Given(cs, s, 0, limit)
    ensures Falling(Picked(cs, s)) && forall i :: 0 <= i < |s| ==> 1 <= Picked(cs, s)[i] <= limit
  {
  }

  lemma CheapestSymbols(c: seq<u16>, s: seq<SymFreq>, cs: seq<nat>)
    requires |c| == |cs| <= 0x1_0000 && multiset(s) == multiset(UsedSyms(c, |c|)) && Distinct(s, |cs|)
    requires Best(Keys(s), Picked(cs, s))
    ensures Cheapest(c, cs)
  {
    hide Cost, HasWords, Best;
    forall l: seq<nat>, b: nat | |l| == |c| && HasWords(c, l, b) ensures Cost(c, cs, |c|) <= Cost(c, l, |c|) {
      CheaperThan(c, s, cs, l, b);
    }
  }

  lemma CheaperThan(c: seq<u16>, s: seq<SymFreq>, cs: seq<nat>, l: seq<nat>, b: nat)
    requires |c| == |cs| == |l| <= 0x1_0000 && multiset(s) == multiset(UsedSyms(c, |c|)) && Distinct(s, |cs|)
    requires Best(Keys(s), Picked(cs, s)) && HasWords(c, l, b)
    ensures Cost(c, cs, |c|) <= Cost(c, l, |c|)
  {
    var u := UsedSyms(c, |c|);
    UsedSymsAre(c, |c|);
    hide UsedSyms, CodeCost.Dot, CodeCost.Kraft, Pow2, Cost, Space, Best;
    CostIs(c, cs, |c|);
    CostIs(c, l, |c|);
    SpaceIs(c, l, b, |c|);
    SameCost(s, u, cs);
    SameCost(s, u, l);
    SameSpace(u, s, l, b);
    SomeBit(c, u, s, l);
    BestCosts(Keys(s), Picked(cs, s), Picked(l, s), b);
  }

  lemma SomeBit(c: seq<u16>, u: seq<SymFreq>, s: seq<SymFreq>, l: seq<nat>)
    requires multiset(s) == multiset(u) && Inside(u, |c|) && Inside(s, |c|) && |l| == |c|
    requires (forall p :: 0 <= p < |u| ==> u[p].key == c[u[p].sym] > 0) && forall x :: 0 <= x < |c| && c[x] != 0 ==> 1 <= l[x]
    ensures forall p :: 0 <= p < |s| ==> Picked(l, s)[p] >= 1
  {
    forall p | 0 <= p < |s| ensures Picked(l, s)[p] >= 1 {
      assert s[p] in multiset(u);
    }
  }

  lemma BestCosts(f: seq<nat>, depths: seq<nat>, l: seq<nat>, b: nat)
    requires |f| == |depths| == |l| && Best(f, depths) && CodeCost.Codable(l, b) && forall p :: 0 <= p < |l| ==> l[p] >= 1
    ensures CodeCost.Dot(f, depths) <= CodeCost.Dot(f, l)
  {
    if |f| == 1 {
      DotOne(f, depths);
      DotOne(f, l);
      GrowsBy(f[0], l[0]);
    }
  }

  // ----- The whole table -----

  // What the lengths of a table have to do with the counts: a code a decoder accepts, a
  // length for every symbol that occurs and no other, shorter for the more frequent.
  ghost predicate GoodLengths(count: seq<u16>, cs: seq<nat>, limit: nat) {
    |cs| == |count| && Acceptable(cs) && (forall x :: 0 <= x < |cs| ==> (cs[x] != 0 <==> count[x] != 0) && cs[x] <= limit) &&
    forall x, y :: 0 <= x < |cs| && 0 <= y < |cs| && 0 < count[x] < count[y] ==> cs[y] <= cs[x]
  }

  method CollectSyms(count: array<u16>, syms: array<SymFreq>) returns (n: nat)
    requires count.Length <= syms.Length && count.Length <= 0x1_0000 && (count as object) != syms
    modifies syms
    ensures n <= syms.Length && syms[..n] == UsedSyms(count[..], count.Length)
  {
    n := 0;
    for i := 0 to count.Length
      invariant n <= i && syms[..n] == UsedSyms(count[..], i)
    {
      if count[i] != 0 {
        assert count[..][i] == count[i];
        syms[n] := RadixSort.SymFreq(count[i], i);
        n := n + 1;
        assert syms[..n] == syms[..n - 1] + [syms[n - 1]];
      }
    }
  }

  // The lengths of the sorted symbols, with the table of how many there are of each. The depths
  // are those of the unlimited code.
  method LimitedLengths(sorted: array<SymFreq>, n: nat, limit: nat) returns (numCodes: array<int>, ghost depths: seq<nat>)
    requires n <= sorted.Length && RadixSort.SortedByKey(sorted[..n]) && 1 <= limit <= MAX_LENGTH && n <= Pow2(limit)
    requires (forall i :: 0 <= i < n ==> sorted[i].key > 0) && CodeCost.Sum(Keys(sorted[..n])) < 0x1_0000
    ensures fresh(numCodes) && numCodes.Length == LengthLimit.MAX_SUPPORTED + 1
    ensures LengthLimit.Natural(numCodes[..], limit) && LengthLimit.Words(numCodes[..], limit) == n
    ensures n > 1 ==> LengthLimit.Share(numCodes[..], limit, limit) == Pow2(limit)
    ensures |depths| == n && Falling(depths) && Best(Keys(sorted[..n]), depths) && forall i :: 0 <= i < n ==> 1 <= depths[i]
    ensures (forall i :: 0 <= i < n ==> depths[i] <= limit) ==> forall k :: 1 <= k <= limit ==> numCodes[k] == Count(depths, k)
  {
    hide CodeCost.AtLeast, CodeCost.Sum, CodeCost.Kraft, LengthLimit.Words, LengthLimit.Share, Pow2, Count;
    var keys := new u16[n](i requires 0 <= i < n <= sorted.Length reads sorted => sorted[i].key);
    ghost var f := Keys(sorted[..n]);
    assert keys[..] == f;
    MinimumRedundancy.CalculateMinimumRedundancy(keys, f);
    depths := keys[..];
    numCodes := CountWords(keys);
    ghost var num := numCodes[..];
    assert keys[..][..n] == keys[..];
    if forall i :: 0 <= i < n ==> depths[i] <= limit {
      NoneLonger(num, depths, limit);
    }
    LengthLimit.EnforceMaxCodeSize(numCodes, n, limit);
    assert LengthLimit.Quiet(num, limit) ==> forall k :: 0 <= k < numCodes.Length ==> numCodes[k] == num[k];
    if n <= 1 {
      LengthLimit.NothingAbove(numCodes[..], limit, LengthLimit.MAX_SUPPORTED);
    }
  }

  lemma NoneLonger(num: seq<int>, depths: seq<nat>, limit: nat)
    requires |num| == LengthLimit.MAX_SUPPORTED + 1 && limit >= 1 && forall i :: 0 <= i < |depths| ==> depths[i] <= limit
    requires forall k :: 1 <= k <= LengthLimit.MAX_SUPPORTED ==> num[k] == Count(depths, k)
    ensures LengthLimit.Quiet(num, limit)
  {
    hide Count;
    forall k | limit < k <= LengthLimit.MAX_SUPPORTED ensures num[k] == 0 {
      CountZero(depths, k);
    }
  }

  // The symbols that occur, sorted by count.
  method SortedSyms(count: array<u16>) returns (sorted: array<SymFreq>, n: nat)
    requires count.Length <= HuffmanTable.MAX_SYMBOLS
    ensures fresh(sorted) && n <= sorted.Length && n == |UsedSyms(count[..], count.Length)|
    ensures RadixSort.SortedByKey(sorted[..n]) && Distinct(sorted[..n], count.Length)
    ensures multiset(sorted[..n]) == multiset(UsedSyms(count[..], count.Length))
    ensures forall x :: x in UsedSyms(count[..], count.Length) <==> x in sorted[..n]
    ensures (forall i :: 0 <= i < n ==> sorted[i].key > 0) && CodeCost.Sum(Keys(sorted[..n])) == Total(count[..])
  {
    hide CodeCost.Sum, Total, UsedSyms, RadixSort.SortedByKey, Distinct;
    var syms0 := new SymFreq[HuffmanTable.MAX_SYMBOLS](_ => RadixSort.SymFreq(0, 0));
    var syms1 := new SymFreq[HuffmanTable.MAX_SYMBOLS](_ => RadixSort.SymFreq(0, 0));
    ghost var c := count[..];
    n := CollectSyms(count, syms0);
    ghost var used := syms0[..n];
    UsedSymsAre(c, |c|);
    KeySum(c, |c|);
    assert c[..|c|] == c;
    sorted := RadixSort.Sort(n, syms0, syms1);
    ghost var s := sorted[..n];
    SameSyms(used, s, |c|);
    SameSum(used, s);
    KeysPositive(c, used, s);
    assert forall i :: 0 <= i < n ==> sorted[i] == s[i];
  }

  // tdefl_optimize_huffman_table for counted symbols.
  method OptimizeTable(count: array<u16>, sizes: array<nat>, codes: array<nat>, limit: nat) returns (ghost depths: seq<nat>)
    requires count.Length == sizes.Length == codes.Length <= HuffmanTable.MAX_SYMBOLS && sizes != codes
    requires (sizes as object) != count && (codes as object) != count
    requires 1 <= limit <= MAX_LENGTH && |UsedSyms(count[..], count.Length)| <= Pow2(limit) && Total(count[..]) < 0x1_0000
    modifies sizes, codes
    ensures GoodLengths(count[..], sizes[..], limit) && Coded(sizes[..], codes[..])
    // nothing is cheaper, unless the limit cuts the lengths that would be the cheapest without it
    ensures Unlimited(count[..], depths)
    ensures (forall i :: 0 <= i < |depths| ==> depths[i] <= limit) ==> Cheapest(count[..], sizes[..])
  {
    hide Pow2, Coded, CodeCost.Sum, LengthLimit.Words, LengthLimit.Share, Total, Acceptable, UsedSyms, Given, Distinct, Count, Cheapest, Unlimited, Falling, Best;
    ghost var c := count[..];
    var sorted, n := SortedSyms(count);
    ghost var s := sorted[..n];
    var numCodes;
    numCodes, depths := LimitedLengths(sorted, n, limit);
    UnlimitedBy(c, s, depths);
    AssignLengths(sorted, n, numCodes, sizes, limit);
    ghost var cs := sizes[..];
    if forall i :: 0 <= i < |depths| ==> depths[i] <= limit {
      GivenIsCheapest(c, s, cs, numCodes[..], depths, limit);
    }
    LengthsAreGood(c, UsedSyms(c, |c|), s, cs, limit);
    GivenAcceptable(s, cs, numCodes[..], limit);
    forall x | 0 <= x < codes.Length {
      codes[x] := 0;
    }
    assert sizes[..] == cs && count[..] == c;
    AssignCodes(sizes, codes, count.Length, limit, numCodes);
  }

  lemma UnlimitedBy(c: seq<u16>, s: seq<SymFreq>, depths: seq<nat>)
    requires |c| <= 0x1_0000 && multiset(s) == multiset(UsedSyms(c, |c|)) && |s| == |depths| && Best(Keys(s), depths)
    ensures Unlimited(c, depths)
  {
  }

  lemma KeysPositive(c: seq<u16>, used: seq<SymFreq>, s: seq<SymFreq>)
    requires multiset(used) == multiset(s) && forall p :: 0 <= p < |used| ==> used[p].key > 0
    ensures forall i :: 0 <= i < |s| ==> s[i].key > 0
  {
    forall i | 0 <= i < |s|
      ensures s[i].key > 0
    {
      assert s[i] in multiset(used);
    }
  }

  lemma LengthsAreGood(c: seq<u16>, used: seq<SymFreq>, s: seq<SymFreq>, cs: seq<nat>, limit: nat)
    requires |c| == |cs| <= 0x1_0000 && Distinct(s, |cs|) && Given(cs, s, 0, limit) && RadixSort.SortedByKey(s)
    requires (forall x :: x in used <==> x in s) && used == UsedSyms(c, |c|)
    ensures forall x :: 0 <= x < |cs| ==> (cs[x] != 0 <==> c[x] != 0) && cs[x] <= limit
    ensures forall x, y :: 0 <= x < |cs| && 0 <= y < |cs| && 0 < c[x] < c[y] ==> cs[y] <= cs[x]
  {
    UsedSymsAre(c, |c|);
    forall x | 0 <= x < |cs|
      ensures (cs[x] != 0 <==> c[x] != 0) && cs[x] <= limit
    {
      if cs[x] != 0 {
        var p :| 0 <= p < |s| && s[p].sym == x;
        assert s[p] in used;
      }
      if c[x] != 0 {
        var p := PlaceOf(s, RadixSort.SymFreq(c[x], x));
      }
    }
    forall x, y | 0 <= x < |cs| && 0 <= y < |cs| && 0 < c[x] < c[y]
      ensures cs[y] <= cs[x]
    {
      var p := PlaceOf(s, RadixSort.SymFreq(c[x], x));
      var q := PlaceOf(s, RadixSort.SymFreq(c[y], y));
    }
  }

  lemma PlaceOf(s: seq<SymFreq>, x: SymFreq) returns (p: nat)
    requires x in s
    ensures p < |s| && s[p] == x
  {
    p :| 0 <= p < |s| && s[p] == x;
  }

  lemma GivenAcceptable(s: seq<SymFreq>, cs: seq<nat>, num: seq<int>, limit: nat)
    requires Distinct(s, |cs|) && Given(cs, s, 0, limit) && 1 <= limit <= MAX_LENGTH && limit < |num|
    requires (forall k :: 1 <= k <= limit ==> Count(cs, k) == num[k])
    requires |s| > 1 ==> LengthLimit.Share(num, limit, limit) == Pow2(limit)
    ensures Acceptable(cs) && forall i :: 0 <= i < |cs| ==> cs[i] <= limit
  {
    hide Count, Pow2, LengthLimit.Share;
    forall i | 0 <= i < |cs|
      ensures cs[i] <= limit
    {
      if cs[i] != 0 {
        var p :| 0 <= p < |s| && s[p].sym == i;
      }
    }
    if |s| > 1 {
      FullIsComplete(cs, num, limit);
    } else {
      forall i: nat, j: nat | Used(cs, i) && Used(cs, j)
        ensures i == j
      {
        var p :| 0 <= p < |s| && s[p].sym == i;
        var q :| 0 <= q < |s| && s[q].sym == j;
      }
    }
  }

  // tdefl_optimize_huffman_table for a table whose lengths are given.
  method StaticTable(sizes: array<nat>, codes: array<nat>)
    requires sizes.Length == codes.Length && sizes != codes && Lengths(sizes[..])
    modifies codes
    ensures Coded(sizes[..], codes[..])
  {
    ghost var cs := sizes[..];
    var numCodes := new int[LengthLimit.MAX_SUPPORTED + 1](_ => 0);
    HuffmanTable.NothingCounted();
    assert cs[..0] == [];
    hide Count;
    for i := 0 to sizes.Length
      invariant forall k :: 1 <= k <= MAX_LENGTH ==> numCodes[k] == Count(cs[..i], k)
    {
      HuffmanTable.CountStep(cs, i);
      assert sizes[i] == cs[i];
      numCodes[sizes[i]] := numCodes[sizes[i]] + 1;
    }
    assert cs[..sizes.Length] == cs;
    AssignCodes(sizes, codes, sizes.Length, MAX_LENGTH, numCodes);
  }
}
