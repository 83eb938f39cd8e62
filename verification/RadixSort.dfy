// The compressor's radix sort of symbols by frequency: two counting passes, the second
// left out when no frequency needs it.

module RadixSort {
  import opened CodeCost
  import opened Ints

  datatype SymFreq = SymFreq(key: u16, sym: u16)

  // The digit a pass sorts by.
  function Digit(x: SymFreq, pass: nat): (d: nat)
    requires pass < 2
    ensures d < 256
  {
    if pass == 0 then x.key % 256 else x.key / 256
  }

  // The elements with digit d, in order.
  function Bucket(s: seq<SymFreq>, pass: nat, d: nat): seq<SymFreq>
    requires pass < 2
  {
    if s == [] then []
    else Bucket(s[..|s| - 1], pass, d) + if Digit(s[|s| - 1], pass) == d then [s[|s| - 1]] else []
  }

  // All elements with digits below d, bucket by bucket.
  function Buckets(s: seq<SymFreq>, pass: nat, d: nat): seq<SymFreq>
    requires pass < 2
  {
    if d == 0 then [] else Buckets(s, pass, d - 1) + Bucket(s, pass, d - 1)
  }

  function Offset(s: seq<SymFreq>, pass: nat, d: nat): nat
    requires pass < 2
  {
    |Buckets(s, pass, d)|
  }

  // ----- Nothing is lost -----

  lemma {:induction false} BucketsNone(pass: nat, d: nat)
    requires pass < 2
    ensures Buckets([], pass, d) == []
  {
    if d > 0 {
      BucketsNone(pass, d - 1);
    }
  }

  // One more element goes to the end of its bucket.
  lemma BucketMore(s: seq<SymFreq>, x: SymFreq, pass: nat, d: nat)
    requires pass < 2
    ensures Bucket(s + [x], pass, d) == Bucket(s, pass, d) + OnlyIf(x, Digit(x, pass) == d)
  {
    assert (s + [x])[..|s|] == s;
  }

  lemma Joined(xs': seq<SymFreq>, xs: seq<SymFreq>, ys: seq<SymFreq>, d: seq<SymFreq>, e: seq<SymFreq>)
    requires multiset(xs') == multiset(xs) + multiset(d)
    ensures multiset(xs' + (ys + e)) == multiset(xs + ys) + multiset(d + e)
  {
  }

  // x, if it belongs there
  function OnlyIf(x: SymFreq, belongs: bool): seq<SymFreq> {
    if belongs then [x] else []
  }

  lemma OnlyOnce(x: SymFreq, n: nat, d: nat)
    requires d > 0
    ensures OnlyIf(x, n < d - 1) + OnlyIf(x, n == d - 1) == OnlyIf(x, n < d)
    ensures |OnlyIf(x, n < d)| == if n < d then 1 else 0
  {
  }

  lemma {:induction false} BucketsMore(s: seq<SymFreq>, x: SymFreq, pass: nat, d: nat)
    requires pass < 2
    ensures multiset(Buckets(s + [x], pass, d)) == multiset(Buckets(s, pass, d)) + multiset(OnlyIf(x, Digit(x, pass) < d))
    ensures |Buckets(s + [x], pass, d)| == |Buckets(s, pass, d)| + (if Digit(x, pass) < d then 1 else 0)
  {
    if d > 0 {
      BucketsMore(s, x, pass, d - 1);
      BucketMore(s, x, pass, d - 1);
      hide Bucket, Digit, OnlyIf;
      var n := Digit(x, pass);
      OnlyOnce(x, n, d);
      if d > 1 { OnlyOnce(x, n, d - 1); }
      Joined(Buckets(s + [x], pass, d - 1), Buckets(s, pass, d - 1), Bucket(s, pass, d - 1), OnlyIf(x, n < d - 1), OnlyIf(x, n == d - 1));
    }
  }

  lemma {:induction false} BucketsAll(s: seq<SymFreq>, pass: nat)
    requires pass < 2
    ensures multiset(Buckets(s, pass, 256)) == multiset(s) && |Buckets(s, pass, 256)| == |s|
  {
    if s == [] {
      BucketsNone(pass, 256);
    } else {
      var t, x := s[..|s| - 1], s[|s| - 1];
      assert s == t + [x];
      BucketsAll(t, pass);
      BucketsMore(t, x, pass, 256);
    }
  }

  lemma {:induction false} OffsetMonotone(s: seq<SymFreq>, pass: nat, c: nat, d: nat)
    requires pass < 2 && c <= d
    ensures Offset(s, pass, c) <= Offset(s, pass, d)
    decreases d
  {
    if c < d {
      OffsetMonotone(s, pass, c, d - 1);
    }
  }

  lemma {:induction false} BucketGrows(s: seq<SymFreq>, i: nat, pass: nat, d: nat)
    requires pass < 2 && i <= |s|
    ensures |Bucket(s[..i], pass, d)| + (if i < |s| && Digit(s[i], pass) == d then 1 else 0) <= |Bucket(s, pass, d)|
    decreases |s|
  {
    if i == |s| {
      assert s[..i] == s;
    } else {
      var t := s[..|s| - 1];
      if i < |s| - 1 {
        BucketGrows(t, i, pass, d);
        assert t[..i] == s[..i];
      } else {
        assert s[..i] == t;
      }
    }
  }

  // Where the elements with digit d end up.
  lemma {:induction false} BucketPlace(s: seq<SymFreq>, pass: nat, d: nat, n: nat)
    requires pass < 2 && d < n
    ensures Offset(s, pass, d + 1) == Offset(s, pass, d) + |Bucket(s, pass, d)| <= Offset(s, pass, n)
    ensures Buckets(s, pass, n)[Offset(s, pass, d)..Offset(s, pass, d + 1)] == Bucket(s, pass, d)
    decreases n
  {
    if n == d + 1 {
      assert Buckets(s, pass, n) == Buckets(s, pass, d) + Bucket(s, pass, d);
    } else {
      BucketPlace(s, pass, d, n - 1);
      assert Buckets(s, pass, n) == Buckets(s, pass, n - 1) + Bucket(s, pass, n - 1);
    }
  }

  // ----- Order -----

  predicate SortedByLow(s: seq<SymFreq>) {
    forall i, j :: 0 <= i < j < |s| ==> Digit(s[i], 0) <= Digit(s[j], 0)
  }

  predicate SortedByKey(s: seq<SymFreq>) {
    forall i, j :: 0 <= i < j < |s| ==> s[i].key <= s[j].key
  }

  lemma {:induction false} BucketDigit(s: seq<SymFreq>, pass: nat, d: nat)
    requires pass < 2
    ensures forall k :: 0 <= k < |Bucket(s, pass, d)| ==> Digit(Bucket(s, pass, d)[k], pass) == d
  {
    if s != [] {
      BucketDigit(s[..|s| - 1], pass, d);
    }
  }

  // Picking out a bucket keeps the order.
  lemma {:induction false} BucketSorted(s: seq<SymFreq>, d: nat)
    requires SortedByLow(s)
    ensures SortedByLow(Bucket(s, 1, d))
    ensures s != [] ==> forall k :: 0 <= k < |Bucket(s, 1, d)| ==> Digit(Bucket(s, 1, d)[k], 0) <= Digit(s[|s| - 1], 0)
  {
    if s != [] {
      BucketSorted(s[..|s| - 1], d);
    }
  }

  // The first pass sorts by the low digit.
  lemma {:induction false} FirstPass(s: seq<SymFreq>, d: nat)
    requires d <= 256
    ensures SortedByLow(Buckets(s, 0, d))
    ensures forall k :: 0 <= k < |Buckets(s, 0, d)| ==> Digit(Buckets(s, 0, d)[k], 0) < d
  {
    if d > 0 {
      FirstPass(s, d - 1);
      BucketDigit(s, 0, d - 1);
    }
  }

  // Sorted by the low digit, then put into buckets of the high digit, is sorted.
  lemma {:induction false} SecondPass(s: seq<SymFreq>, d: nat)
    requires d <= 256 && SortedByLow(s)
    ensures SortedByKey(Buckets(s, 1, d))
    ensures forall k :: 0 <= k < |Buckets(s, 1, d)| ==> Digit(Buckets(s, 1, d)[k], 1) < d
  {
    if d > 0 {
      SecondPass(s, d - 1);
      BucketSorted(s, d - 1);
      BucketDigit(s, 1, d - 1);
      BucketAfter(Buckets(s, 1, d - 1), Bucket(s, 1, d - 1), d - 1);
    }
  }

  lemma BucketAfter(a: seq<SymFreq>, b: seq<SymFreq>, d: nat)
    requires SortedByKey(a) && SortedByLow(b)
    requires (forall k :: 0 <= k < |a| ==> Digit(a[k], 1) < d) && forall k :: 0 <= k < |b| ==> Digit(b[k], 1) == d
    ensures SortedByKey(a + b)
  {
    forall i, j | 0 <= i < j < |b|
      ensures b[i].key <= b[j].key
    {
      assert Digit(b[i], 0) <= Digit(b[j], 0);
    }
    forall i, j | 0 <= i < |a| && 0 <= j < |b|
      ensures a[i].key <= b[j].key
    {
      assert Digit(a[i], 1) < Digit(b[j], 1);
    }
  }

  // ----- The passes -----

  // How many elements have each digit; the source counts both passes in one table.
  method Histogram(syms: array<SymFreq>, n: nat) returns (hist: array<nat>)
    requires n <= syms.Length
    ensures fresh(hist) && hist.Length == 512
    ensures forall d :: 0 <= d < 256 ==> hist[d] == |Bucket(syms[..n], 0, d)| && hist[256 + d] == |Bucket(syms[..n], 1, d)|
  {
    hist := new nat[512](_ => 0);
    ghost var s := syms[..n];
    assert s[..0] == [];
    for i := 0 to n
      invariant s == syms[..n]
      invariant forall d :: 0 <= d < 256 ==> hist[d] == |Bucket(s[..i], 0, d)| && hist[256 + d] == |Bucket(s[..i], 1, d)|
    {
      var freq := syms[i].key;
      assert s[..i + 1][..i] == s[..i] && s[i] == syms[i];
      hist[freq % 256] := hist[freq % 256] + 1;
      hist[256 + freq / 256] := hist[256 + freq / 256] + 1;
    }
    assert s[..n] == s;
  }

  method Offsets(hist: array<nat>, pass: nat, ghost s: seq<SymFreq>) returns (offsets: array<nat>)
    requires pass < 2 && hist.Length == 512 && forall d :: 0 <= d < 256 ==> hist[256 * pass + d] == |Bucket(s, pass, d)|
    ensures fresh(offsets) && offsets.Length == 256 && forall d :: 0 <= d < 256 ==> offsets[d] == Offset(s, pass, d)
  {
    offsets := new nat[256](_ => 0);
    var curOfs := 0;
    for i := 0 to 256
      invariant curOfs == Offset(s, pass, i) && forall d :: 0 <= d < i ==> offsets[d] == Offset(s, pass, d)
    {
      offsets[i] := curOfs;
      curOfs := curOfs + hist[256 * pass + i];
    }
  }

  // The bucket of digit d holds the first elements with that digit.
  ghost predicate Filled(v: seq<SymFreq>, s: seq<SymFreq>, pass: nat, d: nat, i: nat)
    requires pass < 2 && i <= |s|
  {
    var o, b := Offset(s, pass, d), Bucket(s[..i], pass, d);
    o + |b| <= |v| && v[o..o + |b|] == b
  }

  lemma FilledStart(v: seq<SymFreq>, s: seq<SymFreq>, pass: nat, d: nat)
    requires pass < 2 && d < 256 && |v| == |s|
    ensures Filled(v, s, pass, d, 0)
  {
    assert s[..0] == [];
    BucketsAll(s, pass);
    OffsetMonotone(s, pass, d, 256);
  }

  lemma FilledStep(v: seq<SymFreq>, s: seq<SymFreq>, pass: nat, d: nat, i: nat, p: nat)
    requires pass < 2 && d < 256 && i < |s| == |v| && Filled(v, s, pass, d, i)
    requires var c := Digit(s[i], pass); p == Offset(s, pass, c) + |Bucket(s[..i], pass, c)| < |v|
    ensures Filled(v[p := s[i]], s, pass, d, i + 1)
  {
    hide Bucket, Buckets, Digit, Filled, Offset;
    var c := Digit(s[i], pass);
    BucketNext(s, i, pass, d);
    DigitSmall(s[i], pass);
    BucketGrows(s, i, pass, c);
    BucketPlace(s, pass, c, 256);
    BucketGrows(s, i, pass, d);
    BucketPlace(s, pass, d, 256);
    if d < c {
      OffsetMonotone(s, pass, d + 1, c);
    } else if c < d {
      OffsetMonotone(s, pass, c + 1, d);
    }
    FilledParts(v, s, pass, d, i);
    SliceStep(v, p, s[i], Offset(s, pass, d), Bucket(s[..i], pass, d), c == d);
    FilledFrom(v[p := s[i]], s, pass, d, i + 1);
  }

  lemma DigitSmall(x: SymFreq, pass: nat)
    requires pass < 2
    ensures Digit(x, pass) < 256
  {
  }

  lemma FilledParts(v: seq<SymFreq>, s: seq<SymFreq>, pass: nat, d: nat, i: nat)
    requires pass < 2 && i <= |s| && Filled(v, s, pass, d, i)
    ensures var o, b := Offset(s, pass, d), Bucket(s[..i], pass, d); o + |b| <= |v| && v[o..o + |b|] == b
  {
  }

  lemma FilledFrom(v: seq<SymFreq>, s: seq<SymFreq>, pass: nat, d: nat, i: nat)
    requires pass < 2 && i <= |s|
    requires var o, b := Offset(s, pass, d), Bucket(s[..i], pass, d); o + |b| <= |v| && v[o..o + |b|] == b
    ensures Filled(v, s, pass, d, i)
  {
  }

  lemma SliceStep(v: seq<SymFreq>, p: nat, x: SymFreq, o: nat, b: seq<SymFreq>, here: bool)
    requires p < |v| && o + |b| <= |v| && v[o..o + |b|] == b
    requires if here then p == o + |b| else p < o || p >= o + |b|
    ensures var b' := b + if here then [x] else []; o + |b'| <= |v| && v[p := x][o..o + |b'|] == b'
  {
  }

  lemma BucketNext(s: seq<SymFreq>, i: nat, pass: nat, d: nat)
    requires pass < 2 && i < |s|
    ensures Bucket(s[..i + 1], pass, d) == Bucket(s[..i], pass, d) + if Digit(s[i], pass) == d then [s[i]] else []
  {
    assert s[..i + 1][..i] == s[..i];
  }

  lemma {:induction false} AllFilled(v: seq<SymFreq>, s: seq<SymFreq>, pass: nat, n: nat)
    requires pass < 2 && n <= 256 && |v| == |s| && forall d :: 0 <= d < 256 ==> Filled(v, s, pass, d, |s|)
    ensures Offset(s, pass, n) <= |v| && v[..Offset(s, pass, n)] == Buckets(s, pass, n)
  {
    if n > 0 {
      AllFilled(v, s, pass, n - 1);
      assert Filled(v, s, pass, n - 1, |s|) && s[..|s|] == s;
      BucketPlace(s, pass, n - 1, n);
      var o, p := Offset(s, pass, n - 1), Offset(s, pass, n);
      assert v[..p] == v[..o] + v[o..p];
    }
  }

  // One pass: every element goes to the next free place of its bucket.
  method Pass(cur: array<SymFreq>, next: array<SymFreq>, n: nat, pass: nat, hist: array<nat>)
    requires cur != next && n <= cur.Length && n <= next.Length && pass < 2 && hist.Length == 512
    requires forall d :: 0 <= d < 256 ==> hist[256 * pass + d] == |Bucket(cur[..n], pass, d)|
    modifies next
    ensures next[..n] == Buckets(cur[..n], pass, 256)
  {
    ghost var s := cur[..n];
    var offsets := Offsets(hist, pass, s);
    BucketsAll(s, pass);
    assert s[..0] == [];
    forall d | 0 <= d < 256
      ensures Filled(next[..n], s, pass, d, 0)
    {
      FilledStart(next[..n], s, pass, d);
    }
    hide Buckets, Filled, Offset;
    for i := 0 to n
      invariant s == cur[..n]
      invariant forall d :: 0 <= d < 256 ==> offsets[d] == Offset(s, pass, d) + |Bucket(s[..i], pass, d)|
      invariant forall d :: 0 <= d < 256 ==> Filled(next[..n], s, pass, d, i)
    {
      var c := Digit(cur[i], pass);
      assert s[i] == cur[i];
      Place(s, i, pass);
      var p := offsets[c];
      ghost var v := next[..n];
      next[p] := cur[i];
      offsets[c] := p + 1;
      assert next[..n] == v[p := s[i]];
      forall d | 0 <= d < 256
        ensures Filled(next[..n], s, pass, d, i + 1)
        ensures offsets[d] == Offset(s, pass, d) + |Bucket(s[..i + 1], pass, d)|
      {
        FilledStep(v, s, pass, d, i, p);
        BucketNext(s, i, pass, d);
      }
    }
    AllFilled(next[..n], s, pass, 256);
    WholeOffset(s, pass);
    assert next[..n][..n] == next[..n];
  }

  lemma Place(s: seq<SymFreq>, i: nat, pass: nat)
    requires pass < 2 && i < |s|
    ensures Offset(s, pass, Digit(s[i], pass)) + |Bucket(s[..i], pass, Digit(s[i], pass))| < |s|
  {
    BucketGrows(s, i, pass, Digit(s[i], pass));
    BucketPlace(s, pass, Digit(s[i], pass), 256);
    BucketsAll(s, pass);
  }

  lemma WholeOffset(s: seq<SymFreq>, pass: nat)
    requires pass < 2
    ensures Offset(s, pass, 256) == |s|
  {
    BucketsAll(s, pass);
  }

  // With every high digit zero the low digit is the key.
  lemma LowIsKey(s: seq<SymFreq>, t: seq<SymFreq>)
    requires |Bucket(s, 1, 0)| == |s| && multiset(t) == multiset(s) && SortedByLow(t)
    ensures SortedByKey(t)
  {
    AllInBucket(s);
    forall i | 0 <= i < |t|
      ensures t[i].key < 256
    {
      assert t[i] in multiset(s);
    }
  }

  lemma {:induction false} BucketShort(s: seq<SymFreq>, d: nat)
    ensures |Bucket(s, 1, d)| <= |s|
  {
    if s != [] {
      BucketShort(s[..|s| - 1], d);
    }
  }

  lemma {:induction false} AllInBucket(s: seq<SymFreq>)
    requires |Bucket(s, 1, 0)| == |s|
    ensures forall i :: 0 <= i < |s| ==> s[i].key < 256
  {
    if s != [] {
      BucketShort(s[..|s| - 1], 0);
      AllInBucket(s[..|s| - 1]);
    }
  }

  lemma {:induction false} BucketWithout(s: seq<SymFreq>, i: nat, pass: nat, d: nat)
    requires pass < 2 && i < |s|
    ensures |Bucket(s, pass, d)| == |Bucket(Without(s, i), pass, d)| + (if Digit(s[i], pass) == d then 1 else 0)
    decreases |s|
  {
    var t, w := s[..|s| - 1], Without(s, i);
    if i == |s| - 1 {
      assert w == t;
    } else {
      BucketWithout(t, i, pass, d);
      assert w[..|w| - 1] == Without(t, i) && w[|w| - 1] == s[|s| - 1];
    }
  }

  // Bucket sizes do not depend on the order.
  lemma {:induction false} SameBuckets(s: seq<SymFreq>, t: seq<SymFreq>, pass: nat, d: nat)
    requires pass < 2 && multiset(s) == multiset(t)
    ensures |Bucket(s, pass, d)| == |Bucket(t, pass, d)|
    decreases |s|
  {
    if s == [] {
      assert |multiset(t)| == 0;
    } else {
      var r, x := s[..|s| - 1], s[|s| - 1];
      assert s == r + [x] && x in multiset(t);
      var i :| 0 <= i < |t| && t[i] == x;
      assert t == t[..i] + ([t[i]] + t[i + 1..]);
      assert multiset(Without(t, i)) == multiset(t) - multiset{x};
      SameBuckets(r, Without(t, i), pass, d);
      BucketWithout(t, i, pass, d);
    }
  }

  // tdefl_radix_sort_syms: the symbols sorted by frequency, none lost.
  method Sort(numSyms: nat, syms0: array<SymFreq>, syms1: array<SymFreq>) returns (sorted: array<SymFreq>)
    requires syms0 != syms1 && numSyms <= syms0.Length && numSyms <= syms1.Length
    modifies syms0, syms1
    ensures sorted == syms0 || sorted == syms1
    ensures multiset(sorted[..numSyms]) == multiset(old(syms0[..numSyms])) && SortedByKey(sorted[..numSyms])
  {
    ghost var s := syms0[..numSyms];
    var hist := Histogram(syms0, numSyms);
    var totalPasses := 2;
    while totalPasses > 1 && numSyms == hist[(totalPasses - 1) * 256]
      invariant 1 <= totalPasses <= 2 && (totalPasses == 1 ==> numSyms == hist[256])
    {
      totalPasses := totalPasses - 1;
    }
    Pass(syms0, syms1, numSyms, 0, hist);
    ghost var t := syms1[..numSyms];
    BucketsAll(s, 0);
    FirstPass(s, 256);
    if totalPasses == 1 {
      LowIsKey(s, t);
      return syms1;
    }
    forall d | 0 <= d < 256
      ensures hist[256 + d] == |Bucket(t, 1, d)|
    {
      SameBuckets(s, t, 1, d);
    }
    Pass(syms1, syms0, numSyms, 1, hist);
    BucketsAll(t, 1);
    SecondPass(t, 256);
    return syms0;
  }
}
