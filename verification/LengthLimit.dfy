// Limiting the code lengths: words that are too long are shortened to the limit, and
// shorter ones lengthened until the code space is filled exactly again.

module LengthLimit {
  import opened Bits

  const MAX_SUPPORTED: nat := 32

  // How many words there are of each length from 1 to hi.
  function Words(num: seq<int>, hi: nat): int
    requires hi < |num|
  {
    if hi == 0 then 0 else Words(num, hi - 1) + num[hi]
  }

  // Their share of the code space, in units of 2^-m.
  function Share(num: seq<int>, hi: nat, m: nat): int
    requires hi < |num| && hi <= m
  {
    if hi == 0 then 0 else Share(num, hi - 1, m) + num[hi] * Pow2(m - hi)
  }

  predicate Natural(num: seq<int>, hi: nat)
    requires hi < |num|
  {
    forall i :: 1 <= i <= hi ==> num[i] >= 0
  }

  lemma {:induction false} WordsUpdate(num: seq<int>, hi: nat, i: nat, v: int)
    requires hi < |num| && 1 <= i < |num|
    ensures Words(num[i := v], hi) == Words(num, hi) + (if i <= hi then v - num[i] else 0)
  {
    if hi > 0 {
      WordsUpdate(num, hi - 1, i, v);
    }
  }

  lemma {:induction false} ShareUpdate(num: seq<int>, hi: nat, m: nat, i: nat, v: int)
    requires hi < |num| && hi <= m && 1 <= i < |num|
    ensures Share(num[i := v], hi, m) == Share(num, hi, m) + (if i <= hi then (v - num[i]) * Pow2(m - i) else 0)
  {
    if hi > 0 {
      ShareUpdate(num, hi - 1, m, i, v);
      if i == hi {
        assert (v - num[i]) * Pow2(m - i) == v * Pow2(m - i) - num[i] * Pow2(m - i);
      }
    }
  }

  // A finer unit.
  lemma {:induction false} ShareScaled(num: seq<int>, hi: nat, m: nat, k: nat)
    requires hi < |num| && hi <= m
    ensures Share(num, hi, m + k) == Share(num, hi, m) * Pow2(k)
  {
    if hi > 0 {
      ShareScaled(num, hi - 1, m, k);
      Pow2Sum(m - hi, k);
      Scaled(Share(num, hi - 1, m), num[hi], Pow2(m - hi), Pow2(k));
    }
  }

  lemma Scaled(s: int, c: int, p: nat, q: nat)
    ensures (s + c * p) * q == s * q + c * (p * q)
  {
    assert (s + c * p) * q == s * q + (c * p) * q;
  }

  // Words above the limit take less than a unit each.
  lemma {:induction false} LongShare(num: seq<int>, lo: nat, hi: nat, m: nat)
    requires lo <= hi < |num| && hi <= m && Natural(num, hi)
    ensures Words(num, hi) - Words(num, lo) >= 0
    ensures var s := Share(num, hi, m) - Share(num, lo, m); var c := Words(num, hi) - Words(num, lo);
            0 <= s && (c == 0 ==> s == 0) && (c > 0 ==> s > 0 && s < c * Pow2(m - lo))
    decreases hi
  {
    if lo < hi {
      LongShare(num, lo, hi - 1, m);
      hide Pow2;
      var c, d, p := Words(num, hi - 1) - Words(num, lo), num[hi], Pow2(m - lo);
      Pow2Monotone(m - hi, m - lo - 1);
      TwicePow2(m - lo);
      Pow2Positive(m - hi);
      hide Words, Natural;
      Fewer(d, Pow2(m - hi), p);
      Summed(c, d, p);
    }
  }

  lemma Summed(c: int, d: int, p: int)
    ensures (c + d) * p == c * p + d * p
  {
  }

  lemma TwicePow2(n: nat)
    requires n > 0
    ensures Pow2(n) == 2 * Pow2(n - 1)
  {
  }

  lemma Fewer(d: nat, q: nat, p: nat)
    requires 1 <= q < p
    ensures d == 0 ==> d * q == 0 && d * p == 0
    ensures d > 0 ==> 0 < d * q < d * p
  {
    if d > 0 {
      assert d * p - d * q == d * (p - q);
      assert d * (p - q) >= p - q by { GrowsBy(p - q, d); }
      GrowsBy(q, d);
    }
  }

  // With every word as long as the limit, the share is the number of words.
  lemma {:induction false} AllLongest(num: seq<int>, hi: nat, m: nat)
    requires hi < |num| && hi <= m && forall i :: 1 <= i <= hi ==> num[i] == 0
    ensures Share(num, hi, m) == 0 && Words(num, hi) == 0
  {
    if hi > 0 {
      AllLongest(num, hi - 1, m);
    }
  }

  lemma {:induction false} SameWords(a: seq<int>, b: seq<int>, hi: nat, m: nat)
    requires |a| == |b| && hi < |a| && hi <= m && forall i :: 1 <= i <= hi ==> a[i] == b[i]
    ensures Words(a, hi) == Words(b, hi) && Share(a, hi, m) == Share(b, hi, m)
  {
    if hi > 0 {
      SameWords(a, b, hi - 1, m);
    }
  }

  // The first loop: words longer than the limit count at the limit.
  method Fold(numCodes: array<int>, max: nat)
    requires numCodes.Length == MAX_SUPPORTED + 1 && 1 <= max <= MAX_SUPPORTED && Natural(numCodes[..], MAX_SUPPORTED)
    modifies numCodes
    ensures Natural(numCodes[..], MAX_SUPPORTED) && forall k :: 1 <= k <= max - 1 ==> numCodes[k] == old(numCodes[k])
    ensures Words(numCodes[..], max) == Words(old(numCodes[..]), MAX_SUPPORTED)
    ensures numCodes[max] == old(numCodes[max]) + Words(old(numCodes[..]), MAX_SUPPORTED) - Words(old(numCodes[..]), max)
    ensures forall k :: 0 <= k < numCodes.Length && k != max ==> numCodes[k] == old(numCodes[k])
  {
    ghost var num := numCodes[..];
    for i := max + 1 to MAX_SUPPORTED + 1
      invariant forall k :: 0 <= k < numCodes.Length && k != max ==> numCodes[k] == num[k]
      invariant numCodes[max] == num[max] + Words(num, i - 1) - Words(num, max) >= 0
    {
      numCodes[max] := numCodes[max] + numCodes[i];
    }
    SameWords(numCodes[..], num, max - 1, max);
  }

  lemma {:induction false} NothingAbove(num: seq<int>, lo: nat, hi: nat)
    requires lo <= hi < |num| && forall k :: lo < k <= hi ==> num[k] == 0
    ensures Words(num, lo) == Words(num, hi)
    decreases hi
  {
    if lo < hi {
      NothingAbove(num, lo, hi - 1);
    }
  }

  // The second loop: the share the words take now.
  method Total(numCodes: array<int>, max: nat) returns (total: int)
    requires numCodes.Length == MAX_SUPPORTED + 1 && 1 <= max <= MAX_SUPPORTED
    ensures total == Share(numCodes[..], max, max)
  {
    total := 0;
    ghost var num := numCodes[..];
    var i := max;
    while i > 0
      invariant i <= max && total + Share(num, i, max) == Share(num, max, max) && num == numCodes[..]
    {
      total := total + numCodes[i] * Pow2(max - i);
      i := i - 1;
    }
  }

  // One repair: a word of the greatest length goes, and a shorter one makes room for two.
  method Repair(numCodes: array<int>, max: nat)
    requires numCodes.Length == MAX_SUPPORTED + 1 && 1 <= max <= MAX_SUPPORTED && Natural(numCodes[..], max)
    requires numCodes[max] >= 1 && exists i :: 1 <= i < max && numCodes[i] > 0
    modifies numCodes
    ensures Natural(numCodes[..], max) && numCodes[max] >= old(numCodes[max]) - 1
    ensures Words(numCodes[..], max) == Words(old(numCodes[..]), max)
    ensures Share(numCodes[..], max, max) == Share(old(numCodes[..]), max, max) - 1
  {
    ghost var num := numCodes[..];
    numCodes[max] := numCodes[max] - 1;
    ghost var num1 := num[max := num[max] - 1];
    var i := max - 1;
    while i > 0
      invariant 0 <= i < max && numCodes[..] == num1 && forall k :: i < k < max ==> num[k] == 0
    {
      if numCodes[i] != 0 {
        ghost var num2 := num1[i := num1[i] - 1];
        numCodes[i] := numCodes[i] - 1;
        numCodes[i + 1] := numCodes[i + 1] + 2;
        assert numCodes[..] == num2[i + 1 := num2[i + 1] + 2];
        WordsUpdate(num, max, max, num[max] - 1);
        WordsUpdate(num1, max, i, num1[i] - 1);
        WordsUpdate(num2, max, i + 1, num2[i + 1] + 2);
        ShareUpdate(num, max, max, max, num[max] - 1);
        ShareUpdate(num1, max, max, i, num1[i] - 1);
        ShareUpdate(num2, max, max, i + 1, num2[i + 1] + 2);
        assert Pow2(max - i) == 2 * Pow2(max - (i + 1));
        break;
      }
      i := i - 1;
    }
  }

  // No word is longer than the limit.
  predicate Quiet(num: seq<int>, max: nat) {
    |num| == MAX_SUPPORTED + 1 && forall k :: max < k <= MAX_SUPPORTED ==> num[k] == 0
  }

  // The folded counts take at least the whole space.
  method FoldAll(numCodes: array<int>, max: nat)
    requires numCodes.Length == MAX_SUPPORTED + 1 && 1 <= max <= MAX_SUPPORTED && Natural(numCodes[..], MAX_SUPPORTED)
    requires Share(numCodes[..], MAX_SUPPORTED, MAX_SUPPORTED) == Pow2(MAX_SUPPORTED)
    modifies numCodes
    ensures Natural(numCodes[..], max) && Words(numCodes[..], max) == Words(old(numCodes[..]), MAX_SUPPORTED)
    ensures var total := Share(numCodes[..], max, max); total >= Pow2(max) && (total - Pow2(max) < numCodes[max] || total == Pow2(max))
    ensures Quiet(old(numCodes[..]), max) ==> numCodes[..] == old(numCodes[..]) && Share(numCodes[..], max, max) == Pow2(max)
  {
    hide Share, Words, Pow2;
    ghost var num := numCodes[..];
    if Quiet(num, max) {
      NothingAbove(num, max, MAX_SUPPORTED);
    }
    Fold(numCodes, max);
    Excess(num, numCodes[..], max);
    if Quiet(num, max) {
      assert numCodes[..] == num;
    }
  }

  // tdefl_huffman_enforce_max_code_size: it ends, keeps the number of words and every count
  // natural, and leaves a code space that is exactly full.
  method EnforceMaxCodeSize(numCodes: array<int>, codeListLen: nat, max: nat)
    requires numCodes.Length == MAX_SUPPORTED + 1 && 1 <= max <= MAX_SUPPORTED && Natural(numCodes[..], MAX_SUPPORTED)
    requires Words(numCodes[..], MAX_SUPPORTED) == codeListLen <= Pow2(max)
    requires codeListLen > 1 ==> Share(numCodes[..], MAX_SUPPORTED, MAX_SUPPORTED) == Pow2(MAX_SUPPORTED)
    modifies numCodes
    ensures codeListLen <= 1 ==> numCodes[..] == old(numCodes[..])
    ensures codeListLen > 1 ==> Natural(numCodes[..], max) && Words(numCodes[..], max) == codeListLen &&
                                Share(numCodes[..], max, max) == Pow2(max)
    // counts within the limit stay as they are
    ensures Quiet(old(numCodes[..]), max) ==> numCodes[..] == old(numCodes[..])
  {
    if codeListLen <= 1 {
      return;
    }
    hide Share, Words, Pow2, Natural, Quiet;
    ghost var num := numCodes[..];
    FoldAll(numCodes, max);
    var total := Total(numCodes, max);
    while total != Pow2(max)
      invariant Natural(numCodes[..], max) && Words(numCodes[..], max) == codeListLen
      invariant Quiet(num, max) ==> numCodes[..] == num && total == Pow2(max)
      invariant total == Share(numCodes[..], max, max) >= Pow2(max) && (total - Pow2(max) < numCodes[max] || total == Pow2(max))
      decreases total - Pow2(max)
    {
      ghost var i := ShorterLeft(numCodes[..], max);
      assert numCodes[i] > 0;
      Repair(numCodes, max);
      total := total - 1;
    }
  }

  // Above a full code, not all words have the greatest length.
  lemma ShorterLeft(num: seq<int>, max: nat) returns (i: nat)
    requires |num| == MAX_SUPPORTED + 1 && 1 <= max <= MAX_SUPPORTED && Natural(num, max)
    requires Words(num, max) <= Pow2(max) < Share(num, max, max)
    ensures 1 <= i < max && num[i] > 0
  {
    if forall j :: 1 <= j < max ==> num[j] == 0 {
      AllLongest(num, max - 1, max);
    }
    var j :| 1 <= j < max && num[j] != 0;
    i := j;
  }

  // Folding a full code gives at least a full one, with an excess below the words folded.
  lemma Excess(num: seq<int>, num': seq<int>, max: nat)
    requires |num| == |num'| == MAX_SUPPORTED + 1 && 1 <= max <= MAX_SUPPORTED && Natural(num, MAX_SUPPORTED)
    requires Share(num, MAX_SUPPORTED, MAX_SUPPORTED) == Pow2(MAX_SUPPORTED)
    requires forall k :: 1 <= k <= max - 1 ==> num'[k] == num[k]
    requires num'[max] == num[max] + Words(num, MAX_SUPPORTED) - Words(num, max)
    ensures var total := Share(num', max, max); total >= Pow2(max) && (total - Pow2(max) < num'[max] || total == Pow2(max))
    ensures Words(num, MAX_SUPPORTED) == Words(num, max) ==> Share(num', max, max) == Pow2(max)
  {
    var c := Words(num, MAX_SUPPORTED) - Words(num, max);
    SameShare(num, num', max, c);
    assert num[max] >= 0;
    hide Share, Words, Pow2, Natural;
    Folded(num, max, c);
  }

  // What the short words leave over is less than one share for each longer word.
  lemma Folded(num: seq<int>, max: nat, c: int)
    requires |num| == MAX_SUPPORTED + 1 && 1 <= max <= MAX_SUPPORTED && Natural(num, MAX_SUPPORTED)
    requires Share(num, MAX_SUPPORTED, MAX_SUPPORTED) == Pow2(MAX_SUPPORTED) && c == Words(num, MAX_SUPPORTED) - Words(num, max)
    ensures c >= 0 && (c == 0 ==> Share(num, max, max) == Pow2(max)) && (c > 0 ==> Pow2(max) - c < Share(num, max, max) < Pow2(max))
  {
    hide Share, Words, Pow2, Natural;
    var k := MAX_SUPPORTED - max;
    LongShare(num, max, MAX_SUPPORTED, MAX_SUPPORTED);
    ShareScaled(num, max, max, k);
    Pow2Sum(max, k);
    Pow2Positive(k);
    Rounding(Share(num, max, max), Share(num, max, MAX_SUPPORTED), Share(num, MAX_SUPPORTED, MAX_SUPPORTED), c, Pow2(max), Pow2(k));
  }

  lemma SameShare(num: seq<int>, num': seq<int>, max: nat, c: int)
    requires |num| == |num'| && 1 <= max < |num| && (forall k :: 1 <= k <= max - 1 ==> num'[k] == num[k]) && num'[max] == num[max] + c
    ensures Share(num', max, max) == Share(num, max, max) + c
  {
    SameWords(num, num', max - 1, max);
  }

  lemma Rounding(t: int, short: int, all: int, c: nat, p: nat, q: nat)
    requires short == t * q && all == p * q && q >= 1 && (c == 0 ==> all == short) && (c > 0 ==> 0 < all - short < c * q)
    ensures c == 0 ==> t == p
    ensures c > 0 ==> p - c < t < p
  {
    var d := p - t;
    assert all - short == d * q;
    if c > 0 {
      if d <= 0 {
        NotAbove(q, d);
      }
      if d >= c {
        assert d * q == c * q + (d - c) * q;
      }
    } else if d >= 1 {
      GrowsBy(q, d);
    } else if d <= -1 {
      GrowsBy(q, -d);
    }
  }
}
