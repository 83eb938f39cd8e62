// The cost of a code: what no assignment of lengths can go below, and the exchange
// argument behind Huffman's construction.

module CodeCost {
  import opened Bits

  function Sum(s: seq<nat>): nat {
    if s == [] then 0 else s[0] + Sum(s[1..])
  }

  // Frequencies times lengths.
  function Dot(w: seq<nat>, l: seq<nat>): nat
    requires |w| == |l|
  {
    if w == [] then 0 else w[0] * l[0] + Dot(w[1..], l[1..])
  }

  predicate Within(l: seq<nat>, b: nat) {
    forall i :: 0 <= i < |l| ==> l[i] <= b
  }

  // The Kraft sum in units of 2^-b.
  function Kraft(l: seq<nat>, b: nat): nat
    requires Within(l, b)
  {
    if l == [] then 0 else Pow2(b - l[0]) + Kraft(l[1..], b)
  }

  // Lengths that some prefix code has.
  predicate Codable(l: seq<nat>, b: nat) {
    Within(l, b) && Kraft(l, b) <= Pow2(b)
  }

  // No prefix code for these frequencies costs less than c.
  ghost predicate AtLeast(w: seq<nat>, c: nat) {
    forall l: seq<nat>, b: nat :: |l| == |w| && Codable(l, b) ==> Dot(w, l) >= c
  }

  // ----- Taking one entry out -----

  function Without<T>(s: seq<T>, i: nat): seq<T>
    requires i < |s|
  {
    s[..i] + s[i + 1..]
  }

  lemma {:induction false} DotWithout(w: seq<nat>, l: seq<nat>, i: nat)
    requires |w| == |l| && i < |w|
    ensures Dot(w, l) == Dot(Without(w, i), Without(l, i)) + w[i] * l[i]
  {
    if i == 0 {
      assert Without(w, 0) == w[1..] && Without(l, 0) == l[1..];
    } else {
      DotWithout(w[1..], l[1..], i - 1);
      assert Without(w, i) == [w[0]] + Without(w[1..], i - 1) && Without(l, i) == [l[0]] + Without(l[1..], i - 1);
    }
  }

  lemma WithoutFront(l: seq<nat>, i: nat)
    requires i < |l|
    ensures Without(l, i) == if i == 0 then l[1..] else [l[0]] + Without(l[1..], i - 1)
  {
  }

  lemma {:induction false} KraftWithout(l: seq<nat>, b: nat, i: nat)
    requires Within(l, b) && i < |l|
    ensures Within(Without(l, i), b) && Kraft(l, b) == Kraft(Without(l, i), b) + Pow2(b - l[i])
  {
    hide Pow2;
    WithoutFront(l, i);
    if i > 0 {
      hide Without;
      KraftWithout(l[1..], b, i - 1);
      assert ([l[0]] + Without(l[1..], i - 1))[1..] == Without(l[1..], i - 1);
    }
  }

  // ----- Order does not matter -----

  lemma {:induction false} Arrange(v: seq<nat>, l: seq<nat>, b: nat, w: seq<nat>) returns (m: seq<nat>)
    requires |l| == |v| && Within(l, b) && multiset(v) == multiset(w)
    ensures |m| == |w| && Within(m, b) && Dot(w, m) == Dot(v, l) && Kraft(m, b) == Kraft(l, b)
    decreases |w|
  {
    if w == [] {
      assert |multiset(v)| == 0;
      m := [];
    } else {
      var i := Find(v, w);
      MultisetWithout(v, i);
      MultisetWithout(w, 0);
      DotWithout(v, l, i);
      KraftWithout(l, b, i);
      var rest := Arrange(Without(v, i), Without(l, i), b, Without(w, 0));
      m := [l[i]] + rest;
      Prepended(w, l[i], rest, b);
    }
  }

  lemma Find(v: seq<nat>, w: seq<nat>) returns (i: nat)
    requires w != [] && multiset(v) == multiset(w)
    ensures i < |v| && v[i] == w[0]
  {
    assert w[0] in multiset(v);
    i :| 0 <= i < |v| && v[i] == w[0];
  }

  lemma MultisetWithout(v: seq<nat>, i: nat)
    requires i < |v|
    ensures multiset(Without(v, i)) == multiset(v) - multiset{v[i]}
  {
    assert v == v[..i] + ([v[i]] + v[i + 1..]);
  }

  lemma Prepended(w: seq<nat>, x: nat, rest: seq<nat>, b: nat)
    requires w != [] && |rest| == |w| - 1 && Within(rest, b) && x <= b
    ensures Within([x] + rest, b) && Dot(w, [x] + rest) == w[0] * x + Dot(Without(w, 0), rest)
    ensures Kraft([x] + rest, b) == Pow2(b - x) + Kraft(rest, b)
  {
    assert ([x] + rest)[1..] == rest && Without(w, 0) == w[1..];
  }

  lemma AtLeastRearranged(w: seq<nat>, v: seq<nat>, c: nat)
    requires AtLeast(w, c) && multiset(v) == multiset(w)
    ensures AtLeast(v, c)
  {
    forall l: seq<nat>, b: nat | |l| == |v| && Codable(l, b)
      ensures Dot(v, l) >= c
    {
      var m := Arrange(v, l, b, w);
      assert Codable(m, b);
    }
  }

  // ----- The exchange -----

  // Giving the longer of two lengths to the rarer symbol never costs more.
  lemma Swap(w: seq<nat>, l: seq<nat>, b: nat, i: nat, j: nat) returns (m: seq<nat>)
    requires |w| == |l| && i < |w| && j < |w| && Codable(l, b) && w[i] <= w[j] && l[i] <= l[j]
    ensures m == l[i := l[j]][j := l[i]] && Codable(m, b) && Dot(w, m) <= Dot(w, l)
  {
    m := l[i := l[j]][j := l[i]];
    if i != j {
      hide Dot, Kraft, Within, Times;
      assert Within(m, b) by { SwapWithin(l, m, b, i, j); }
      SwapGain(w[i], w[j], l[i], l[j]);
      SwapRest(l, m, if i < j then i else j, if i < j then j else i);
      if i < j {
        SwapCost(w, l, m, i, j);
        SwapKraft(l, m, b, i, j);
      } else {
        SwapCost(w, l, m, j, i);
        SwapKraft(l, m, b, j, i);
      }
    } else {
      assert m == l;
    }
  }

  lemma SwapWithin(l: seq<nat>, m: seq<nat>, b: nat, i: nat, j: nat)
    requires Within(l, b) && i < |l| && j < |l| && m == l[i := l[j]][j := l[i]]
    ensures Within(m, b)
  {
  }

  lemma SwapRest(l: seq<nat>, m: seq<nat>, p: nat, q: nat)
    requires p < q < |l| && |m| == |l| && forall k :: 0 <= k < |l| && k != p && k != q ==> m[k] == l[k]
    ensures Without(Without(m, q), p) == Without(Without(l, q), p)
  {
  }

  lemma TwoOut(l: seq<nat>, b: nat, p: nat, q: nat, rest: seq<nat>)
    requires p < q < |l| && Within(l, b) && rest == Without(Without(l, q), p)
    ensures Within(rest, b) && Kraft(l, b) == Kraft(rest, b) + Pow2(b - l[p]) + Pow2(b - l[q])
  {
    KraftWithout(l, b, q);
    KraftWithout(Without(l, q), b, p);
  }

  function Times(x: nat, y: nat): nat {
    x * y
  }

  lemma TwoOutCost(w: seq<nat>, l: seq<nat>, p: nat, q: nat)
    requires |w| == |l| && p < q < |w|
    ensures Dot(w, l) == Dot(Without(Without(w, q), p), Without(Without(l, q), p)) + Times(w[p], l[p]) + Times(w[q], l[q])
  {
    DotWithout(w, l, q);
    DotWithout(Without(w, q), Without(l, q), p);
  }

  lemma SwapCost(w: seq<nat>, l: seq<nat>, m: seq<nat>, p: nat, q: nat)
    requires |w| == |l| && p < q < |w| && m == l[p := l[q]][q := l[p]]
    ensures Dot(w, m) + Times(w[p], l[p]) + Times(w[q], l[q]) == Dot(w, l) + Times(w[p], l[q]) + Times(w[q], l[p])
  {
    hide *;
    SwapRest(l, m, p, q);
    TwoOutCost(w, l, p, q);
    TwoOutCost(w, m, p, q);
  }

  lemma SwapKraft(l: seq<nat>, m: seq<nat>, b: nat, p: nat, q: nat)
    requires p < q < |l| == |m| && Within(l, b) && Within(m, b) && m[p] == l[q] && m[q] == l[p]
    requires Without(Without(m, q), p) == Without(Without(l, q), p)
    ensures Kraft(m, b) == Kraft(l, b)
  {
    var rest := Without(Without(l, q), p);
    hide *;
    TwoOut(l, b, p, q, rest);
    TwoOut(m, b, p, q, rest);
  }

  lemma SwapGain(a: nat, b: nat, x: nat, y: nat)
    requires a <= b && x <= y
    ensures Times(a, y) + Times(b, x) <= Times(a, x) + Times(b, y)
  {
    assert (b - a) * (y - x) == b * y - b * x - a * y + a * x;
  }

  lemma {:induction false} Longest(l: seq<nat>) returns (i: nat)
    requires l != []
    ensures i < |l| && forall k :: 0 <= k < |l| ==> l[k] <= l[i]
  {
    if |l| == 1 {
      i := 0;
    } else {
      i := Longest(l[1..]);
      i := if l[0] > l[1..][i] then 0 else i + 1;
      forall k | 0 <= k < |l|
        ensures l[k] <= l[i]
      {
        assert k > 0 ==> l[k] == l[1..][k - 1];
      }
    }
  }

  // With all lengths at most m the Kraft sum is a multiple of the share of a word of length m.
  lemma Distribute(x: nat, y: nat, p: nat)
    ensures (x + y) * p == x * p + y * p
  {
  }

  lemma {:induction false} KraftMultiple(l: seq<nat>, b: nat, m: nat) returns (t: nat)
    requires Within(l, m) && m <= b
    ensures Within(l, b) && Kraft(l, b) == t * Pow2(b - m)
  {
    if l == [] {
      t := 0;
    } else {
      var rest := KraftMultiple(l[1..], b, m);
      Pow2Sum(m - l[0], b - m);
      t := Pow2(m - l[0]) + rest;
      Distribute(Pow2(m - l[0]), rest, Pow2(b - m));
    }
  }

  // A single longest word can be shortened to the next length.
  lemma Shorten(l: seq<nat>, b: nat, m: nat)
    requires l != [] && Codable(l, b) && Within(l[1..], m) && m < l[0]
    ensures Codable([m] + l[1..], b)
  {
    var t := KraftMultiple(l[1..], b, m);
    var p := Pow2(b - m);
    Pow2Sum(m, b - m);
    assert t * p < Pow2(m) * p;
    FewerShares(t, Pow2(m), p);
    assert ([m] + l[1..])[1..] == l[1..];
  }

  lemma FewerShares(t: nat, u: nat, p: nat)
    requires t * p < u * p
    ensures t * p + p <= u * p
  {
    Factor(p, t, u);
    if u - t <= 0 {
      NotAbove(p, u - t);
    } else {
      GrowsBy(p, u - t);
    }
  }

  // The two rarest symbols can have the same length, at no cost.
  lemma Siblings(a: nat, b: nat, rest: seq<nat>, l: seq<nat>, top: nat) returns (m: seq<nat>)
    requires |l| == |rest| + 2 && Codable(l, top)
    requires a <= b && forall k :: 0 <= k < |rest| ==> b <= rest[k]
    ensures |m| == |l| && Codable(m, top) && Dot([a, b] + rest, m) <= Dot([a, b] + rest, l) && m[0] == m[1] >= 1
  {
    var w := [a, b] + rest;
    var i := Longest(l);
    m := Swap(w, l, top, 0, i);
    assert forall k :: 0 <= k < |m| ==> m[k] <= m[0];
    var j := Longest(m[1..]);
    var first := m[0];
    m := Swap(w, m, top, 1, j + 1);
    assert m[0] == first && m[1] <= m[0];
    assert Within(m[1..], m[1]);
    if m[1] < m[0] {
      Shorten(m, top, m[1]);
      var m' := [m[1]] + m[1..];
      assert m'[1..] == m[1..] && w[1..] == [b] + rest;
      assert a * m[1] <= a * m[0] by { SwapGain(0, a, m[1], m[0]); }
      m := m';
    }
    if m[0] == 0 {
      TwoOut(m, top, 0, 1, Without(Without(m, 1), 0));
    }
  }

  // Merging the two rarest symbols lowers the least cost by their frequencies.
  lemma Merge(a: nat, b: nat, rest: seq<nat>, c: nat)
    requires a <= b && forall k :: 0 <= k < |rest| ==> b <= rest[k]
    requires AtLeast([a + b] + rest, c)
    ensures AtLeast([a, b] + rest, c + a + b)
  {
    var w := [a, b] + rest;
    forall l: seq<nat>, top: nat | |l| == |w| && Codable(l, top)
      ensures Dot(w, l) >= c + a + b
    {
      MergeOne(a, b, rest, c, l, top);
    }
  }

  lemma MergeOne(a: nat, b: nat, rest: seq<nat>, c: nat, l: seq<nat>, top: nat)
    requires a <= b && forall k :: 0 <= k < |rest| ==> b <= rest[k]
    requires AtLeast([a + b] + rest, c) && |l| == |rest| + 2 && Codable(l, top)
    ensures Dot([a, b] + rest, l) >= c + a + b
  {
    hide Dot, Codable;
    var m := Siblings(a, b, rest, l, top);
    MergedCodable(m, top);
    MergedCost(a, b, rest, m);
    var merged := [m[0] - 1] + m[2..];
    assert |merged| == |[a + b] + rest|;
  }

  lemma MergedCodable(m: seq<nat>, top: nat)
    requires |m| >= 2 && Codable(m, top) && m[0] == m[1] >= 1
    ensures Codable([m[0] - 1] + m[2..], top)
  {
    var k := m[0];
    var merged := [k - 1] + m[2..];
    assert merged[1..] == m[2..] == m[1..][1..];
    assert Pow2(top - (k - 1)) == 2 * Pow2(top - k);
    assert Kraft(m, top) == Pow2(top - k) + Kraft(m[1..], top);
    assert Kraft(m[1..], top) == Pow2(top - k) + Kraft(m[2..], top);
    hide Pow2;
  }

  lemma MergedCost(a: nat, b: nat, rest: seq<nat>, m: seq<nat>)
    requires |m| == |rest| + 2 && m[0] == m[1] >= 1
    ensures Dot([a, b] + rest, m) == Dot([a + b] + rest, [m[0] - 1] + m[2..]) + a + b
  {
    hide Dot;
    var k := m[0];
    assert m == [k] + ([k] + m[2..]) && [a, b] + rest == [a] + ([b] + rest);
    DotFront(a, [b] + rest, k, [k] + m[2..]);
    DotFront(b, rest, k, m[2..]);
    DotFront(a + b, rest, k - 1, m[2..]);
    OneLess(a, b, k);
  }

  lemma DotFront(x: nat, w: seq<nat>, n: nat, l: seq<nat>)
    requires |w| == |l|
    ensures Dot([x] + w, [n] + l) == x * n + Dot(w, l)
  {
    assert ([x] + w)[1..] == w && ([n] + l)[1..] == l;
  }

  lemma OneLess(a: nat, b: nat, k: nat)
    ensures (a + b) * (k - 1) == a * k + b * k - a - b
  {
  }

  lemma Alone(a: nat)
    ensures AtLeast([a], 0)
  {
  }
}
