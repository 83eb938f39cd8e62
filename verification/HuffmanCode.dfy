// Canonical Huffman codes (section 3.2.2 of RFC 1951): the code words that a list of
// code lengths stands for, why no word begins another, and how far a complete code
// can branch.

module HuffmanCode {
  import opened Bits

  const MAX_LENGTH: nat := 15

  predicate Lengths(cs: seq<nat>) {
    forall i :: 0 <= i < |cs| ==> cs[i] <= MAX_LENGTH
  }

  predicate Used(cs: seq<nat>, i: nat) {
    i < |cs| && 1 <= cs[i] <= MAX_LENGTH
  }

  function Count(cs: seq<nat>, k: nat): nat {
    if cs == [] then 0 else Count(cs[..|cs| - 1], k) + (if cs[|cs| - 1] == k then 1 else 0)
  }

  // The share of the code space that a word of this length takes, in units of 2^-15.
  function Weight(len: nat): nat {
    if 1 <= len <= MAX_LENGTH then Pow2(MAX_LENGTH - len) else 0
  }

  // The share of all words shorter than k.
  function Below(cs: seq<nat>, k: nat): nat {
    if cs == [] then 0 else Below(cs[..|cs| - 1], k) + (if cs[|cs| - 1] < k then Weight(cs[|cs| - 1]) else 0)
  }

  function Kraft(cs: seq<nat>): nat {
    Below(cs, MAX_LENGTH + 1)
  }

  predicate Complete(cs: seq<nat>) {
    Kraft(cs) == Pow2(MAX_LENGTH)
  }

  // The first code word of each length, and the word of each symbol, as numbers.
  function FirstCode(cs: seq<nat>, k: nat): nat {
    if k <= 1 then 0 else 2 * (FirstCode(cs, k - 1) + Count(cs, k - 1))
  }

  function CodeOf(cs: seq<nat>, i: nat): nat
    requires i < |cs|
  {
    FirstCode(cs, cs[i]) + Count(cs[..i], cs[i])
  }

  // The word itself, most significant bit first, which is the order of transmission.
  function Word(cs: seq<nat>, i: nat): seq<bool>
    requires i < |cs|
  {
    Msb(CodeOf(cs, i), cs[i])
  }

  function Msb(c: nat, len: nat): (w: seq<bool>)
    ensures |w| == len
  {
    if len == 0 then [] else Msb(c / 2, len - 1) + [c % 2 == 1]
  }

  function Val(w: seq<bool>): nat {
    if w == [] then 0 else 2 * Val(w[..|w| - 1]) + (if w[|w| - 1] then 1 else 0)
  }

  // ----- Shares of the code space -----

  lemma {:induction false} BelowStep(cs: seq<nat>, k: nat)
    ensures Below(cs, k + 1) == Below(cs, k) + Count(cs, k) * Weight(k)
  {
    hide Weight;
    if cs != [] {
      BelowStep(cs[..|cs| - 1], k);
      Distribute(Count(cs[..|cs| - 1], k), if cs[|cs| - 1] == k then 1 else 0, Weight(k));
    }
  }

  lemma {:induction false} BelowMonotone(cs: seq<nat>, j: nat, k: nat)
    requires j <= k
    ensures Below(cs, j) <= Below(cs, k)
    decreases k
  {
    if j < k {
      BelowMonotone(cs, j, k - 1);
      BelowStep(cs, k - 1);
    }
  }

  lemma {:induction false} BelowOne(cs: seq<nat>)
    ensures Below(cs, 1) == 0
  {
    if cs != [] {
      BelowOne(cs[..|cs| - 1]);
    }
  }

  lemma {:induction false} FirstIsBelow(cs: seq<nat>, k: nat)
    requires 1 <= k <= MAX_LENGTH
    ensures FirstCode(cs, k) * Weight(k) == Below(cs, k)
  {
    if k == 1 {
      BelowOne(cs);
    } else {
      FirstIsBelow(cs, k - 1);
      BelowStep(cs, k - 1);
      assert Weight(k - 1) == 2 * Weight(k);
      Regroup(FirstCode(cs, k - 1), Count(cs, k - 1), Weight(k));
    }
  }

  lemma Regroup(a: nat, b: nat, w: nat)
    ensures (2 * (a + b)) * w == a * (2 * w) + b * (2 * w)
  {
  }

  lemma {:induction false} RankBelowCount(cs: seq<nat>, i: nat, k: nat)
    requires i <= |cs|
    ensures Count(cs[..i], k) + (if i < |cs| && cs[i] == k then 1 else 0) <= Count(cs, k)
  {
    if i == |cs| {
      assert cs[..i] == cs;
    } else if i == |cs| - 1 {
    } else {
      assert cs[..|cs| - 1][..i] == cs[..i];
      RankBelowCount(cs[..|cs| - 1], i, k);
    }
  }

  // The interval of a symbol: all code space whose words begin with the symbol's word.
  function Start(cs: seq<nat>, i: nat): nat
    requires i < |cs|
  {
    CodeOf(cs, i) * Weight(cs[i])
  }

  lemma IntervalInside(cs: seq<nat>, i: nat)
    requires Used(cs, i)
    ensures Below(cs, cs[i]) <= Start(cs, i) && Start(cs, i) + Weight(cs[i]) <= Below(cs, cs[i] + 1)
  {
    var k := cs[i];
    FirstIsBelow(cs, k);
    BelowStep(cs, k);
    RankBelowCount(cs, i, k);
    RankShare(FirstCode(cs, k), Count(cs[..i], k), Count(cs, k), Weight(k));
  }

  lemma RankShare(first: nat, rank: nat, count: nat, w: nat)
    requires rank + 1 <= count
    ensures first * w <= (first + rank) * w && (first + rank) * w + w <= first * w + count * w
  {
    assert (first + rank) * w == first * w + rank * w;
    assert (count - rank - 1) * w == count * w - rank * w - w;
  }

  // Different symbols have disjoint intervals.
  lemma IntervalsApart(cs: seq<nat>, i: nat, j: nat)
    requires Used(cs, i) && Used(cs, j) && i != j
    ensures Start(cs, i) + Weight(cs[i]) <= Start(cs, j) || Start(cs, j) + Weight(cs[j]) <= Start(cs, i)
  {
    IntervalInside(cs, i);
    IntervalInside(cs, j);
    if cs[i] < cs[j] {
      BelowMonotone(cs, cs[i] + 1, cs[j]);
    } else if cs[j] < cs[i] {
      BelowMonotone(cs, cs[j] + 1, cs[i]);
    } else {
      var a, b := if i < j then i else j, if i < j then j else i;
      RankBelowCount(cs[..b], a, cs[a]);
      assert cs[..b][..a] == cs[..a];
      RankShare(FirstCode(cs, cs[a]) + Count(cs[..a], cs[a]), Count(cs[..b], cs[a]) - Count(cs[..a], cs[a]) - 1,
                Count(cs[..b], cs[a]) - Count(cs[..a], cs[a]), Weight(cs[a]));
      SameLengthApart(CodeOf(cs, a), CodeOf(cs, b), Weight(cs[a]));
    }
  }

  lemma SameLengthApart(c: nat, d: nat, w: nat)
    requires c < d
    ensures c * w + w <= d * w
  {
    assert (d - c - 1) * w == d * w - c * w - w;
  }

  // ----- Words and numbers -----

  lemma {:induction false} ValOfMsb(c: nat, len: nat)
    ensures Val(Msb(c, len)) == Low(c, len)
  {
    if len > 0 {
      ValOfMsb(c / 2, len - 1);
      assert Msb(c, len)[..len - 1] == Msb(c / 2, len - 1);
      assert Low(c, len) == c % 2 + 2 * Low(c / 2, len - 1);
    }
  }

  // The interval of code space of all words that begin with p.
  function Lo(p: seq<bool>): nat
    requires |p| <= MAX_LENGTH
  {
    Val(p) * Pow2(MAX_LENGTH - |p|)
  }

  function Hi(p: seq<bool>): nat
    requires |p| <= MAX_LENGTH
  {
    Lo(p) + Pow2(MAX_LENGTH - |p|)
  }

  lemma Children(p: seq<bool>)
    requires |p| < MAX_LENGTH
    ensures Lo(p + [false]) == Lo(p) && Lo(p + [true]) == Hi(p + [false]) == Lo(p) + Pow2(MAX_LENGTH - |p| - 1) && Hi(p + [true]) == Hi(p)
  {
    Child(p, false);
    Child(p, true);
    Pow2Step(MAX_LENGTH - |p|);
    hide Lo, Pow2;
  }

  lemma Child(p: seq<bool>, b: bool)
    requires |p| < MAX_LENGTH
    ensures Lo(p + [b]) == Lo(p) + if b then Pow2(MAX_LENGTH - |p| - 1) else 0
  {
    hide Pow2, Val;
    var v, w, n := Val(p), Pow2(MAX_LENGTH - |p| - 1), MAX_LENGTH - |p|;
    ValOfChild(p, b);
    Pow2Step(n);
    Double(v, w);
    LoIs(p);
    LoIs(p + [b]);
    hide Lo;
    if b {
      assert Lo(p + [b]) == (2 * v + 1) * w;
    } else {
      assert Lo(p + [b]) == (2 * v) * w;
    }
  }

  lemma LoIs(p: seq<bool>)
    requires |p| <= MAX_LENGTH
    ensures Lo(p) == Val(p) * Pow2(MAX_LENGTH - |p|)
  {
  }

  lemma ValOfChild(p: seq<bool>, b: bool)
    ensures Val(p + [b]) == 2 * Val(p) + if b then 1 else 0
  {
    assert (p + [b])[..|p|] == p;
  }

  lemma Pow2Step(n: nat)
    requires n > 0
    ensures Pow2(n) == 2 * Pow2(n - 1)
  {
  }

  lemma Double(v: nat, w: nat)
    ensures (2 * v) * w == v * (2 * w) && (2 * v + 1) * w == v * (2 * w) + w
  {
    assert (2 * v + 1) * w == (2 * v) * w + w;
  }

  lemma {:induction false} PrefixInside(p: seq<bool>, w: seq<bool>)
    requires p <= w && |w| <= MAX_LENGTH
    ensures Lo(p) <= Lo(w) && Hi(w) <= Hi(p)
    decreases |w|
  {
    if |p| < |w| {
      var v, b := w[..|w| - 1], w[|w| - 1];
      PrefixInside(p, v);
      Children(v);
      assert w == v + [b];
    } else {
      assert p == w;
    }
  }

  lemma {:induction false} ValInjective(a: seq<bool>, b: seq<bool>)
    requires |a| == |b| && Val(a) == Val(b)
    ensures a == b
  {
    if a != [] {
      ValInjective(a[..|a| - 1], b[..|b| - 1]);
      assert a == a[..|a| - 1] + [a[|a| - 1]] && b == b[..|b| - 1] + [b[|b| - 1]];
    }
  }

  // Intervals that share a point are nested.
  lemma Nested(a: seq<bool>, b: seq<bool>, x: nat)
    requires |a| <= |b| <= MAX_LENGTH && Lo(a) <= x < Hi(a) && Lo(b) <= x < Hi(b)
    ensures a <= b
  {
    var c := b[..|a|];
    PrefixInside(c, b);
    SameShare(Val(a), Val(c), Pow2(MAX_LENGTH - |a|), x);
    ValInjective(a, c);
  }

  lemma SameShare(u: nat, v: nat, w: nat, x: nat)
    requires u * w <= x < u * w + w && v * w <= x < v * w + w
    ensures u == v
  {
    if u < v {
      SameLengthApart(u, v, w);
    } else if v < u {
      SameLengthApart(v, u, w);
    }
  }

  // ----- No word begins another -----

  // A list of lengths that does not claim more code space than there is.
  predicate Feasible(cs: seq<nat>) {
    Lengths(cs) && Kraft(cs) <= Pow2(MAX_LENGTH)
  }

  lemma CodeFits(cs: seq<nat>, i: nat)
    requires Feasible(cs) && Used(cs, i)
    ensures CodeOf(cs, i) < Pow2(cs[i])
    ensures Val(Word(cs, i)) == CodeOf(cs, i) && Lo(Word(cs, i)) == Start(cs, i) && Hi(Word(cs, i)) == Start(cs, i) + Weight(cs[i])
  {
    var k, c := cs[i], CodeOf(cs, i);
    IntervalInside(cs, i);
    BelowMonotone(cs, k + 1, MAX_LENGTH + 1);
    Pow2Sum(k, MAX_LENGTH - k);
    Quotient(c, Pow2(k), Weight(k));
    ValOfMsb(c, k);
    LowOfSmall(c, k);
  }

  lemma Quotient(c: nat, p: nat, w: nat)
    requires w > 0 && c * w + w <= p * w
    ensures c < p
  {
    if p <= c {
      Grows(p, c, w);
    }
  }

  lemma Grows(p: nat, c: nat, w: nat)
    requires p <= c
    ensures p * w <= c * w
  {
    assert (c - p) * w == c * w - p * w;
  }

  lemma LowOfSmall(c: nat, k: nat)
    requires c < Pow2(k)
    ensures Low(c, k) == c
  {
    LowHigh(c, k);
    if High(c, k) > 0 {
      assert Pow2(k) * High(c, k) == Pow2(k) + Pow2(k) * (High(c, k) - 1);
    }
  }

  lemma PrefixFree(cs: seq<nat>, i: nat, j: nat)
    requires Feasible(cs) && Used(cs, i) && Used(cs, j) && Word(cs, i) <= Word(cs, j)
    ensures i == j
  {
    if i != j {
      CodeFits(cs, i);
      CodeFits(cs, j);
      IntervalsApart(cs, i, j);
      PrefixInside(Word(cs, i), Word(cs, j));
    }
  }

  // ----- How far a complete code branches -----

  lemma {:induction false} Nth(cs: seq<nat>, k: nat, r: nat) returns (i: nat)
    requires r < Count(cs, k)
    ensures i < |cs| && cs[i] == k && Count(cs[..i], k) == r
  {
    var n := |cs| - 1;
    if r < Count(cs[..n], k) {
      i := Nth(cs[..n], k, r);
      assert cs[..n][..i] == cs[..i];
    } else {
      i := n;
    }
  }

  lemma CoveredAt(cs: seq<nat>, k: nat, x: nat) returns (i: nat)
    requires 1 <= k <= MAX_LENGTH && Below(cs, k) <= x < Below(cs, k + 1)
    ensures Used(cs, i) && Start(cs, i) <= x < Start(cs, i) + Weight(cs[i])
  {
    hide Below, FirstCode, Count, Weight;
    BelowStep(cs, k);
    FirstIsBelow(cs, k);
    WeightPositive(k);
    var w := Weight(k);
    var r := (x - Below(cs, k)) / w;
    ShareOf(x - Below(cs, k), w, Count(cs, k));
    i := Nth(cs, k, r);
    assert CodeOf(cs, i) == FirstCode(cs, k) + r;
    Distribute(FirstCode(cs, k), r, w);
  }

  lemma Distribute(a: nat, b: nat, w: nat)
    ensures (a + b) * w == a * w + b * w
  {
  }

  // Every point of the claimed code space lies in the interval of a symbol.
  lemma {:induction false} Covered(cs: seq<nat>, k: nat, x: nat) returns (i: nat)
    requires 1 <= k <= MAX_LENGTH + 1 && x < Below(cs, k)
    ensures Used(cs, i) && Start(cs, i) <= x < Start(cs, i) + Weight(cs[i])
    decreases k
  {
    hide Below, Start, Weight;
    if k == 1 {
      BelowOne(cs);
    } else if x < Below(cs, k - 1) {
      i := Covered(cs, k - 1, x);
    } else {
      i := CoveredAt(cs, k - 1, x);
    }
  }

  lemma WeightPositive(k: nat)
    requires 1 <= k <= MAX_LENGTH
    ensures Weight(k) > 0
  {
  }

  lemma ShareOf(y: nat, w: nat, n: nat)
    requires w > 0 && y < n * w
    ensures (y / w) * w <= y < (y / w) * w + w && y / w < n
  {
    var q := y / w;
    assert y == q * w + y % w;
    if n <= q {
      Grows(n, q, w);
    }
  }

  // A branching point of the code: a proper beginning of some word.
  ghost predicate Inner(cs: seq<nat>, p: seq<bool>) {
    exists j: nat :: Used(cs, j) && |p| < cs[j] && p <= Word(cs, j)
  }

  // The symbol whose interval starts where the right branch of p starts.
  ghost predicate LeftmostRight(cs: seq<nat>, p: seq<bool>, i: nat) {
    Used(cs, i) && |p| < MAX_LENGTH && Start(cs, i) == Lo(p + [true])
  }

  // A word whose interval meets the right branch of a branching point is no shorter than it:
  // otherwise it would be a beginning of the word that branches there.
  lemma LongEnough(cs: seq<nat>, p: seq<bool>, i: nat, j: nat, m: nat)
    requires Feasible(cs) && Used(cs, i) && Used(cs, j) && |p| < cs[j] && p <= Word(cs, j)
    requires Lo(p + [true]) <= m < Hi(p + [true]) && Lo(Word(cs, i)) <= m < Hi(Word(cs, i))
    ensures |p| + 1 <= |Word(cs, i)|
  {
    hide Lo, Hi, Val, Pow2, CodeOf, Word, Feasible, Start, Weight;
    var q, w := p + [true], Word(cs, i);
    if |w| <= |p| {
      Nested(w, q, m);
      assert w <= p;
      PrefixFree(cs, i, j);
      WordLength(cs, j);
    }
  }

  lemma WordLength(cs: seq<nat>, i: nat)
    requires i < |cs|
    ensures |Word(cs, i)| == cs[i]
  {
  }

  lemma RightBranch(cs: seq<nat>, p: seq<bool>) returns (i: nat)
    requires Lengths(cs) && Complete(cs) && Inner(cs, p)
    ensures LeftmostRight(cs, p, i)
  {
    hide Lo, Hi, Val, Pow2, CodeOf, Word, Start, Weight, FirstCode, Count, Below;
    var j: nat :| Used(cs, j) && |p| < cs[j] && p <= Word(cs, j);
    var q := p + [true];
    var m := Lo(q);
    RightStart(p);
    i := Covered(cs, MAX_LENGTH + 1, m);
    CodeFits(cs, i);
    LongEnough(cs, p, i, j, m);
    WordLength(cs, i);
    Nested(q, Word(cs, i), m);
    PrefixInside(q, Word(cs, i));
  }

  // The right branch has room in the code space.
  lemma RightStart(p: seq<bool>)
    requires |p| < MAX_LENGTH
    ensures Lo(p + [true]) < Hi(p + [true]) && Lo(p + [true]) < Pow2(MAX_LENGTH)
  {
    WholeSpace();
    Pow2Positive(MAX_LENGTH - |p| - 1);
    hide Lo, Hi, Val, Pow2;
    Children(p);
    PrefixInside([], p + [true]);
    HiIs(p + [true]);
  }

  lemma HiIs(p: seq<bool>)
    requires |p| <= MAX_LENGTH
    ensures Hi(p) == Lo(p) + Pow2(MAX_LENGTH - |p|)
  {
  }

  lemma WholeSpace()
    ensures Lo([]) == 0 && Hi([]) == Pow2(MAX_LENGTH)
  {
    hide Pow2;
  }

  // Different branching points have different such symbols.
  lemma RightBranchesDiffer(cs: seq<nat>, p: seq<bool>, q: seq<bool>, i: nat)
    requires LeftmostRight(cs, p, i) && LeftmostRight(cs, q, i)
    ensures p == q
  {
    hide Lo, Hi, Val;
    if |p| <= |q| {
      SameMiddle(p, q);
    } else {
      SameMiddle(q, p);
    }
  }

  lemma SameMiddle(p: seq<bool>, q: seq<bool>)
    requires |p| <= |q| < MAX_LENGTH && Lo(p + [true]) == Lo(q + [true])
    ensures p == q
  {
    hide Val;
    var a, b := p + [true], q + [true];
    Children(q);
    Nested(a, b, Lo(a));
    if |p| < |q| {
      assert a <= q;
      PrefixInside(a, q);
    } else {
      assert p == a[..|p|] && q == b[..|q|];
    }
  }

  lemma {:induction false} InjectionFits(cs: seq<nat>, nodes: set<seq<bool>>, leaves: set<nat>)
    requires forall p :: p in nodes ==> exists i :: i in leaves && LeftmostRight(cs, p, i)
    ensures |nodes| <= |leaves|
    decreases |nodes|
  {
    if nodes != {} {
      var p :| p in nodes;
      var i :| i in leaves && LeftmostRight(cs, p, i);
      forall q | q in nodes - {p}
        ensures exists j :: j in leaves - {i} && LeftmostRight(cs, q, j)
      {
        var j :| j in leaves && LeftmostRight(cs, q, j);
        if j == i {
          RightBranchesDiffer(cs, p, q, i);
        }
      }
      InjectionFits(cs, nodes - {p}, leaves - {i});
    }
  }

  // A complete code of n symbols has at most n branching points.
  lemma InnerFits(cs: seq<nat>, nodes: set<seq<bool>>)
    requires Lengths(cs) && Complete(cs) && forall p :: p in nodes ==> Inner(cs, p)
    ensures |nodes| <= |cs|
  {
    var leaves := Naturals(|cs|);
    forall p | p in nodes
      ensures exists i :: i in leaves && LeftmostRight(cs, p, i)
    {
      var i := RightBranch(cs, p);
      assert i in leaves;
    }
    InjectionFits(cs, nodes, leaves);
  }

  lemma {:induction false} Naturals(n: nat) returns (s: set<nat>)
    ensures |s| == n && forall i: nat :: i in s <==> i < n
  {
    if n == 0 {
      s := {};
    } else {
      s := Naturals(n - 1);
      s := s + {n - 1};
    }
  }

  // ----- Codes a decoder accepts -----

  function UsedCount(cs: seq<nat>, k: nat): nat {
    if k == 0 then 0 else UsedCount(cs, k - 1) + Count(cs, k)
  }

  ghost predicate Single(cs: seq<nat>) {
    forall i: nat, j: nat :: Used(cs, i) && Used(cs, j) ==> i == j
  }

  // Either the words fill the code space or there is at most one.
  ghost predicate Acceptable(cs: seq<nat>) {
    Lengths(cs) && (Complete(cs) || Single(cs))
  }

  function UsedIn(cs: seq<nat>, k: nat): nat {
    if cs == [] then 0 else UsedIn(cs[..|cs| - 1], k) + (if 1 <= cs[|cs| - 1] <= k then 1 else 0)
  }

  lemma {:induction false} UsedInNone(cs: seq<nat>)
    ensures UsedIn(cs, 0) == 0
  {
    if cs != [] {
      UsedInNone(cs[..|cs| - 1]);
    }
  }

  lemma {:induction false} UsedInStep(cs: seq<nat>, k: nat)
    requires k >= 1
    ensures UsedIn(cs, k) == UsedIn(cs, k - 1) + Count(cs, k)
  {
    if cs != [] {
      UsedInStep(cs[..|cs| - 1], k);
    }
  }

  lemma {:induction false} UsedCountIsUsedIn(cs: seq<nat>, k: nat)
    ensures UsedCount(cs, k) == UsedIn(cs, k)
  {
    if k == 0 {
      UsedInNone(cs);
    } else {
      UsedCountIsUsedIn(cs, k - 1);
      UsedInStep(cs, k);
    }
  }

  lemma {:induction false} UsedIsCounted(cs: seq<nat>, i: nat)
    requires Used(cs, i)
    ensures UsedIn(cs, MAX_LENGTH) >= 1
  {
    if i < |cs| - 1 {
      UsedIsCounted(cs[..|cs| - 1], i);
    }
  }

  lemma {:induction false} TwoAreCounted(cs: seq<nat>, i: nat, j: nat)
    requires Used(cs, i) && Used(cs, j) && i < j
    ensures UsedIn(cs, MAX_LENGTH) >= 2
  {
    if j < |cs| - 1 {
      TwoAreCounted(cs[..|cs| - 1], i, j);
    } else {
      UsedIsCounted(cs[..|cs| - 1], i);
    }
  }

  lemma {:induction false} OneUsed(cs: seq<nat>) returns (i: nat)
    requires UsedIn(cs, MAX_LENGTH) >= 1
    ensures Used(cs, i)
  {
    if 1 <= cs[|cs| - 1] <= MAX_LENGTH {
      i := |cs| - 1;
    } else {
      i := OneUsed(cs[..|cs| - 1]);
    }
  }

  lemma {:induction false} TwoUsed(cs: seq<nat>) returns (i: nat, j: nat)
    requires UsedIn(cs, MAX_LENGTH) >= 2
    ensures Used(cs, i) && Used(cs, j) && i < j
  {
    j := |cs| - 1;
    if 1 <= cs[j] <= MAX_LENGTH {
      i := OneUsed(cs[..j]);
    } else {
      i, j := TwoUsed(cs[..j]);
    }
  }

  // Counting the used symbols tells whether there is at most one.
  lemma SingleIsCounted(cs: seq<nat>)
    ensures Single(cs) <==> UsedCount(cs, MAX_LENGTH) <= 1
  {
    UsedCountIsUsedIn(cs, MAX_LENGTH);
    if UsedIn(cs, MAX_LENGTH) <= 1 {
      forall i: nat, j: nat | Used(cs, i) && Used(cs, j)
        ensures i == j
      {
        if i < j {
          TwoAreCounted(cs, i, j);
        } else if j < i {
          TwoAreCounted(cs, j, i);
        }
      }
    } else {
      var i, j := TwoUsed(cs);
    }
  }

  lemma {:induction false} SingleFits(cs: seq<nat>)
    requires Single(cs)
    ensures Kraft(cs) <= Pow2(MAX_LENGTH)
  {
    if cs != [] {
      var n := |cs| - 1;
      forall i: nat, j: nat | Used(cs[..n], i) && Used(cs[..n], j)
        ensures i == j
      {
        assert Used(cs, i) && Used(cs, j);
      }
      SingleFits(cs[..n]);
      if Used(cs, n) {
        NoneUsed(cs[..n]) by {
          forall i: nat | i < n
            ensures !Used(cs[..n], i)
          {
            assert Used(cs[..n], i) ==> Used(cs, i);
          }
        }
        Pow2Monotone(MAX_LENGTH - cs[n], MAX_LENGTH);
      }
    }
  }

  lemma {:induction false} NoneUsed(cs: seq<nat>)
    requires forall i: nat :: i < |cs| ==> !Used(cs, i)
    ensures Kraft(cs) == 0
  {
    if cs != [] {
      var n := |cs| - 1;
      assert !Used(cs, n);
      forall i: nat | i < n
        ensures !Used(cs[..n], i)
      {
        assert !Used(cs, i);
      }
      NoneUsed(cs[..n]);
    }
  }

  lemma AcceptableIsFeasible(cs: seq<nat>)
    requires Acceptable(cs)
    ensures Feasible(cs)
  {
    if Single(cs) {
      SingleFits(cs);
    }
  }

  // The branching points of an accepted code: no more than symbols, or than the length of
  // the only word.
  lemma BranchesFit(cs: seq<nat>, nodes: set<seq<bool>>)
    requires Acceptable(cs) && forall p :: p in nodes ==> Inner(cs, p)
    ensures |nodes| <= |cs| || |nodes| <= MAX_LENGTH
  {
    if Complete(cs) {
      InnerFits(cs, nodes);
    } else if nodes != {} {
      var p :| p in nodes;
      var j: nat :| Used(cs, j) && |p| < cs[j] && p <= Word(cs, j);
      forall q | q in nodes
        ensures |q| < cs[j] && q == Word(cs, j)[..|q|]
      {
        var k: nat :| Used(cs, k) && |q| < cs[k] && q <= Word(cs, k);
      }
      PrefixesOf(nodes, Word(cs, j), cs[j]);
    }
  }

  lemma {:induction false} PrefixesOf(nodes: set<seq<bool>>, w: seq<bool>, n: nat)
    requires n <= |w| && forall q :: q in nodes ==> |q| < n && q == w[..|q|]
    ensures |nodes| <= n
  {
    if n > 0 {
      var rest := nodes - {w[..n - 1]};
      PrefixesOf(rest, w, n - 1);
      assert nodes <= rest + {w[..n - 1]};
      SubsetSize(nodes, rest + {w[..n - 1]});
    } else {
      assert nodes == {};
    }
  }

  lemma {:induction false} SubsetSize<T>(a: set<T>, b: set<T>)
    requires a <= b
    ensures |a| <= |b|
  {
    if a != {} {
      var x :| x in a;
      SubsetSize(a - {x}, b - {x});
    }
  }
}
