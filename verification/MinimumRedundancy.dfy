// Minimum-redundancy code lengths in place (Moffat and Katajainen): pairing, depths of
// the internal nodes, depths of the leaves, all in the array of sorted frequencies.

module MinimumRedundancy {
  import opened Bits
  import opened CodeCost
  import opened Ints

  const MAX_DEPTH: nat := 32

  predicate Sorted(s: seq<nat>) {
    forall i, j :: 0 <= i < j < |s| ==> s[i] <= s[j]
  }

  predicate Positive(s: seq<nat>) {
    forall i :: 0 <= i < |s| ==> s[i] > 0
  }

  // ----- The tree -----

  // Internal nodes are numbered in the order of their making, the last one is the root.
  // Each but the root has a later parent, parents come in order, and no three nodes share one.
  predicate Parents(par: seq<nat>, limit: nat) {
    (forall i :: 0 <= i < |par| ==> i < par[i] < limit) &&
    (forall i, j :: 0 <= i < j < |par| ==> par[i] <= par[j]) &&
    (forall i :: 0 <= i < |par| - 2 ==> par[i] < par[i + 2])
  }

  function Depth(par: seq<nat>, i: nat): nat
    requires Parents(par, |par| + 1) && i <= |par|
    decreases |par| - i
  {
    if i == |par| then 0 else Depth(par, par[i]) + 1
  }

  lemma {:induction false} DepthsFall(par: seq<nat>, i: nat, j: nat)
    requires Parents(par, |par| + 1) && i <= j <= |par|
    ensures Depth(par, i) >= Depth(par, j)
    decreases |par| - i
  {
    if j < |par| {
      DepthsFall(par, par[i], par[j]);
    }
  }

  // Weights of the internal nodes: a node's weight and its parent's add up to no more
  // than its grandparent's.
  predicate Growing(par: seq<nat>, w: seq<nat>) {
    |par| <= |w| && (forall i :: 0 <= i < |par| ==> par[i] < |w|) &&
    (forall i :: 0 <= i < |par| && par[i] < |par| ==> w[par[par[i]]] >= w[par[i]] + w[i])
  }

  function Fib(n: nat): nat {
    if n <= 1 then n else Fib(n - 1) + Fib(n - 2)
  }

  lemma {:induction false} RootWeight(par: seq<nat>, w: seq<nat>, i: nat)
    requires Parents(par, |par| + 1) && |w| == |par| + 1 && Growing(par, w) && i < |par|
    ensures w[|par|] >= Fib(Depth(par, i)) * w[par[i]] + Fib(Depth(par, i) - 1) * w[i]
    decreases |par| - i
  {
    var d, p := Depth(par, i), par[i];
    if p < |par| {
      RootWeight(par, w, p);
      FibStep(Fib(d - 1), Fib(d - 2), w[par[p]], w[p], w[i]);
      assert Fib(d) == Fib(d - 1) + Fib(d - 2);
    }
  }

  lemma FibStep(f: nat, g: nat, wg: nat, wp: nat, wi: nat)
    requires wg >= wp + wi
    ensures f * wg + g * wp >= (f + g) * wp + f * wi
  {
    assert f * wg == f * (wp + wi) + f * (wg - wp - wi);
  }

  lemma {:induction false} FibMonotone(m: nat, n: nat)
    requires m <= n
    ensures Fib(m) <= Fib(n)
    decreases n
  {
    if m < n {
      FibMonotone(m, n - 1);
    }
  }

  lemma Fib24()
    ensures Fib(23) == 28657 && Fib(24) == 46368
  {
    assert Fib(4) == 3 && Fib(5) == 5;
    assert Fib(6) == 8 && Fib(7) == 13;
    assert Fib(8) == 21 && Fib(9) == 34;
    assert Fib(10) == 55 && Fib(11) == 89;
    assert Fib(12) == 144 && Fib(13) == 233;
    assert Fib(14) == 377 && Fib(15) == 610;
    assert Fib(16) == 987 && Fib(17) == 1597;
    assert Fib(18) == 2584 && Fib(19) == 4181;
    assert Fib(20) == 6765 && Fib(21) == 10946;
    assert Fib(22) == 17711 && Fib(23) == 28657;
  }

  // A total below 2^16 keeps the tree shallow.
  lemma Shallow(par: seq<nat>, w: seq<nat>, i: nat)
    requires Parents(par, |par| + 1) && |w| == |par| + 1 && Growing(par, w) && i <= |par|
    requires w[|par|] < 0x1_0000 && forall k :: 0 <= k < |w| ==> w[k] >= 2
    ensures Depth(par, i) <= 22
  {
    if i < |par| && Depth(par, i) > 22 {
      var d := Depth(par, i);
      RootWeight(par, w, i);
      Fib24();
      FibMonotone(23, d);
      FibMonotone(24, d + 1);
      assert Fib(d + 1) == Fib(d) + Fib(d - 1);
      AtLeastTwice(Fib(d), w[par[i]]);
      AtLeastTwice(Fib(d - 1), w[i]);
    }
  }

  lemma AtLeastTwice(f: nat, w: nat)
    requires w >= 2
    ensures f * w >= 2 * f
  {
    assert f * w == 2 * f + f * (w - 2);
  }

  // ----- Pairing -----

  // ro[t] internal nodes were taken by the nodes before t, and 2 * t - ro[t] leaves: node t
  // has the next of each as its children, two in all.
  predicate Tree(ro: seq<nat>) {
    |ro| >= 2 && ro[0] == 0 && forall t :: 0 <= t < |ro| - 1 ==> TwoChildren(ro, t)
  }

  predicate TwoChildren(ro: seq<nat>, t: nat)
    requires t + 1 < |ro|
  {
    ro[t] <= ro[t + 1] <= ro[t] + 2 && ro[t + 1] <= t
  }

  function Leaves(ro: seq<nat>, t: nat): int
    requires t < |ro|
  {
    2 * t - ro[t]
  }

  lemma {:induction false} TreeMonotone(ro: seq<nat>, s: nat, t: nat)
    requires Tree(ro) && s <= t < |ro|
    ensures ro[s] <= ro[t] && 0 <= Leaves(ro, s) <= Leaves(ro, t)
    decreases t
  {
    if s < t {
      TreeMonotone(ro, s, t - 1);
      assert TwoChildren(ro, t - 1);
    } else if s > 0 {
      TreeMonotone(ro, s - 1, t - 1);
      assert TwoChildren(ro, t - 1);
    }
  }

  predicate Links(par: seq<nat>, ro: seq<nat>)
    requires Tree(ro)
  {
    |par| == ro[|ro| - 1] && forall i :: 0 <= i < |par| ==> par[i] < |ro| - 1 && ro[par[i]] <= i < ro[par[i] + 1]
  }

  lemma LinksAreParents(par: seq<nat>, ro: seq<nat>)
    requires Tree(ro) && Links(par, ro)
    ensures Parents(par, |ro| - 1)
  {
    forall i | 0 <= i < |par|
      ensures i < par[i]
    {
      assert TwoChildren(ro, par[i]);
    }
    forall i, j | 0 <= i < j < |par|
      ensures par[i] <= par[j] && (j >= i + 2 ==> par[i] < par[j])
    {
      assert TwoChildren(ro, par[i]);
      if par[j] < par[i] {
        TreeMonotone(ro, par[j] + 1, par[i]);
      }
    }
  }

  // Node t weighs what its children weigh.
  predicate NodeWeight(w: seq<nat>, f: seq<nat>, ro: seq<nat>, t: nat)
    requires Tree(ro) && t < |w| && t + 1 < |ro|
  {
    TwoChildren(ro, t) && ro[t + 1] <= |w| && 0 <= Leaves(ro, t) <= Leaves(ro, t + 1) <= |f| &&
    w[t] == Sum(w[ro[t]..ro[t + 1]]) + Sum(f[Leaves(ro, t)..Leaves(ro, t + 1)])
  }

  predicate Weights(w: seq<nat>, f: seq<nat>, ro: seq<nat>)
    requires Tree(ro)
  {
    |w| == |ro| - 1 && forall t :: 0 <= t < |w| ==> NodeWeight(w, f, ro, t)
  }

  // All items taken so far weigh at most hi, all others at least that.
  predicate Ordered(f: seq<nat>, w: seq<nat>, root: nat, leaf: nat, hi: nat)
    requires root <= |w| && leaf <= |f|
  {
    Sorted(w) && (w != [] ==> w[|w| - 1] <= 2 * hi) &&
    (forall i :: 0 <= i < root ==> w[i] <= hi) && (forall i :: 0 <= i < leaf ==> f[i] <= hi) &&
    (forall i :: root <= i < |w| ==> hi <= w[i]) && (forall i :: leaf <= i < |f| ==> hi <= f[i])
  }

  // The items still to be paired.
  function Items(f: seq<nat>, w: seq<nat>, root: nat, leaf: nat): seq<nat>
    requires root <= |w| && leaf <= |f|
  {
    w[root..] + f[leaf..]
  }

  // A bound for the items left gives one for all frequencies.
  ghost predicate Bounding(f: seq<nat>, w: seq<nat>, root: nat, leaf: nat)
    requires root <= |w| && leaf <= |f|
  {
    forall c: nat :: AtLeast(Items(f, w, root, leaf), c) ==> AtLeast(f, c + Sum(w))
  }

  // The tree made so far.
  ghost predicate Built(f: seq<nat>, par: seq<nat>, ro: seq<nat>, w: seq<nat>, root: nat, leaf: nat) {
    Tree(ro) && |w| == |ro| - 1 && |par| == root && Links(par, ro) && Weights(w, f, ro) && root == ro[|ro| - 1] < |w| && leaf == Leaves(ro, |ro| - 1) <= |f| &&
    Growing(par, w) && forall t :: 0 <= t < |w| ==> w[t] >= 2
  }

  ghost predicate Paired(f: seq<nat>, par: seq<nat>, ro: seq<nat>, w: seq<nat>, root: nat, leaf: nat, hi: nat) {
    Built(f, par, ro, w, root, leaf) && Ordered(f, w, root, leaf, hi) &&
    Sum(Items(f, w, root, leaf)) == Sum(f) && Bounding(f, w, root, leaf)
  }

  lemma {:induction false} SumOfBoth(s: seq<nat>, t: seq<nat>)
    ensures Sum(s + t) == Sum(s) + Sum(t)
  {
    if s == [] {
      assert s + t == t;
    } else {
      assert (s + t)[1..] == s[1..] + t;
      SumOfBoth(s[1..], t);
    }
  }

  // The two items a node is made of: its internal children first.
  predicate Taken(f: seq<nat>, w: seq<nat>, root: nat, leaf: nat, root': nat, leaf': nat, x: nat, y: nat) {
    root <= root' <= |w| && leaf <= leaf' <= |f| && root' + leaf' == root + leaf + 2 &&
    w[root..root'] + f[leaf..leaf'] == [x, y]
  }

  lemma TakenSum(f: seq<nat>, w: seq<nat>, root: nat, leaf: nat, root': nat, leaf': nat, x: nat, y: nat)
    requires Taken(f, w, root, leaf, root', leaf', x, y)
    ensures Sum(w[root..root']) + Sum(f[leaf..leaf']) == x + y
  {
    SumOfBoth(w[root..root'], f[leaf..leaf']);
    assert Sum([x, y]) == x + Sum([x, y][1..]) && [x, y][1..] == [y] && Sum([y]) == y + Sum([y][1..]);
  }

  lemma BothMultisets(s: seq<nat>, t: seq<nat>)
    ensures multiset(s + t) == multiset(s) + multiset(t)
  {
  }

  lemma TakenItems(f: seq<nat>, w: seq<nat>, root: nat, leaf: nat, root': nat, leaf': nat, x: nat, y: nat)
    requires Taken(f, w, root, leaf, root', leaf', x, y)
    ensures multiset(Items(f, w, root, leaf)) == multiset([x, y] + Items(f, w, root', leaf'))
    ensures multiset(Items(f, w + [x + y], root', leaf')) == multiset([x + y] + Items(f, w, root', leaf'))
  {
    var a, b, c, d := w[root..root'], w[root'..], f[leaf..leaf'], f[leaf'..];
    assert w[root..] == a + b && f[leaf..] == c + d;
    Shuffle(a, b, c, d);
    assert (w + [x + y])[root'..] == b + [x + y];
    PutFirst(b, x + y, d);
  }

  lemma PutFirst(b: seq<nat>, z: nat, d: seq<nat>)
    ensures multiset((b + [z]) + d) == multiset([z] + (b + d))
  {
    Shuffle([], b, [z], d);
    assert [] + b == b && [] + [z] == [z] && b + ([z] + d) == (b + [z]) + d;
  }

  lemma Shuffle(a: seq<nat>, b: seq<nat>, c: seq<nat>, d: seq<nat>)
    ensures multiset((a + b) + (c + d)) == multiset((a + c) + (b + d))
  {
    BothMultisets(a + b, c + d);
    BothMultisets(a, b);
    BothMultisets(c, d);
    BothMultisets(a + c, b + d);
    BothMultisets(a, c);
    BothMultisets(b, d);
  }

  lemma TakenSums(f: seq<nat>, w: seq<nat>, root: nat, leaf: nat, root': nat, leaf': nat, x: nat, y: nat)
    requires Taken(f, w, root, leaf, root', leaf', x, y)
    ensures Sum(Items(f, w, root, leaf)) == x + y + Sum(Items(f, w, root', leaf')) == Sum(Items(f, w + [x + y], root', leaf'))
    ensures Sum(w + [x + y]) == Sum(w) + x + y
  {
    var a, b, c, d, s := w[root..root'], w[root'..], f[leaf..leaf'], f[leaf'..], [x + y];
    assert w[root..] == a + b && f[leaf..] == c + d && (w + s)[root'..] == b + s;
    TakenSum(f, w, root, leaf, root', leaf', x, y);
    assert s[1..] == [] && Sum(s) == x + y;
    hide Sum;
    SumOfBoth(a + b, c + d);
    SumOfBoth(a, b);
    SumOfBoth(c, d);
    SumOfBoth(b, d);
    SumOfBoth(b + s, d);
    SumOfBoth(b, s);
    SumOfBoth(w, s);
  }

  lemma MergeTaken(items: seq<nat>, rest: seq<nat>, merged: seq<nat>, x: nat, y: nat, c: nat)
    requires multiset(items) == multiset([x, y] + rest) && multiset(merged) == multiset([x + y] + rest)
    requires forall k :: 0 <= k < |rest| ==> x <= rest[k] && y <= rest[k]
    requires AtLeast(merged, c)
    ensures AtLeast(items, c + x + y)
  {
    hide AtLeast;
    if x <= y {
      MergeOrdered(items, rest, merged, x, y, c);
    } else {
      BothMultisets([x, y], rest);
      BothMultisets([y, x], rest);
      MergeOrdered(items, rest, merged, y, x, c);
    }
  }

  lemma MergeOrdered(items: seq<nat>, rest: seq<nat>, merged: seq<nat>, x: nat, y: nat, c: nat)
    requires multiset(items) == multiset([x, y] + rest) && multiset(merged) == multiset([x + y] + rest)
    requires x <= y && forall k :: 0 <= k < |rest| ==> y <= rest[k]
    requires AtLeast(merged, c)
    ensures AtLeast(items, c + x + y)
  {
    hide AtLeast;
    AtLeastRearranged(merged, [x + y] + rest, c);
    Merge(x, y, rest, c);
    AtLeastRearranged([x, y] + rest, items, c + x + y);
  }

  lemma NextBounding(f: seq<nat>, w: seq<nat>, root: nat, leaf: nat, root': nat, leaf': nat, x: nat, y: nat)
    requires root <= |w| && leaf <= |f| && Bounding(f, w, root, leaf) && Taken(f, w, root, leaf, root', leaf', x, y)
    requires (forall i :: root' <= i < |w| ==> x <= w[i] && y <= w[i]) && (forall i :: leaf' <= i < |f| ==> x <= f[i] && y <= f[i])
    ensures Bounding(f, w + [x + y], root', leaf')
  {
    hide AtLeast, Sum;
    var w', rest := w + [x + y], Items(f, w, root', leaf');
    TakenItems(f, w, root, leaf, root', leaf', x, y);
    TakenSums(f, w, root, leaf, root', leaf', x, y);
    forall c: nat | AtLeast(Items(f, w', root', leaf'), c)
      ensures AtLeast(f, c + Sum(w'))
    {
      MergeTaken(Items(f, w, root, leaf), rest, Items(f, w', root', leaf'), x, y, c);
      assert AtLeast(f, (c + x + y) + Sum(w));
    }
  }

  // The links of the children of a new node.
  function Linked(par: seq<nat>, node: nat, count: nat): seq<nat> {
    par + seq(count, _ => node)
  }

  lemma NextTree(ro: seq<nat>, par: seq<nat>, root': nat)
    requires Tree(ro) && Links(par, ro)
    requires var root := ro[|ro| - 1]; root <= root' <= root + 2 && root' <= |ro| - 1
    ensures Tree(ro + [root']) && Links(Linked(par, |ro| - 1, root' - ro[|ro| - 1]), ro + [root'])
  {
    var ro', par' := ro + [root'], Linked(par, |ro| - 1, root' - ro[|ro| - 1]);
    forall t | 0 <= t < |ro'| - 1
      ensures TwoChildren(ro', t)
    {
      assert t < |ro| - 1 ==> TwoChildren(ro, t);
    }
  }

  lemma NextWeights(w: seq<nat>, f: seq<nat>, ro: seq<nat>, root': nat, leaf': nat, x: nat, y: nat)
    requires Tree(ro) && Tree(ro + [root']) && Weights(w, f, ro) && 0 <= Leaves(ro, |ro| - 1)
    requires Taken(f, w, ro[|ro| - 1], Leaves(ro, |ro| - 1), root', leaf', x, y)
    ensures Weights(w + [x + y], f, ro + [root'])
  {
    hide Sum;
    var w', ro', n := w + [x + y], ro + [root'], |ro| - 1;
    TakenSum(f, w, ro[n], Leaves(ro, n), root', leaf', x, y);
    forall t | 0 <= t < |w'|
      ensures NodeWeight(w', f, ro', t)
    {
      assert TwoChildren(ro', t);
      if t < n {
        assert NodeWeight(w, f, ro, t);
        assert w'[ro[t]..ro[t + 1]] == w[ro[t]..ro[t + 1]];
      } else {
        assert w'[ro[n]..root'] == w[ro[n]..root'];
      }
    }
  }

  lemma NextGrowing(f: seq<nat>, par: seq<nat>, ro: seq<nat>, w: seq<nat>, root: nat, leaf: nat, hi: nat, root': nat, s: nat)
    requires Tree(ro) && Links(par, ro) && Growing(par, w) && |w| == |ro| - 1 && root == ro[|ro| - 1]
    requires leaf <= |f| && root <= root' <= |w| && Ordered(f, w, root, leaf, hi)
    requires forall i :: root <= i < root' ==> w[i] + hi <= s
    ensures Growing(Linked(par, |w|, root' - root), w + [s])
  {
  }

  lemma NextOrdered(f: seq<nat>, w: seq<nat>, root: nat, leaf: nat, hi: nat, root': nat, leaf': nat, x: nat, y: nat)
    requires root <= |w| && leaf <= |f| && Ordered(f, w, root, leaf, hi) && Taken(f, w, root, leaf, root', leaf', x, y)
    requires (forall i :: root' <= i < |w| ==> x <= w[i] && y <= w[i]) && (forall i :: leaf' <= i < |f| ==> x <= f[i] && y <= f[i])
    requires hi <= x && hi <= y
    ensures Ordered(f, w + [x + y], root', leaf', if x <= y then y else x)
  {
    var items := w[root..root'] + f[leaf..leaf'];
    assert items[0] == x && items[1] == y;
    forall i | root <= i < root'
      ensures w[i] == x || w[i] == y
    {
      assert w[i] == items[i - root];
    }
    forall i | leaf <= i < leaf'
      ensures f[i] == x || f[i] == y
    {
      assert f[i] == items[root' - root + i - leaf];
    }
  }

  // One turn of the pairing loop.
  lemma NextPaired(f: seq<nat>, par: seq<nat>, ro: seq<nat>, w: seq<nat>, root: nat, leaf: nat, hi: nat,
                   root': nat, leaf': nat, x: nat, y: nat)
    requires root <= |w| && leaf <= |f| && Paired(f, par, ro, w, root, leaf, hi) && Taken(f, w, root, leaf, root', leaf', x, y) && root' <= |w|
    requires leaf' <= |f|
    requires (forall i :: root' <= i < |w| ==> x <= w[i] && y <= w[i]) && (forall i :: leaf' <= i < |f| ==> x <= f[i] && y <= f[i])
    requires hi <= x && hi <= y && Positive(f)
    requires forall i :: root <= i < root' ==> w[i] + hi <= x + y
    ensures Paired(f, Linked(par, |w|, root' - root), ro + [root'], w + [x + y], root', leaf', if x <= y then y else x)
    ensures x + y <= Sum(f)
  {
    hide Sum, Bounding, Ordered, Taken, Built, Items, AtLeast;
    NextBuilt(f, par, ro, w, root, leaf, hi, root', leaf', x, y);
    NextOrdered(f, w, root, leaf, hi, root', leaf', x, y);
    NextBounding(f, w, root, leaf, root', leaf', x, y);
    TakenSums(f, w, root, leaf, root', leaf', x, y);
  }

  lemma NextBuilt(f: seq<nat>, par: seq<nat>, ro: seq<nat>, w: seq<nat>, root: nat, leaf: nat, hi: nat,
                  root': nat, leaf': nat, x: nat, y: nat)
    requires Built(f, par, ro, w, root, leaf) && Ordered(f, w, root, leaf, hi)
    requires Taken(f, w, root, leaf, root', leaf', x, y) && root' <= |w|
    requires Positive(f) && forall i :: root <= i < root' ==> w[i] + hi <= x + y
    ensures Built(f, Linked(par, |w|, root' - root), ro + [root'], w + [x + y], root', leaf')
  {
    NextTree(ro, par, root');
    NextWeights(w, f, ro, root', leaf', x, y);
    NextGrowing(f, par, ro, w, root, leaf, hi, root', x + y);
    TakenPositive(f, w, root, leaf, root', leaf', x, y);
    hide Links, Tree, Weights, Growing, Ordered, Taken;
  }

  lemma TakenPositive(f: seq<nat>, w: seq<nat>, root: nat, leaf: nat, root': nat, leaf': nat, x: nat, y: nat)
    requires Taken(f, w, root, leaf, root', leaf', x, y) && Positive(f) && forall t :: 0 <= t < |w| ==> w[t] >= 2
    ensures x >= 1 && y >= 1
  {
    var items := w[root..root'] + f[leaf..leaf'];
    forall i | 0 <= i < |items|
      ensures items[i] >= 1
    {
      if i < root' - root {
        assert items[i] == w[root + i];
      } else {
        assert items[i] == f[leaf + i - (root' - root)];
      }
    }
    assert items[0] == x && items[1] == y;
  }

  // The array during pairing: links of the internal nodes taken, weights of those not yet
  // taken, and behind them the frequencies not yet taken.
  ghost predicate Slots(a: array<u16>, f: seq<nat>, par: seq<nat>, w: seq<nat>, root: nat, next: nat, leaf: nat)
    requires |f| <= a.Length && root <= |par| && root <= next <= |w| && next <= leaf <= |f|
    reads a
  {
    (forall i :: 0 <= i < root ==> a[i] == par[i]) && (forall i :: root <= i < next ==> a[i] == w[i]) &&
    (forall i :: leaf <= i < |f| ==> a[i] == f[i])
  }

  lemma FirstPick(f: seq<nat>, w: seq<nat>, root: nat, leaf: nat, root': nat, leaf': nat)
    requires Sorted(f) && Sorted(w) && root <= root' <= |w| && leaf <= leaf' <= |f| && root' + leaf' == root + leaf + 2
    requires root' < |w| && leaf < leaf' ==> f[leaf' - 1] <= w[root']
    requires leaf' < |f| && root < root' ==> w[root' - 1] <= f[leaf']
    ensures forall i, j :: root <= i < root' && root' <= j < |w| ==> w[i] <= w[j]
    ensures forall i, j :: leaf <= i < leaf' && leaf' <= j < |f| ==> f[i] <= f[j]
    ensures forall i, j :: leaf <= i < leaf' && root' <= j < |w| ==> f[i] <= w[j]
    ensures forall i, j :: root <= i < root' && leaf' <= j < |f| ==> w[i] <= f[j]
  {
  }

  // The items taken are the two at the front, and none heavier than one left.
  lemma Picked(f: seq<nat>, par: seq<nat>, ro: seq<nat>, w: seq<nat>, root: nat, leaf: nat, hi: nat, root': nat, leaf': nat)
    returns (x: nat, y: nat)
    requires root <= |w| && leaf <= |f| && Ordered(f, w, root, leaf, hi) && Sorted(f)
    requires root <= root' <= |w| && leaf <= leaf' <= |f| && root' + leaf' == root + leaf + 2
    requires root' < |w| && leaf < leaf' ==> f[leaf' - 1] <= w[root']
    requires leaf' < |f| && root < root' ==> w[root' - 1] <= f[leaf']
    ensures Taken(f, w, root, leaf, root', leaf', x, y) && hi <= x && hi <= y
    ensures (forall i :: root' <= i < |w| ==> x <= w[i] && y <= w[i]) && (forall i :: leaf' <= i < |f| ==> x <= f[i] && y <= f[i])
    ensures forall i :: root <= i < root' ==> w[i] + hi <= x + y
    ensures x == (if root < root' then w[root] else f[leaf]) && y == (if leaf < leaf' then f[leaf' - 1] else w[root' - 1])
  {
    FirstPick(f, w, root, leaf, root', leaf');
    var items := w[root..root'] + f[leaf..leaf'];
    x, y := items[0], items[1];
    assert items == [x, y];
  }

  // The body of the pairing loop on the array: the two lightest items in front go into
  // slot next.
  method TakeTwo(a: array<u16>, root: nat, leaf: nat, next: nat, ghost f: seq<nat>, ghost par: seq<nat>, ghost w: seq<nat>)
    returns (root': nat, leaf': nat)
    requires |f| == a.Length <= 0x1_0000 && next == |w| && root == |par| && root < next < leaf == 2 * next - root <= |f| && next < |f| - 1
    requires Sorted(f) && Sorted(w) && Slots(a, f, par, w, root, next, leaf)
    modifies a
    ensures root <= root' <= next && leaf <= leaf' <= |f| && root' + leaf' == root + leaf + 2
    ensures root' < next && leaf < leaf' ==> f[leaf' - 1] <= w[root']
    ensures leaf' < |f| && root < root' ==> w[root' - 1] <= f[leaf']
    ensures a[next] == ((if root < root' then w[root] else f[leaf]) + (if leaf < leaf' then f[leaf' - 1] else w[root' - 1])) % 0x1_0000
    ensures (forall i :: 0 <= i < root ==> a[i] == par[i]) && (forall i :: root <= i < root' ==> a[i] == next)
    ensures (forall i :: root' <= i < next ==> a[i] == w[i]) && (forall i :: leaf' <= i < |f| ==> a[i] == f[i])
  {
    var n := a.Length;
    root', leaf' := root, leaf;
    if leaf' >= n || a[root'] < a[leaf'] {
      a[next] := a[root'];
      a[root'] := next;
      root' := root' + 1;
    } else {
      a[next] := a[leaf'];
      leaf' := leaf' + 1;
    }
    if leaf' >= n || (root' < next && a[root'] < a[leaf']) {
      a[next] := ((a[next] as nat) + (a[root'] as nat)) % 0x1_0000;
      a[root'] := next;
      root' := root' + 1;
    } else {
      a[next] := ((a[next] as nat) + (a[leaf'] as nat)) % 0x1_0000;
      leaf' := leaf' + 1;
    }
  }

  method PairOnce(a: array<u16>, root: nat, leaf: nat, next: nat, ghost f: seq<nat>, ghost par: seq<nat>, ghost ro: seq<nat>,
                  ghost w: seq<nat>, ghost hi: nat)
    returns (root': nat, leaf': nat, ghost par': seq<nat>, ghost ro': seq<nat>, ghost w': seq<nat>, ghost hi': nat)
    requires |f| == a.Length && Sorted(f) && Positive(f) && Sum(f) < 0x1_0000 && 1 <= next < |f| - 1 && next == |w|
    requires Paired(f, par, ro, w, root, leaf, hi) && next < leaf && Slots(a, f, par, w, root, next, leaf)
    modifies a
    ensures |w'| == next + 1 && Paired(f, par', ro', w', root', leaf', hi') && next + 1 < leaf' && Slots(a, f, par', w', root', next + 1, leaf')
  {
    hide Bounding, Sum, Growing, Weights, Links, Tree, Taken, Slots;
    CountBelowSum(f);
    root', leaf' := TakeTwo(a, root, leaf, next, f, par, w);
    ghost var x, y := Picked(f, par, ro, w, root, leaf, hi, root', leaf');
    NextPaired(f, par, ro, w, root, leaf, hi, root', leaf', x, y);
    NextSlots(a, f, par, w, root, root', leaf', x, y);
    hide Ordered, Paired;
    par', ro', w', hi' := Linked(par, |w|, root' - root), ro + [root'], w + [x + y], if x <= y then y else x;
  }

  lemma NextSlots(a: array<u16>, f: seq<nat>, par: seq<nat>, w: seq<nat>, root: nat, root': nat, leaf': nat, x: nat, y: nat)
    requires |f| <= a.Length && root == |par| <= root' <= |w| < leaf' <= |f| && a[|w|] == x + y
    requires (forall i :: 0 <= i < root ==> a[i] == par[i]) && (forall i :: root <= i < root' ==> a[i] == |w|)
    requires (forall i :: root' <= i < |w| ==> a[i] == w[i]) && (forall i :: leaf' <= i < |f| ==> a[i] == f[i])
    ensures Slots(a, f, Linked(par, |w|, root' - root), w + [x + y], root', |w| + 1, leaf')
  {
  }

  lemma {:induction false} CountBelowSum(f: seq<nat>)
    requires Positive(f)
    ensures |f| <= Sum(f)
  {
    if f != [] {
      CountBelowSum(f[1..]);
    }
  }

  // The start: the two rarest frequencies make the first node.
  lemma FirstPaired(f: seq<nat>)
    requires |f| >= 2 && Sorted(f) && Positive(f)
    ensures Paired(f, [], [0, 0], [f[0] + f[1]], 0, 2, f[1])
  {
    hide AtLeast, Bounding, Built, Sum;
    FirstBuilt(f);
    FirstBounding(f);
  }

  lemma FirstBuilt(f: seq<nat>)
    requires |f| >= 2 && Sorted(f) && Positive(f)
    ensures Built(f, [], [0, 0], [f[0] + f[1]], 0, 2)
  {
    assert TwoChildren([0, 0], 0) && f[0..2] == [f[0], f[1]];
    SumOfOne(f[1]);
    assert Sum(f[0..2]) == f[0] + Sum(f[0..2][1..]) && f[0..2][1..] == [f[1]];
    assert NodeWeight([f[0] + f[1]], f, [0, 0], 0);
  }

  lemma FirstTaken(f: seq<nat>)
    requires |f| >= 2 && Sorted(f)
    ensures Items(f, [], 0, 0) == f && Taken(f, [], 0, 0, 0, 2, f[0], f[1]) && Bounding(f, [], 0, 0) && [] + [f[0] + f[1]] == [f[0] + f[1]]
  {
    assert Items(f, [], 0, 0) == f && f[0..2] == [f[0], f[1]];
    assert [] + [f[0], f[1]] == [f[0], f[1]];
  }

  lemma FirstBounding(f: seq<nat>)
    requires |f| >= 2 && Sorted(f)
    ensures Bounding(f, [f[0] + f[1]], 0, 2) && Sum(Items(f, [f[0] + f[1]], 0, 2)) == Sum(f)
  {
    FirstTaken(f);
    hide AtLeast, Bounding, Sum, Items, Taken;
    NextBounding(f, [], 0, 0, 0, 2, f[0], f[1]);
    TakenSums(f, [], 0, 0, 0, 2, f[0], f[1]);
  }

  // The first pass: a tree whose weights add up to a bound on the cost of any code.
  method Pair(a: array<u16>, ghost f: seq<nat>) returns (ghost par: seq<nat>, ghost ro: seq<nat>, ghost w: seq<nat>)
    requires a.Length >= 2 && a[..] == f && Sorted(f) && Positive(f) && Sum(f) < 0x1_0000
    modifies a
    ensures |ro| == |f| && |par| == |f| - 2 && |w| == |f| - 1 && Built(f, par, ro, w, |f| - 2, |f|) && AtLeast(f, Sum(w)) && w[|f| - 2] < 0x1_0000
    ensures forall i :: 0 <= i < |f| - 2 ==> a[i] == par[i]
  {
    hide AtLeast, Growing, Weights, Links, Tree, Ordered;
    var n := a.Length;
    assert f[0] + f[1] < 0x1_0000 by { FrontSum(f); }
    a[0] := a[0] + a[1];
    var root, leaf, next := 0, 2, 1;
    FirstPaired(f);
    ghost var hi := f[1];
    par, ro, w := [], [0, 0], [f[0] + f[1]];
    while next < n - 1
      invariant 1 <= next <= n - 1 && |w| == next < leaf && Paired(f, par, ro, w, root, leaf, hi)
      invariant Slots(a, f, par, w, root, next, leaf)
    {
      root, leaf, par, ro, w, hi := PairOnce(a, root, leaf, next, f, par, ro, w, hi);
      next := next + 1;
    }
    assert leaf == n && root == n - 2;
    assert Items(f, w, root, leaf) == [w[n - 2]];
    Alone(w[n - 2]);
    assert AtLeast(f, 0 + Sum(w));
    SumOfOne(w[n - 2]);
  }

  lemma FrontSum(f: seq<nat>)
    requires |f| >= 2
    ensures f[0] + f[1] <= Sum(f)
  {
    assert Sum(f[1..]) == f[1] + Sum(f[1..][1..]);
  }

  lemma SumOfOne(x: nat)
    ensures Sum([x]) == x
  {
    assert [x][1..] == [];
  }

  // ----- Depths -----

  // The second pass: links become depths, from the root down.
  method Depths(a: array<u16>, ghost par: seq<nat>, ghost w: seq<nat>)
    requires a.Length >= 2 && |par| == a.Length - 2 && |w| == |par| + 1 && Parents(par, |par| + 1) && Growing(par, w)
    requires w[|par|] < 0x1_0000 && forall k :: 0 <= k < |w| ==> w[k] >= 2
    requires forall i :: 0 <= i < |par| ==> a[i] == par[i]
    modifies a
    ensures forall i :: 0 <= i <= |par| ==> a[i] == Depth(par, i) <= 22
  {
    hide Growing;
    var n := a.Length;
    a[n - 2] := 0;
    var next := n - 3;
    while next >= 0
      invariant -1 <= next <= n - 3
      invariant forall i :: 0 <= i <= next ==> a[i] == par[i]
      invariant forall i :: next < i <= n - 2 ==> a[i] == Depth(par, i) <= 22
    {
      Shallow(par, w, next);
      a[next] := a[a[next]] + 1;
      next := next - 1;
    }
  }

  // Leaf i is a child of node t.
  predicate LeafOf(ro: seq<nat>, i: nat, t: nat) {
    t + 1 < |ro| && Leaves(ro, t) <= i < Leaves(ro, t + 1)
  }

  // The lengths of the leaves from next on are the depths at which they hang.
  ghost predicate Hung(l: seq<nat>, par: seq<nat>, ro: seq<nat>, next: int)
    requires Parents(par, |par| + 1)
  {
    |ro| == |par| + 2 && forall i: nat, t: nat :: next < i < |l| && LeafOf(ro, i, t) ==> l[i] == Depth(par, t) + 1
  }

  // The nodes above level dpth are those after root; their children are known by ro.
  ghost predicate Level(par: seq<nat>, ro: seq<nat>, root: int, top: nat, dpth: nat)
    requires Parents(par, |par| + 1)
  {
    |ro| == |par| + 2 && -1 <= root < top <= |par| && dpth >= 1 && ro[top + 1] == root + 1 &&
    (forall i :: 0 <= i <= root ==> Depth(par, i) >= dpth) && (forall i :: root < i <= top ==> Depth(par, i) == dpth - 1) &&
    (forall i :: top < i <= |par| ==> Depth(par, i) < dpth - 1)
  }

  lemma {:induction false} ManyChildren(ro: seq<nat>, s: nat, t: nat)
    requires Tree(ro) && s <= t < |ro|
    ensures ro[t] - ro[s] <= 2 * (t - s)
    decreases t
  {
    if s < t {
      ManyChildren(ro, s, t - 1);
      assert TwoChildren(ro, t - 1);
    }
  }

  // The next internal node is on level dpth exactly while its parent lies on the level above.
  lemma OnLevel(par: seq<nat>, ro: seq<nat>, root: int, top: nat, dpth: nat, i: nat)
    requires Tree(ro) && Links(par, ro) && Parents(par, |par| + 1) && Level(par, ro, root, top, dpth) && i <= root
    ensures Depth(par, i) == dpth <==> i >= ro[root + 1]
    ensures Depth(par, i) > dpth <==> i < ro[root + 1]
  {
    var p := par[i];
    if i >= ro[root + 1] {
      if p <= root {
        TreeMonotone(ro, p + 1, root + 1);
      }
    } else {
      if p > root {
        TreeMonotone(ro, root + 1, p);
      }
    }
  }

  // Leaves between the two bounds hang from the level above.
  lemma LeafLevel(par: seq<nat>, ro: seq<nat>, root: int, top: nat, dpth: nat, i: nat, t: nat)
    requires Tree(ro) && Parents(par, |par| + 1) && Level(par, ro, root, top, dpth) && LeafOf(ro, i, t)
    requires root + 1 <= top && Leaves(ro, root + 1) <= i < Leaves(ro, top + 1)
    ensures Depth(par, t) + 1 == dpth
  {
    if t <= root {
      TreeMonotone(ro, t + 1, root + 1);
    }
    if t > top {
      TreeMonotone(ro, top + 1, t);
    }
  }

  // What the passes have to do with each other at the start of a level: above it everything
  // is dealt with, and the free slots are those of the children still to come.
  ghost predicate AtLevel(l: seq<nat>, par: seq<nat>, ro: seq<nat>, root: int, top: nat, dpth: nat, next: int, avbl: nat)
    requires Parents(par, |par| + 1)
  {
    |l| == |ro| && Level(par, ro, root, top, dpth) && avbl == 2 * (top - root) && next == root + avbl && next < |l| &&
    next + 1 == Leaves(ro, top + 1) && Hung(l, par, ro, next)
  }

  // Falling lengths, none above the current depth, and the share of code space they leave.
  ghost predicate Tail(l: seq<nat>, next: int, dpth: nat, avbl: nat)
    requires -1 <= next < |l|
  {
    dpth <= MAX_DEPTH && (forall i, j :: next < i < j < |l| ==> l[j] <= l[i]) && (forall i :: next < i < |l| ==> 1 <= l[i] <= dpth) &&
    Kraft(l[next + 1..], MAX_DEPTH) + avbl * Pow2(MAX_DEPTH - dpth) == Pow2(MAX_DEPTH)
  }

  lemma OneLeaf(l: seq<nat>, next: nat, dpth: nat, avbl: nat)
    requires next < |l| && avbl > 0 && 1 <= dpth && dpth == l[next]
    requires Tail(l, next, dpth, avbl)
    ensures Tail(l, next - 1, dpth, avbl - 1)
  {
    assert l[next..] == [dpth] + l[next + 1..];
    assert avbl * Pow2(MAX_DEPTH - dpth) == (avbl - 1) * Pow2(MAX_DEPTH - dpth) + Pow2(MAX_DEPTH - dpth);
  }

  lemma LevelDown(l: seq<nat>, next: int, dpth: nat, used: nat)
    requires -1 <= next < |l| && Tail(l, next, dpth, used) && dpth < MAX_DEPTH
    ensures Tail(l, next, dpth + 1, 2 * used)
  {
    assert Pow2(MAX_DEPTH - dpth) == 2 * Pow2(MAX_DEPTH - (dpth + 1));
    hide Pow2, Kraft;
    Halved(used, Pow2(MAX_DEPTH - (dpth + 1)));
  }

  lemma Halved(used: nat, p: nat)
    ensures (2 * used) * p == used * (2 * p)
  {
  }

  // Going from one level to the next.
  lemma NextLevel(l: seq<nat>, l': seq<nat>, par: seq<nat>, ro: seq<nat>, root: int, top: nat, dpth: nat, next: int, avbl: nat, root': int, next': int)
    requires Tree(ro) && Links(par, ro) && Parents(par, |par| + 1) && AtLevel(l, par, ro, root, top, dpth, next, avbl)
    requires -1 <= root' < root && root' + 1 == ro[root + 1] && next' == root' + 2 * (root - root') && |l'| == |l|
    requires next' <= next && (forall i :: next < i < |l| ==> l'[i] == l[i]) && forall i :: next' < i <= next ==> l'[i] == dpth
    ensures AtLevel(l', par, ro, root', root, dpth + 1, next', 2 * (root - root'))
  {
    forall i: nat | i <= root
      ensures i <= root' ==> Depth(par, i) >= dpth + 1
      ensures i > root' ==> Depth(par, i) == dpth
    {
      OnLevel(par, ro, root, top, dpth, i);
    }
    forall i: nat, t: nat | next' < i < |l'| && LeafOf(ro, i, t)
      ensures l'[i] == Depth(par, t) + 1
    {
      if i <= next {
        LeafLevel(par, ro, root, top, dpth, i, t);
      }
    }
  }

  lemma FirstLevel(l: seq<nat>, par: seq<nat>, ro: seq<nat>)
    requires Tree(ro) && Links(par, ro) && Parents(par, |par| + 1) && |ro| == |par| + 2 == |l|
    ensures AtLevel(l, par, ro, |par| - 1, |par|, 1, |par| + 1, 2)
    ensures forall i :: 0 <= i < |par| ==> Depth(par, i) >= 1
  {
  }

  // How many internal nodes are left when the current level is read: those whose parents
  // lie above it stay.
  ghost predicate Reading(par: seq<nat>, ro: seq<nat>, root: int, top: nat, dpth: nat, next: int, avbl: nat)
    requires Parents(par, |par| + 1)
  {
    |ro| == |par| + 2 && Tree(ro) && Links(par, ro) && -1 <= root <= |par| &&
    if dpth == 0 then root == |par| == top && next == |par| + 1 && avbl == 1
    else Level(par, ro, root, top, dpth) && avbl == 2 * (top - root) && next == root + avbl
  }

  lemma ReadsOn(par: seq<nat>, ro: seq<nat>, root: int, top: nat, dpth: nat, next: int, avbl: nat, i: nat)
    requires Parents(par, |par| + 1) && Reading(par, ro, root, top, dpth, next, avbl) && i <= root
    ensures dpth == 0 ==> (Depth(par, i) == 0 <==> i == |par|)
    ensures dpth > 0 ==> (Depth(par, i) == dpth <==> i >= ro[root + 1])
  {
    if dpth > 0 {
      OnLevel(par, ro, root, top, dpth, i);
    }
  }

  // The nodes on the level fit into the free slots.
  lemma LevelFits(par: seq<nat>, ro: seq<nat>, root: int, top: nat, dpth: nat, next: int, avbl: nat)
    requires Parents(par, |par| + 1) && Reading(par, ro, root, top, dpth, next, avbl) && dpth > 0 && root >= 0
    ensures 0 <= ro[root + 1] <= root && root + 1 - ro[root + 1] <= avbl
  {
    ManyChildren(ro, root + 1, top + 1);
    assert TwoChildren(ro, root);
  }

  // The internal nodes on the current level.
  method ReadLevel(a: array<u16>, root: int, next: int, avbl: nat, dpth: nat, ghost par: seq<nat>, ghost ro: seq<nat>, ghost top: nat)
    returns (root': int, used: nat)
    requires Parents(par, |par| + 1) && Reading(par, ro, root, top, dpth, next, avbl) && a.Length == |par| + 2 && avbl > 0
    requires forall i :: 0 <= i <= root ==> a[i] == Depth(par, i)
    ensures used == root - root' && used <= avbl
    ensures root == -1 ==> root' == -1
    ensures root >= 0 ==> -1 <= root' < root && (if dpth == 0 then root' == root - 1 else root' + 1 == ro[root + 1])
  {
    hide Level, Depth, Parents, Tree, Links;
    root', used := root, 0;
    if root >= 0 && dpth > 0 {
      LevelFits(par, ro, root, top, dpth, next, avbl);
    }
    while root' >= 0 && a[root'] == dpth
      invariant -1 <= root' <= root && used == root - root' && used <= avbl
      invariant dpth == 0 ==> root' >= root - 1
      invariant dpth > 0 && root >= 0 ==> ro[root + 1] <= root' + 1
    {
      ReadsOn(par, ro, root, top, dpth, next, avbl, root');
      used := used + 1;
      root' := root' - 1;
    }
    if root' >= 0 {
      ReadsOn(par, ro, root, top, dpth, next, avbl, root');
    }
  }

  // One turn of the outer loop of the third pass: count the internal nodes on this level
  // and give the level's depth to the leaves on it.
  method HangLevel(a: array<u16>, root: int, next: int, avbl: nat, dpth: nat, ghost par: seq<nat>, ghost ro: seq<nat>, ghost top: nat)
    returns (root': int, next': int, used: nat)
    requires Parents(par, |par| + 1) && Reading(par, ro, root, top, dpth, next, avbl) && a.Length == |par| + 2 && avbl > 0
    requires (forall i :: 0 <= i <= root ==> a[i] == Depth(par, i)) && next < a.Length && Tail(a[..], next, dpth, avbl)
    requires dpth <= MAX_DEPTH
    modifies a
    ensures used == root - root' && next' == root' + 2 * used && -1 <= next' <= next
    ensures root == -1 ==> root' == -1
    ensures root >= 0 ==> -1 <= root' < root && (if dpth == 0 then root' == root - 1 && next' == next else root' + 1 == ro[root + 1])
    ensures (forall i :: 0 <= i <= root' ==> a[i] == Depth(par, i)) && (forall i :: next < i < a.Length ==> a[i] == old(a[i]))
    ensures (forall i :: next' < i <= next ==> a[i] == dpth) && Tail(a[..], next', dpth, used)
  {
    root', used := ReadLevel(a, root, next, avbl, dpth, par, ro, top);
    assert next == root' + avbl + used && (dpth == 0 ==> used == 1);
    hide Tail, Level, Depth, Parents, Tree, Links, Reading;
    next' := GiveDepth(a, next, avbl, used, dpth);
  }

  // The free slots that no internal node takes are leaves.
  method GiveDepth(a: array<u16>, next: int, avbl: nat, used: nat, dpth: nat) returns (next': int)
    requires used <= avbl && -1 <= next - (avbl - used) && next < a.Length && Tail(a[..], next, dpth, avbl)
    requires dpth == 0 ==> avbl == used
    requires dpth < 0x1_0000
    modifies a
    ensures next' == next - (avbl - used) && Tail(a[..], next', dpth, used)
    ensures forall i :: 0 <= i < a.Length ==> a[i] == if next' < i <= next then dpth else old(a[i])
  {
    hide Tail;
    next' := next;
    var left := avbl;
    while left > used
      invariant used <= left <= avbl && next' == next - (avbl - left) && Tail(a[..], next', dpth, left)
      invariant forall i :: 0 <= i < a.Length ==> a[i] == if next' < i <= next then dpth else old(a[i])
    {
      ghost var before := a[..];
      a[next'] := dpth;
      assert before[next' + 1..] == a[..][next' + 1..];
      SameTail(before, a[..], next', dpth, left);
      OneLeaf(a[..], next', dpth, left);
      next' := next' - 1;
      left := left - 1;
    }
  }

  lemma SameTail(l: seq<nat>, m: seq<nat>, next: int, dpth: nat, avbl: nat)
    requires |l| == |m| && -1 <= next < |l| && Tail(l, next, dpth, avbl) && l[next + 1..] == m[next + 1..]
    ensures Tail(m, next, dpth, avbl)
  {
    forall i | next < i < |l|
      ensures l[i] == m[i]
    {
      assert l[i] == l[next + 1..][i - next - 1] && m[i] == m[next + 1..][i - next - 1];
    }
  }

  lemma LastLevel(l: seq<nat>, l': seq<nat>, par: seq<nat>, ro: seq<nat>, top: nat, dpth: nat, next: int, avbl: nat)
    requires Tree(ro) && Links(par, ro) && Parents(par, |par| + 1) && AtLevel(l, par, ro, -1, top, dpth, next, avbl)
    requires |l'| == |l| && (forall i :: next < i < |l| ==> l'[i] == l[i]) && forall i :: 0 <= i <= next ==> l'[i] == dpth
    ensures Hung(l', par, ro, -1)
  {
    forall i: nat, t: nat | i < |l'| && LeafOf(ro, i, t)
      ensures l'[i] == Depth(par, t) + 1
    {
      if i <= next {
        LeafLevel(par, ro, -1, top, dpth, i, t);
      }
    }
  }

  ghost predicate DepthsUpTo(l: seq<nat>, par: seq<nat>, root: int)
    requires Parents(par, |par| + 1) && root <= |par| && root < |l|
  {
    forall i :: 0 <= i <= root ==> l[i] == Depth(par, i)
  }

  // The state at the start of each turn of the outer loop.
  ghost predicate Hanging(l: seq<nat>, par: seq<nat>, ro: seq<nat>, root: int, top: nat, dpth: nat, next: int, avbl: nat)
    requires Parents(par, |par| + 1)
  {
    |l| == |par| + 2 && -1 <= next < |l| && -1 <= root <= |par| && Tail(l, next, dpth, avbl) &&
    if avbl == 0 then root == -1 && next == -1 && Hung(l, par, ro, -1) && dpth <= 24
    else Reading(par, ro, root, top, dpth, next, avbl) && dpth <= 23 && DepthsUpTo(l, par, root) &&
         (dpth > 0 ==> AtLevel(l, par, ro, root, top, dpth, next, avbl))
  }

  // What a turn of the outer loop does to the array.
  ghost predicate LevelDone(l: seq<nat>, l': seq<nat>, root: int, dpth: nat, next: int, root': int, next': int, used: nat) {
    |l'| == |l| && used == root - root' && next' == root' + 2 * used && -1 <= next' <= next < |l| &&
    (root == -1 ==> root' == -1) && (root >= 0 ==> -1 <= root' < root) && (dpth == 0 && root >= 0 ==> root' == root - 1 && next' == next) &&
    (forall i :: next < i < |l| ==> l'[i] == l[i]) && (forall i :: next' < i <= next ==> l'[i] == dpth)
  }

  lemma NextHanging(l: seq<nat>, l': seq<nat>, par: seq<nat>, ro: seq<nat>, root: int, top: nat, dpth: nat, next: int, avbl: nat,
                    root': int, next': int, used: nat)
    requires |ro| == |par| + 2 == |l| == |l'| && -1 <= root' <= |par| && root <= |par| && -1 <= next' < |l'| && avbl > 0
    requires dpth > 0 && root >= 0 ==> root' + 1 == ro[root + 1]
    requires LevelDone(l, l', root, dpth, next, root', next', used) && Tail(l', next', dpth, used)
    requires Parents(par, |par| + 1) && DepthsUpTo(l', par, root') && forall i :: 0 <= i <= |par| ==> Depth(par, i) <= 22
    requires Hanging(l, par, ro, root, top, dpth, next, avbl)
    ensures Hanging(l', par, ro, root', if root >= 0 then root else 0, dpth + 1, next', 2 * used)
  {
    hide Tail, Level, Hung, Depth, Parents;
    LevelDown(l', next', dpth, used);
    if dpth == 0 {
      FirstLevel(l', par, ro);
    } else if root >= 0 {
      NextLevel(l, l', par, ro, root, top, dpth, next, avbl, root', next');
      assert Depth(par, root) == dpth by { OnLevel(par, ro, root, top, dpth, root); }
    } else {
      LastLevel(l, l', par, ro, top, dpth, next, avbl);
    }
  }

  // The third pass: level by level from the root, the depths of the leaves from the most
  // frequent down.
  method Hang(a: array<u16>, ghost par: seq<nat>, ghost ro: seq<nat>)
    requires a.Length == |par| + 2 == |ro| && Tree(ro) && Links(par, ro) && Parents(par, |par| + 1)
    requires forall i :: 0 <= i <= |par| ==> a[i] == Depth(par, i) <= 22
    modifies a
    ensures Hung(a[..], par, ro, -1) && exists d :: d <= 24 && Tail(a[..], -1, d, 0)
  {
    hide Tail, Level, Hung, Depth, Parents, AtLevel, Reading;
    var n := a.Length;
    var avbl, dpth := 1, 0;
    var root, next := n - 2, n - 1;
    ghost var top: nat := |par|;
    StartHanging(a[..], par, ro);
    while avbl > 0
      invariant Hanging(a[..], par, ro, root, top, dpth, next, avbl)
      decreases root + next + 2, avbl
    {
      ghost var before := a[..];
      assert forall i :: 0 <= i <= root ==> a[i] == before[i] == Depth(par, i);
      var root', next', used := HangLevel(a, root, next, avbl, dpth, par, ro, top);
      NextHanging(before, a[..], par, ro, root, top, dpth, next, avbl, root', next', used);
      Shrinks(before, par, ro, root, top, dpth, next, avbl);
      top := if root >= 0 then root else 0;
      root, next, avbl, dpth := root', next', 2 * used, dpth + 1;
    }
  }

  lemma Shrinks(l: seq<nat>, par: seq<nat>, ro: seq<nat>, root: int, top: nat, dpth: nat, next: int, avbl: nat)
    requires Parents(par, |par| + 1) && Hanging(l, par, ro, root, top, dpth, next, avbl) && avbl > 0
    ensures root == -1 ==> next >= 0
  {
    hide Tail, Depth, Parents;
  }

  lemma StartHanging(l: seq<nat>, par: seq<nat>, ro: seq<nat>)
    requires |l| == |par| + 2 == |ro| && Tree(ro) && Links(par, ro) && Parents(par, |par| + 1)
    requires forall i :: 0 <= i <= |par| ==> l[i] == Depth(par, i)
    ensures Hanging(l, par, ro, |par|, |par|, 0, |par| + 1, 1)
  {
    assert l[|l|..] == [];
  }

  // ----- Cost -----

  // Weights times depths of the first t internal nodes.
  function DepthSum(par: seq<nat>, w: seq<nat>, t: nat): nat
    requires Parents(par, |par| + 1) && t <= |w| <= |par| + 1
  {
    if t == 0 then 0 else DepthSum(par, w, t - 1) + w[t - 1] * Depth(par, t - 1)
  }

  lemma {:induction false} SumFront(w: seq<nat>, t: nat)
    requires t < |w|
    ensures Sum(w[..t + 1]) == Sum(w[..t]) + w[t]
  {
    assert w[..t + 1] == w[..t] + [w[t]];
    SumOfBoth(w[..t], [w[t]]);
    SumOfOne(w[t]);
  }

  // A stretch of nodes at one depth.
  lemma {:induction false} StretchSum(par: seq<nat>, w: seq<nat>, lo: nat, hi: nat, d: nat)
    requires Parents(par, |par| + 1) && lo <= hi <= |w| <= |par| + 1 && forall i :: lo <= i < hi ==> Depth(par, i) == d
    ensures DepthSum(par, w, hi) == DepthSum(par, w, lo) + Sum(w[lo..hi]) * d
    decreases hi
  {
    if lo < hi {
      StretchSum(par, w, lo, hi - 1, d);
      assert w[lo..hi] == w[lo..hi - 1] + [w[hi - 1]];
      SumOfBoth(w[lo..hi - 1], [w[hi - 1]]);
      SumOfOne(w[hi - 1]);
      assert (Sum(w[lo..hi - 1]) + w[hi - 1]) * d == Sum(w[lo..hi - 1]) * d + w[hi - 1] * d;
    }
  }

  lemma DotFront(f: seq<nat>, l: seq<nat>, t: nat)
    requires |f| == |l| && t < |f|
    ensures Dot(f[..t + 1], l[..t + 1]) == Dot(f[..t], l[..t]) + f[t] * l[t]
  {
    DotWithout(f[..t + 1], l[..t + 1], t);
    assert Without(f[..t + 1], t) == f[..t] && Without(l[..t + 1], t) == l[..t];
  }

  lemma SumOfNothing(s: seq<nat>)
    requires s == []
    ensures Sum(s) == 0
  {
  }

  lemma {:induction false} StretchDot(f: seq<nat>, l: seq<nat>, lo: nat, hi: nat, d: nat)
    requires |f| == |l| && lo <= hi <= |f| && forall i :: lo <= i < hi ==> l[i] == d
    ensures Dot(f[..hi], l[..hi]) == Dot(f[..lo], l[..lo]) + Sum(f[lo..hi]) * d
    decreases hi
  {
    hide Sum, Dot;
    if lo < hi {
      StretchDot(f, l, lo, hi - 1, d);
      DotFront(f, l, hi - 1);
      assert f[lo..hi] == f[lo..hi - 1] + [f[hi - 1]];
      SumOfBoth(f[lo..hi - 1], [f[hi - 1]]);
      SumOfOne(f[hi - 1]);
      Distribute(Sum(f[lo..hi - 1]), f[hi - 1], d);
    } else {
      SumOfNothing(f[lo..hi]);
    }
  }

  // Summed over nodes: a weight counts once more at a node's children than at the node.
  lemma {:induction false} CostTo(f: seq<nat>, l: seq<nat>, par: seq<nat>, ro: seq<nat>, w: seq<nat>, t: nat)
    requires Parents(par, |par| + 1) && Tree(ro) && Links(par, ro) && Weights(w, f, ro) && |l| == |f| && |ro| == |par| + 2
    requires Hung(l, par, ro, -1) && t <= |w|
    ensures ro[t] <= |w| && 0 <= Leaves(ro, t) <= |f|
    ensures DepthSum(par, w, t) + Sum(w[..t]) == DepthSum(par, w, ro[t]) + Dot(f[..Leaves(ro, t)], l[..Leaves(ro, t)])
    decreases t
  {
    if t > 0 {
      var s := t - 1;
      CostTo(f, l, par, ro, w, s);
      assert NodeWeight(w, f, ro, s);
      var d := Depth(par, s) + 1;
      forall i | ro[s] <= i < ro[t]
        ensures Depth(par, i) == d
      {
        LinkIs(par, ro, i, s);
      }
      StretchSum(par, w, ro[s], ro[t], d);
      forall i | Leaves(ro, s) <= i < Leaves(ro, t)
        ensures l[i] == d
      {
        assert LeafOf(ro, i, s);
      }
      StretchDot(f, l, Leaves(ro, s), Leaves(ro, t), d);
      SumFront(w, s);
      CostStep(Sum(w[ro[s]..ro[t]]), Sum(f[Leaves(ro, s)..Leaves(ro, t)]), w[s], d);
    }
  }

  lemma CostStep(a: nat, b: nat, w: nat, d: nat)
    requires w == a + b && d >= 1
    ensures w * (d - 1) + w == a * d + b * d
  {
    assert w * (d - 1) + w == w * d;
    assert (a + b) * d == a * d + b * d;
  }

  lemma LinkIs(par: seq<nat>, ro: seq<nat>, i: nat, t: nat)
    requires Tree(ro) && Links(par, ro) && t + 1 < |ro| && ro[t] <= i < ro[t + 1]
    ensures i < |par| && par[i] == t
  {
    TreeMonotone(ro, t + 1, |ro| - 1);
    if par[i] < t {
      TreeMonotone(ro, par[i] + 1, t);
    } else if par[i] > t {
      TreeMonotone(ro, t + 1, par[i]);
    }
  }

  lemma RootIsFree(par: seq<nat>, w: seq<nat>)
    requires Parents(par, |par| + 1) && |w| == |par| + 1
    ensures DepthSum(par, w, |w|) == DepthSum(par, w, |w| - 1)
  {
    assert Depth(par, |par|) == 0;
    assert w[|w| - 1] * 0 == 0;
  }

  // The weights of the internal nodes add up to the cost of the lengths.
  lemma CostIsWeights(f: seq<nat>, l: seq<nat>, par: seq<nat>, ro: seq<nat>, w: seq<nat>)
    requires Parents(par, |par| + 1) && Tree(ro) && Links(par, ro) && Weights(w, f, ro) && |l| == |f| == |par| + 2 == |ro|
    requires Hung(l, par, ro, -1)
    ensures Dot(f, l) == Sum(w)
  {
    var t := |w|;
    CostTo(f, l, par, ro, w, t);
    assert w[..t] == w && f[..|f|] == f && l[..|f|] == l;
    RootIsFree(par, w);
    hide DepthSum, Sum, Dot, Links, Hung;
  }

  // ----- The whole algorithm -----

  // tdefl_calculate_minimum_redundancy for two or more symbols: the lengths fill the code
  // space exactly, do not grow with the frequency, and no prefix code is cheaper.
  method CalculateMinimumRedundancy(a: array<u16>, ghost f: seq<nat>)
    requires a[..] == f && Sorted(f) && Positive(f) && Sum(f) < 0x1_0000
    modifies a
    ensures |f| == 1 ==> a[0] == 1
    ensures |f| >= 2 ==> Within(a[..], MAX_DEPTH) && Kraft(a[..], MAX_DEPTH) == Pow2(MAX_DEPTH) && AtLeast(f, Dot(f, a[..]))
    ensures (forall i, j :: 0 <= i < j < |f| ==> a[j] <= a[i]) && forall i :: 0 <= i < |f| ==> 1 <= a[i] <= 24
  {
    hide AtLeast, Growing, Weights, Links, Tree, Hung, Parents, Kraft, Dot, Depth;
    var n := a.Length;
    if n == 0 {
      return;
    } else if n == 1 {
      a[0] := 1;
      return;
    }
    ghost var par, ro, w := Pair(a, f);
    LinksAreParents(par, ro);
    Depths(a, par, w);
    Hang(a, par, ro);
    CostIsWeights(f, a[..], par, ro, w);
    ghost var d :| d <= 24 && Tail(a[..], -1, d, 0);
    assert a[..][0..] == a[..];
    TailWithin(a[..], d);
  }

  lemma TailWithin(l: seq<nat>, d: nat)
    requires l != [] && Tail(l, -1, d, 0) && d <= 24 && l[0..] == l
    ensures Within(l, MAX_DEPTH) && Kraft(l, MAX_DEPTH) == Pow2(MAX_DEPTH)
    ensures (forall i, j :: 0 <= i < j < |l| ==> l[j] <= l[i]) && forall i :: 0 <= i < |l| ==> 1 <= l[i] <= 24
  {
  }
}
