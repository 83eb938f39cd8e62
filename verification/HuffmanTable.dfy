// The decompressor's Huffman tables: a lookup table for ten bits, and behind its negative
// entries a tree for longer words, both filled in place from the code lengths.

module HuffmanTable {
  import opened Bits
  import opened HuffmanCode

  const FAST_BITS: nat := 10
  const FAST_SIZE: nat := 1024
  const TREE_SIZE: nat := 576
  const MAX_SYMBOLS: nat := 288

  // ----- What the slots hold -----

  // The branching points that have a place in the tree, with their numbers.
  type Nodes = map<seq<bool>, nat>

  // Symbol i has a short word, and q begins with it.
  ghost predicate Covers(cs: seq<nat>, i: nat, q: seq<bool>) {
    Used(cs, i) && cs[i] <= FAST_BITS && Word(cs, i) <= q
  }

  // Symbol i has a long word, which is q.
  ghost predicate Ends(cs: seq<nat>, i: nat, q: seq<bool>) {
    Used(cs, i) && cs[i] > FAST_BITS && Word(cs, i) == q
  }

  // How a slot refers to a branching point.
  function Ref(node: nat): int {
    -1 - 2 * node
  }

  ghost predicate FastSlot(cs: seq<nat>, done: nat, nodes: Nodes, q: seq<bool>, v: int) {
    (q in nodes ==> v == Ref(nodes[q])) &&
    (forall i: nat :: i < done && Covers(cs, i, q) ==> v == cs[i] * 512 + i) &&
    (q !in nodes && (forall i: nat :: i < done ==> !Covers(cs, i, q)) ==> v == 0)
  }

  ghost predicate TreeSlot(cs: seq<nat>, done: nat, nodes: Nodes, q: seq<bool>, v: int) {
    (q in nodes ==> v == Ref(nodes[q])) &&
    (forall i: nat :: i < done && Ends(cs, i, q) ==> v == i) &&
    (q !in nodes && (forall i: nat :: i < done ==> !Ends(cs, i, q)) ==> v == 0)
  }

  function Side(node: nat, b: bool): nat {
    2 * node + if b then 1 else 0
  }

  ghost predicate Distinct(nodes: Nodes) {
    forall p, q :: p in nodes && q in nodes && nodes[p] == nodes[q] ==> p == q
  }

  ghost predicate Rooted(nodes: Nodes) {
    forall p :: p in nodes && |p| > FAST_BITS ==> p[..|p| - 1] in nodes
  }

  ghost predicate Branching(cs: seq<nat>, nodes: Nodes) {
    forall p :: p in nodes ==> FAST_BITS <= |p| && Inner(cs, p) && nodes[p] < |nodes|
  }

  ghost predicate GoodNodes(cs: seq<nat>, nodes: Nodes) {
    Branching(cs, nodes) && Rooted(nodes) && Distinct(nodes) && 2 * |nodes| <= TREE_SIZE
  }

  ghost predicate GoodLookUp(cs: seq<nat>, done: nat, nodes: Nodes, lk: seq<int>) {
    |lk| == FAST_SIZE && forall x :: 0 <= x < FAST_SIZE ==> FastSlot(cs, done, nodes, Lsb(x, FAST_BITS), lk[x])
  }

  ghost predicate GoodTree(cs: seq<nat>, done: nat, nodes: Nodes, tr: seq<int>)
    requires GoodNodes(cs, nodes)
  {
    |tr| == TREE_SIZE &&
    (forall p, b :: p in nodes ==> TreeSlot(cs, done, nodes, p + [b], tr[Side(nodes[p], b)])) &&
    (forall k :: 2 * |nodes| <= k < TREE_SIZE ==> tr[k] == 0)
  }

  // Every long word dealt with has its whole path in the tree.
  ghost predicate Paths(cs: seq<nat>, done: nat, nodes: Nodes) {
    forall i: nat, d: nat :: i < done && Used(cs, i) && FAST_BITS <= d < cs[i] ==> Word(cs, i)[..d] in nodes
  }

  ghost predicate Tables(cs: seq<nat>, done: nat, nodes: Nodes, lk: seq<int>, tr: seq<int>) {
    GoodNodes(cs, nodes) && GoodLookUp(cs, done, nodes, lk) && GoodTree(cs, done, nodes, tr) && Paths(cs, done, nodes)
  }

  // ----- Branching points and words -----

  // A short word never begins a branching point, nor is a long word one.
  lemma NodeNotCovered(cs: seq<nat>, q: seq<bool>, i: nat)
    requires Feasible(cs) && Inner(cs, q) && Used(cs, i)
    ensures !(Word(cs, i) <= q)
  {
    if Word(cs, i) <= q {
      var j: nat :| Used(cs, j) && |q| < cs[j] && q <= Word(cs, j);
      PrefixFree(cs, i, j);
    }
  }

  lemma OneCovers(cs: seq<nat>, q: seq<bool>, i: nat, j: nat)
    requires Feasible(cs) && Used(cs, i) && Used(cs, j) && Word(cs, i) <= q && Word(cs, j) <= q
    ensures i == j
  {
    if cs[i] <= cs[j] {
      assert Word(cs, i) == q[..cs[i]] && Word(cs, j) == q[..cs[j]];
      PrefixFree(cs, i, j);
    } else {
      assert Word(cs, i) == q[..cs[i]] && Word(cs, j) == q[..cs[j]];
      PrefixFree(cs, j, i);
    }
  }

  // ----- The steps of filling the tables -----

  lemma EmptyTables(cs: seq<nat>, lk: seq<int>, tr: seq<int>)
    requires |lk| == FAST_SIZE && |tr| == TREE_SIZE
    requires (forall k :: 0 <= k < |lk| ==> lk[k] == 0) && (forall k :: 0 <= k < |tr| ==> tr[k] == 0)
    ensures Tables(cs, 0, map[], lk, tr)
  {
  }

  // Slots that symbol i has nothing to do with.
  lemma LookUpWithout(cs: seq<nat>, i: nat, nodes: Nodes, lk: seq<int>)
    requires GoodLookUp(cs, i, nodes, lk) && (Used(cs, i) ==> cs[i] > FAST_BITS)
    ensures GoodLookUp(cs, i + 1, nodes, lk)
  {
    hide Word, Lsb, Ref;
    forall x | 0 <= x < FAST_SIZE
      ensures FastSlot(cs, i + 1, nodes, Lsb(x, FAST_BITS), lk[x])
    {
      var q := Lsb(x, FAST_BITS);
      assert FastSlot(cs, i, nodes, q, lk[x]) && !Covers(cs, i, q);
    }
  }

  lemma TreeWithout(cs: seq<nat>, i: nat, nodes: Nodes, tr: seq<int>)
    requires GoodNodes(cs, nodes) && GoodTree(cs, i, nodes, tr) && (Used(cs, i) ==> cs[i] <= FAST_BITS)
    ensures GoodTree(cs, i + 1, nodes, tr)
  {
    hide Inner, Word, Ref, TreeSlot, Ends;
    forall p, b | p in nodes
      ensures TreeSlot(cs, i + 1, nodes, p + [b], tr[Side(nodes[p], b)])
    {
      assert TreeSlot(cs, i, nodes, p + [b], tr[Side(nodes[p], b)]);
      ShortEndsNothing(cs, i, p + [b]);
      OtherSlot(cs, i, nodes, p + [b], tr[Side(nodes[p], b)]);
    }
  }

  lemma ShortEndsNothing(cs: seq<nat>, i: nat, q: seq<bool>)
    requires Used(cs, i) ==> cs[i] <= FAST_BITS
    ensures !Ends(cs, i, q)
  {
  }

  lemma PathsWithout(cs: seq<nat>, i: nat, nodes: Nodes)
    requires Paths(cs, i, nodes) && (Used(cs, i) ==> cs[i] <= FAST_BITS)
    ensures Paths(cs, i + 1, nodes)
  {
  }

  lemma SkipUnused(cs: seq<nat>, i: nat, nodes: Nodes, lk: seq<int>, tr: seq<int>)
    requires Tables(cs, i, nodes, lk, tr) && !Used(cs, i)
    ensures Tables(cs, i + 1, nodes, lk, tr)
  {
    hide GoodNodes, GoodLookUp, GoodTree, Paths;
    LookUpWithout(cs, i, nodes, lk);
    TreeWithout(cs, i, nodes, tr);
    PathsWithout(cs, i, nodes);
  }

  // A short word goes into every slot that begins with it.
  lemma ShortSlot(cs: seq<nat>, i: nat, nodes: Nodes, q: seq<bool>, v: int)
    requires Feasible(cs) && Used(cs, i) && cs[i] <= FAST_BITS && FastSlot(cs, i, nodes, q, v) && (q in nodes ==> Inner(cs, q))
    ensures FastSlot(cs, i + 1, nodes, q, if Covers(cs, i, q) then cs[i] * 512 + i else v)
  {
    hide Inner, Word, Feasible, Ref;
    if Covers(cs, i, q) {
      if q in nodes {
        NodeNotCovered(cs, q, i);
      }
      forall j: nat | j < i
        ensures !Covers(cs, j, q)
      {
        if Covers(cs, j, q) {
          OneCovers(cs, q, i, j);
        }
      }
    }
  }

  lemma AddShort(cs: seq<nat>, i: nat, nodes: Nodes, lk: seq<int>, tr: seq<int>, lk': seq<int>)
    requires Feasible(cs) && Tables(cs, i, nodes, lk, tr) && Used(cs, i) && cs[i] <= FAST_BITS && |lk'| == FAST_SIZE
    requires forall x :: 0 <= x < FAST_SIZE ==> lk'[x] == if Covers(cs, i, Lsb(x, FAST_BITS)) then cs[i] * 512 + i else lk[x]
    ensures Tables(cs, i + 1, nodes, lk', tr)
  {
    hide Inner, Feasible, FastSlot, Covers, GoodTree, Paths;
    TreeWithout(cs, i, nodes, tr);
    PathsWithout(cs, i, nodes);
    forall x | 0 <= x < FAST_SIZE
      ensures FastSlot(cs, i + 1, nodes, Lsb(x, FAST_BITS), lk'[x])
    {
      assert FastSlot(cs, i, nodes, Lsb(x, FAST_BITS), lk[x]);
      ShortSlot(cs, i, nodes, Lsb(x, FAST_BITS), lk[x]);
    }
  }

  lemma RootLookUp(cs: seq<nat>, done: nat, nodes: Nodes, lk: seq<int>, q: seq<bool>, x: nat)
    requires Feasible(cs) && GoodLookUp(cs, done, nodes, lk)
    requires |q| == FAST_BITS && q !in nodes && Inner(cs, q) && x < FAST_SIZE && Lsb(x, FAST_BITS) == q
    ensures GoodLookUp(cs, done, nodes[q := |nodes|], lk[x := Ref(|nodes|)])
  {
    hide Inner, Word, Feasible, Ref, Lsb;
    var nodes' := nodes[q := |nodes|];
    forall y | 0 <= y < FAST_SIZE
      ensures FastSlot(cs, done, nodes', Lsb(y, FAST_BITS), lk[x := Ref(|nodes|)][y])
    {
      assert FastSlot(cs, done, nodes, Lsb(y, FAST_BITS), lk[y]);
      if y == x {
        forall i: nat | i < done
          ensures !Covers(cs, i, q)
        {
          if Used(cs, i) {
            NodeNotCovered(cs, q, i);
          }
        }
      } else {
        SameIndex(x, y);
      }
    }
  }

  lemma RootTree(cs: seq<nat>, done: nat, nodes: Nodes, tr: seq<int>, q: seq<bool>)
    requires GoodNodes(cs, nodes) && GoodTree(cs, done, nodes, tr) && Paths(cs, done, nodes) && GoodNodes(cs, nodes[q := |nodes|])
    requires |q| == FAST_BITS && q !in nodes && |nodes[q := |nodes|]| == |nodes| + 1
    ensures GoodTree(cs, done, nodes[q := |nodes|], tr)
  {
    hide TreeSlot, Inner, Paths;
    var nodes' := nodes[q := |nodes|];
    forall p, b | p in nodes'
      ensures TreeSlot(cs, done, nodes', p + [b], tr[Side(nodes'[p], b)])
    {
      NewSlots(cs, done, nodes, tr, q, p, b);
    }
  }

  // The first ten bits of a long word become a branching point.
  lemma AddRoot(cs: seq<nat>, done: nat, nodes: Nodes, lk: seq<int>, tr: seq<int>, q: seq<bool>, x: nat)
    requires Acceptable(cs) && |cs| <= MAX_SYMBOLS && Tables(cs, done, nodes, lk, tr)
    requires |q| == FAST_BITS && q !in nodes && Inner(cs, q) && x < FAST_SIZE && Lsb(x, FAST_BITS) == q
    ensures Tables(cs, done, nodes[q := |nodes|], lk[x := Ref(|nodes|)], tr)
  {
    hide Inner, Feasible, Acceptable, GoodNodes, GoodLookUp, GoodTree;
    AcceptableIsFeasible(cs);
    MoreNodes(cs, nodes, q);
    RootLookUp(cs, done, nodes, lk, q, x);
    RootTree(cs, done, nodes, tr, q);
  }

  lemma SameIndex(x: nat, y: nat)
    requires x < FAST_SIZE && y < FAST_SIZE && x != y
    ensures Lsb(x, FAST_BITS) != Lsb(y, FAST_BITS)
  {
    hide Lsb, Low, Num;
    NumOfLsb(x, FAST_BITS);
    NumOfLsb(y, FAST_BITS);
    LowIsMod1024(x);
    LowIsMod1024(y);
  }

  lemma MoreNodes(cs: seq<nat>, nodes: Nodes, q: seq<bool>)
    requires Acceptable(cs) && |cs| <= MAX_SYMBOLS && GoodNodes(cs, nodes) && q !in nodes && Inner(cs, q)
    requires |q| >= FAST_BITS && (|q| > FAST_BITS ==> q[..|q| - 1] in nodes)
    ensures GoodNodes(cs, nodes[q := |nodes|]) && |nodes[q := |nodes|]| == |nodes| + 1
  {
    hide Inner, Acceptable, Rooted, Distinct;
    var nodes' := nodes[q := |nodes|];
    MoreDistinct(cs, nodes, q);
    MoreRooted(nodes, q);
    assert |nodes'| == |nodes| + 1;
    BranchesFit(cs, nodes'.Keys);
    assert |nodes'.Keys| == |nodes'|;
  }

  lemma MoreDistinct(cs: seq<nat>, nodes: Nodes, q: seq<bool>)
    requires Branching(cs, nodes) && Distinct(nodes) && q !in nodes
    ensures Distinct(nodes[q := |nodes|])
  {
    hide Inner;
  }

  lemma MoreRooted(nodes: Nodes, q: seq<bool>)
    requires Rooted(nodes) && (|q| > FAST_BITS ==> q[..|q| - 1] in nodes)
    ensures Rooted(nodes[q := |nodes|])
  {
  }

  // A slot of the tree when q becomes a branching point and the tree itself is unchanged.
  lemma NewSlots(cs: seq<nat>, done: nat, nodes: Nodes, tr: seq<int>, q: seq<bool>, p: seq<bool>, b: bool)
    requires GoodNodes(cs, nodes) && GoodTree(cs, done, nodes, tr) && Paths(cs, done, nodes) && 2 * |nodes| + 2 <= TREE_SIZE
    requires q !in nodes && |q| >= FAST_BITS && (p in nodes || p == q) && p + [b] != q
    ensures p in nodes ==> nodes[p] < |nodes|
    ensures TreeSlot(cs, done, nodes[q := |nodes|], p + [b], tr[Side(if p in nodes then nodes[p] else |nodes|, b)])
  {
    hide Inner;
    if p in nodes {
      assert TreeSlot(cs, done, nodes, p + [b], tr[Side(nodes[p], b)]);
    } else {
      var r := q + [b];
      assert r[..|r| - 1] == q;
      forall i: nat | i < done
        ensures !Ends(cs, i, r)
      {
        if Ends(cs, i, r) {
          ParentIn(cs, done, nodes, i, q, b);
        }
      }
    }
  }

  lemma ParentIn(cs: seq<nat>, done: nat, nodes: Nodes, i: nat, q: seq<bool>, b: bool)
    requires Paths(cs, done, nodes) && i < done && Ends(cs, i, q + [b]) && |q| >= FAST_BITS
    ensures q in nodes
  {
    assert Word(cs, i)[..|q|] == q;
  }

  lemma ChildTree(cs: seq<nat>, done: nat, nodes: Nodes, tr: seq<int>, p: seq<bool>, b: bool)
    requires Feasible(cs) && GoodNodes(cs, nodes) && GoodTree(cs, done, nodes, tr) && Paths(cs, done, nodes)
    requires p in nodes && p + [b] !in nodes && Inner(cs, p + [b]) && GoodNodes(cs, nodes[p + [b] := |nodes|])
    requires |nodes[p + [b] := |nodes|]| == |nodes| + 1
    ensures GoodTree(cs, done, nodes[p + [b] := |nodes|], tr[Side(nodes[p], b) := Ref(|nodes|)])
  {
    hide Inner, Feasible, TreeSlot, Ref, Paths, Branching, Rooted, Distinct;
    NodesFit(cs, nodes);
    NodesFit(cs, nodes[p + [b] := |nodes|]);
    var nodes' := nodes[p + [b] := |nodes|];
    forall r, c | r in nodes'
      ensures TreeSlot(cs, done, nodes', r + [c], tr[Side(nodes[p], b) := Ref(|nodes|)][Side(nodes'[r], c)])
    {
      ChildTreeSlot(cs, done, nodes, tr, p, b, r, c);
    }
  }

  lemma NodesFit(cs: seq<nat>, nodes: Nodes)
    requires GoodNodes(cs, nodes)
    ensures 2 * |nodes| <= TREE_SIZE && forall r :: r in nodes ==> nodes[r] < |nodes|
  {
    hide Inner, Rooted, Distinct;
  }

  lemma ChildTreeSlot(cs: seq<nat>, done: nat, nodes: Nodes, tr: seq<int>, p: seq<bool>, b: bool, r: seq<bool>, c: bool)
    requires Feasible(cs) && GoodNodes(cs, nodes) && GoodTree(cs, done, nodes, tr) && Paths(cs, done, nodes)
    requires p in nodes && p + [b] !in nodes && Inner(cs, p + [b]) && GoodNodes(cs, nodes[p + [b] := |nodes|])
    requires r in nodes || r == p + [b]
    ensures TreeSlot(cs, done, nodes[p + [b] := |nodes|], r + [c],
                     tr[Side(nodes[p], b) := Ref(|nodes|)][Side(nodes[p + [b] := |nodes|][r], c)])
  {
    hide Inner, Feasible, TreeSlot, Ref, Paths;
    var q := p + [b];
    if r + [c] == q {
      assert (r + [c])[..|r|] == r && q[..|p|] == p;
      ChildSlot(cs, done, nodes[q := |nodes|], q, |nodes|);
    } else {
      NewSlots(cs, done, nodes, tr, q, r, c);
      if r in nodes {
        SidesDiffer(cs, nodes, r, c, p, b);
      }
    }
  }

  lemma SidesDiffer(cs: seq<nat>, nodes: Nodes, r: seq<bool>, c: bool, p: seq<bool>, b: bool)
    requires GoodNodes(cs, nodes) && r in nodes && p in nodes && r + [c] != p + [b]
    ensures Side(nodes[r], c) != Side(nodes[p], b)
  {
    hide Inner;
  }

  lemma ChildSlot(cs: seq<nat>, done: nat, nodes: Nodes, q: seq<bool>, n: nat)
    requires Feasible(cs) && Inner(cs, q) && q in nodes && nodes[q] == n
    ensures TreeSlot(cs, done, nodes, q, Ref(n))
  {
    hide Inner, Feasible;
    forall i: nat | i < done
      ensures !Ends(cs, i, q)
    {
      if Ends(cs, i, q) {
        NodeNotCovered(cs, q, i);
      }
    }
  }

  // A branching point below another.
  lemma AddChild(cs: seq<nat>, done: nat, nodes: Nodes, lk: seq<int>, tr: seq<int>, p: seq<bool>, b: bool)
    requires Acceptable(cs) && |cs| <= MAX_SYMBOLS && Tables(cs, done, nodes, lk, tr)
    requires p in nodes && p + [b] !in nodes && Inner(cs, p + [b])
    ensures Side(nodes[p], b) < TREE_SIZE
    ensures Tables(cs, done, nodes[p + [b] := |nodes|], lk, tr[Side(nodes[p], b) := Ref(|nodes|)])
  {
    hide Inner, Feasible, Acceptable, GoodLookUp, GoodTree;
    AcceptableIsFeasible(cs);
    assert (p + [b])[..|p|] == p;
    MoreNodes(cs, nodes, p + [b]);
    ChildTree(cs, done, nodes, tr, p, b);
    ChildLookUp(cs, done, nodes, lk, p + [b]);
  }

  lemma ChildLookUp(cs: seq<nat>, done: nat, nodes: Nodes, lk: seq<int>, q: seq<bool>)
    requires GoodLookUp(cs, done, nodes, lk) && |q| > FAST_BITS
    ensures GoodLookUp(cs, done, nodes[q := |nodes|], lk)
  {
    hide Covers, Ref;
    forall x | 0 <= x < FAST_SIZE
      ensures FastSlot(cs, done, nodes[q := |nodes|], Lsb(x, FAST_BITS), lk[x])
    {
      assert FastSlot(cs, done, nodes, Lsb(x, FAST_BITS), lk[x]);
    }
  }

  // The end of a long word, once its whole path is there.
  lemma AddLong(cs: seq<nat>, i: nat, nodes: Nodes, lk: seq<int>, tr: seq<int>, p: seq<bool>, b: bool)
    requires Feasible(cs) && Tables(cs, i, nodes, lk, tr) && Used(cs, i) && cs[i] > FAST_BITS && Word(cs, i) == p + [b]
    requires forall d :: FAST_BITS <= d < cs[i] ==> Word(cs, i)[..d] in nodes
    ensures p in nodes && Side(nodes[p], b) < TREE_SIZE
    ensures Tables(cs, i + 1, nodes, lk, tr[Side(nodes[p], b) := i])
  {
    hide Inner, Feasible, GoodLookUp, TreeSlot, Rooted, Distinct;
    assert Word(cs, i)[..|p|] == p;
    LookUpWithout(cs, i, nodes, lk);
    var tr' := tr[Side(nodes[p], b) := i];
    forall r, c | r in nodes
      ensures TreeSlot(cs, i + 1, nodes, r + [c], tr'[Side(nodes[r], c)])
    {
      assert TreeSlot(cs, i, nodes, r + [c], tr[Side(nodes[r], c)]);
      if r + [c] == p + [b] {
        assert (r + [c])[..|r|] == r && (p + [b])[..|p|] == p;
        LeafSlot(cs, i, nodes, p + [b]);
      } else {
        OtherSlot(cs, i, nodes, r + [c], tr[Side(nodes[r], c)]);
        SidesDiffer(cs, nodes, r, c, p, b);
      }
    }
  }

  lemma LeafSlot(cs: seq<nat>, i: nat, nodes: Nodes, q: seq<bool>)
    requires Feasible(cs) && Used(cs, i) && Word(cs, i) == q && (q in nodes ==> Inner(cs, q)) && cs[i] > FAST_BITS
    ensures TreeSlot(cs, i + 1, nodes, q, i)
  {
    hide Inner, Feasible;
    assert Ends(cs, i, q);
    if q in nodes {
      NodeNotCovered(cs, q, i);
    }
    forall j: nat | j < i
      ensures !Ends(cs, j, q)
    {
      if Ends(cs, j, q) {
        PrefixFree(cs, i, j);
      }
    }
  }

  lemma OtherSlot(cs: seq<nat>, i: nat, nodes: Nodes, q: seq<bool>, v: int)
    requires TreeSlot(cs, i, nodes, q, v) && !Ends(cs, i, q)
    ensures TreeSlot(cs, i + 1, nodes, q, v)
  {
    hide Word, Ref;
  }

  // ----- Looking a word up -----

  // The bits x begin with the word of symbol i.
  ghost predicate Matches(cs: seq<nat>, i: nat, x: nat) {
    Used(cs, i) && Lsb(x, cs[i]) == Word(cs, i)
  }

  // Whatever the bits, the lookup table leads to the short word they begin with, or into the
  // tree along them, or nowhere.
  lemma FastHit(cs: seq<nat>, nodes: Nodes, lk: seq<int>, tr: seq<int>, x: nat, i: nat)
    requires Feasible(cs) && Tables(cs, |cs|, nodes, lk, tr) && i < |cs| && Matches(cs, i, x)
    ensures cs[i] <= FAST_BITS ==> lk[x % FAST_SIZE] == cs[i] * 512 + i
    ensures cs[i] > FAST_BITS ==> lk[x % FAST_SIZE] < 0
  {
    hide Inner, Feasible, Lsb, Word;
    var q := Lsb(x, FAST_BITS);
    IndexBits(x);
    assert FastSlot(cs, |cs|, nodes, q, lk[x % FAST_SIZE]);
    if cs[i] <= FAST_BITS {
      LsbPrefix(x, cs[i], FAST_BITS);
      assert Covers(cs, i, q);
    } else {
      LsbPrefix(x, FAST_BITS, cs[i]);
      assert Word(cs, i)[..FAST_BITS] in nodes;
    }
  }

  lemma FastResult(cs: seq<nat>, nodes: Nodes, lk: seq<int>, tr: seq<int>, x: nat)
    requires Feasible(cs) && |cs| <= MAX_SYMBOLS && Tables(cs, |cs|, nodes, lk, tr) && |lk| == FAST_SIZE
    ensures var v := lk[x % FAST_SIZE];
            (v < 0 ==> Lsb(x, FAST_BITS) in nodes && v == Ref(nodes[Lsb(x, FAST_BITS)])) &&
            (v >= 0 ==> forall i: nat :: i < |cs| && Matches(cs, i, x) ==> v % 512 == i && v / 512 == cs[i])
  {
    hide Inner, Feasible, Lsb, Word, Matches, Tables, Ref, FastSlot;
    var q, v := Lsb(x, FAST_BITS), lk[x % FAST_SIZE];
    SlotAt(cs, |cs|, nodes, lk, tr, x);
    FastSign(cs, |cs|, nodes, q, v);
    forall i: nat | i < |cs| && Matches(cs, i, x) && v >= 0
      ensures v % 512 == i && v / 512 == cs[i]
    {
      FastHit(cs, nodes, lk, tr, x, i);
      assert v == cs[i] * 512 + i;
    }
  }

  lemma SlotAt(cs: seq<nat>, done: nat, nodes: Nodes, lk: seq<int>, tr: seq<int>, x: nat)
    requires Tables(cs, done, nodes, lk, tr)
    ensures FastSlot(cs, done, nodes, Lsb(x, FAST_BITS), lk[x % FAST_SIZE])
  {
    hide GoodNodes, GoodTree, Paths, FastSlot, Lsb;
    IndexBits(x);
  }

  lemma FastSign(cs: seq<nat>, done: nat, nodes: Nodes, q: seq<bool>, v: int)
    requires FastSlot(cs, done, nodes, q, v)
    ensures v < 0 ==> q in nodes && v == Ref(nodes[q])
  {
    hide Word, Ref;
  }

  lemma TreeSign(cs: seq<nat>, done: nat, nodes: Nodes, q: seq<bool>, v: int)
    requires TreeSlot(cs, done, nodes, q, v)
    ensures v < 0 ==> q in nodes && v == Ref(nodes[q])
    ensures v >= 0 ==> q !in nodes && forall i: nat :: i < done && Ends(cs, i, q) ==> v == i
  {
    hide Ends;
  }

  // One step along the bits from a branching point.
  lemma Walk(cs: seq<nat>, nodes: Nodes, lk: seq<int>, tr: seq<int>, x: nat, len: nat)
    requires Feasible(cs) && Tables(cs, |cs|, nodes, lk, tr) && Lsb(x, len) in nodes && len >= FAST_BITS
    ensures len < MAX_LENGTH && Side(nodes[Lsb(x, len)], High(x, len) % 2 == 1) < TREE_SIZE
    ensures var v := tr[Side(nodes[Lsb(x, len)], High(x, len) % 2 == 1)];
            (v < 0 ==> Lsb(x, len + 1) in nodes && v == Ref(nodes[Lsb(x, len + 1)])) &&
            (v >= 0 ==> forall i: nat :: i < |cs| && Matches(cs, i, x) ==> v == i && len + 1 == cs[i])
  {
    hide Feasible, Lsb, Matches, GoodLookUp, Inner;
    var p, b := Lsb(x, len), High(x, len) % 2 == 1;
    InnerShort(cs, p);
    LsbLength(x, len);
    LsbNext(x, len);
    var v := tr[Side(nodes[p], b)];
    assert TreeSlot(cs, |cs|, nodes, p + [b], v);
    TreeSign(cs, |cs|, nodes, p + [b], v);
    hide TreeSlot, GoodTree, GoodNodes, Paths;
    forall i: nat | i < |cs| && Matches(cs, i, x) && v >= 0
      ensures v == i && len + 1 == cs[i]
    {
      WalkHit(cs, nodes, x, len, i);
    }
  }

  lemma InnerShort(cs: seq<nat>, p: seq<bool>)
    requires Inner(cs, p)
    ensures |p| < MAX_LENGTH
  {
  }

  lemma LsbLength(x: nat, n: nat)
    ensures |Lsb(x, n)| == n
  {
  }

  lemma WalkHit(cs: seq<nat>, nodes: Nodes, x: nat, len: nat, i: nat)
    requires Feasible(cs) && Inner(cs, Lsb(x, len)) && Paths(cs, |cs|, nodes) && len >= FAST_BITS && Matches(cs, i, x)
    ensures Lsb(x, len + 1) in nodes || (i < |cs| && Ends(cs, i, Lsb(x, len + 1)) && cs[i] == len + 1)
  {
    hide Feasible, Inner;
    if cs[i] <= len {
      LsbPrefix(x, cs[i], len);
      NodeNotCovered(cs, Lsb(x, len), i);
    } else if cs[i] > len + 1 {
      LsbPrefix(x, len + 1, cs[i]);
      assert Word(cs, i)[..len + 1] in nodes;
    }
  }

  lemma AcceptedBy(cs: seq<nat>, usedSyms: nat, total: nat)
    requires Lengths(cs) && usedSyms == UsedCount(cs, MAX_LENGTH) && total == FirstCode(cs, MAX_LENGTH + 1)
    ensures (65536 != total && usedSyms > 1) <==> !Acceptable(cs)
  {
    SingleIsCounted(cs);
    FirstIsBelow(cs, MAX_LENGTH);
    BelowStep(cs, MAX_LENGTH);
    assert Pow2(0) == 1;
    Pow2Sum(8, 7);
    Pow2Values();
  }

  lemma CountStep(cs: seq<nat>, i: nat)
    requires i < |cs|
    ensures forall k :: Count(cs[..i + 1], k) == Count(cs[..i], k) + if cs[i] == k then 1 else 0
  {
    assert cs[..i + 1][..i] == cs[..i];
  }

  // How many symbols have each length.
  method CountLengths(codeSize: array<nat>, size: nat) returns (totalSyms: array<nat>)
    requires size <= codeSize.Length && Lengths(codeSize[..size])
    ensures fresh(totalSyms) && totalSyms.Length == 16
    ensures forall k :: 1 <= k <= MAX_LENGTH ==> totalSyms[k] == Count(codeSize[..size], k)
  {
    ghost var cs := codeSize[..size];
    totalSyms := new nat[16](_ => 0);
    NothingCounted();
    hide Count;
    assert cs[..0] == [];
    for i := 0 to size
      invariant forall k :: 1 <= k <= MAX_LENGTH ==> totalSyms[k] == Count(cs[..i], k)
      invariant codeSize[..size] == cs
    {
      assert codeSize[i] == cs[i];
      CountStep(cs, i);
      totalSyms[codeSize[i]] := totalSyms[codeSize[i]] + 1;
    }
    assert cs[..size] == cs;
  }

  // The first code word of each length.
  method FirstCodes(totalSyms: array<nat>, ghost cs: seq<nat>) returns (nextCode: array<nat>, usedSyms: nat, total: nat)
    requires totalSyms.Length == 16 && forall k :: 1 <= k <= MAX_LENGTH ==> totalSyms[k] == Count(cs, k)
    ensures fresh(nextCode) && nextCode.Length == 17
    ensures forall k :: 1 <= k <= MAX_LENGTH ==> nextCode[k] == FirstCode(cs, k)
    ensures usedSyms == UsedCount(cs, MAX_LENGTH) && total == FirstCode(cs, MAX_LENGTH + 1)
  {
    hide Count, FirstCode;
    FirstOfAll(cs);
    nextCode := new nat[17](_ => 0);
    usedSyms, total := 0, 0;
    for i := 1 to 16
      invariant total == FirstCode(cs, i) && usedSyms == UsedCount(cs, i - 1)
      invariant forall k :: 1 <= k <= i ==> nextCode[k] == FirstCode(cs, k)
    {
      NextFirst(cs, i);
      usedSyms := usedSyms + totalSyms[i];
      total := (total + totalSyms[i]) * 2;
      nextCode[i + 1] := total;
    }
  }

  lemma FirstOfAll(cs: seq<nat>)
    ensures FirstCode(cs, 1) == 0
  {
  }

  lemma NextFirst(cs: seq<nat>, k: nat)
    requires k >= 1
    ensures FirstCode(cs, k + 1) == (FirstCode(cs, k) + Count(cs, k)) * 2
  {
  }

  lemma NothingCounted()
    ensures forall k :: Count([], k) == 0
  {
  }

  lemma IndexBits(x: nat)
    ensures Lsb(x % FAST_SIZE, FAST_BITS) == Lsb(x, FAST_BITS)
  {
    hide Lsb, Num, Low;
    LowIsMod1024(x);
    LowIsMod1024(x % FAST_SIZE);
    NumOfLsb(x, FAST_BITS);
    NumOfLsb(x % FAST_SIZE, FAST_BITS);
    NumInjective(Lsb(x, FAST_BITS), Lsb(x % FAST_SIZE, FAST_BITS));
  }

  lemma NumInjective(a: seq<bool>, b: seq<bool>)
    requires |a| == |b| && Num(a) == Num(b)
    ensures a == b
  {
    LsbOfNum(a);
    LsbOfNum(b);
  }

  // ----- Building and using the tables -----

  // Reversing a code word by shifting bits from one number into another.
  method Reverse(code: nat, size: nat) returns (rev: nat)
    ensures Lsb(rev, size) == Msb(code, size) && rev < Pow2(size)
  {
    rev := 0;
    var cur: nat, l: nat := code, size;
    while l > 0
      invariant l <= size && rev < Pow2(size - l) && Msb(code, size) == Msb(cur, l) + Lsb(rev, size - l)
    {
      assert Lsb(2 * rev + cur % 2, size - l + 1) == [cur % 2 == 1] + Lsb(rev, size - l);
      rev := 2 * rev + cur % 2;
      cur := cur / 2;
      l := l - 1;
    }
  }

  class Table {
    const lookUp: array<int>
    const tree: array<int>
    ghost var nodes: Nodes

    ghost predicate Shape() {
      lookUp.Length == FAST_SIZE && tree.Length == TREE_SIZE && lookUp != tree
    }

    ghost predicate Filled(cs: seq<nat>, done: nat)
      reads this, lookUp, tree
    {
      Shape() && Tables(cs, done, nodes, lookUp[..], tree[..])
    }

    constructor ()
      ensures Shape() && fresh(lookUp) && fresh(tree)
    {
      lookUp := new int[FAST_SIZE];
      tree := new int[TREE_SIZE];
      nodes := map[];
    }

    method Clear(ghost cs: seq<nat>)
      requires Shape()
      modifies this, lookUp, tree
      ensures Filled(cs, 0) && nodes == map[]
    {
      forall k | 0 <= k < lookUp.Length {
        lookUp[k] := 0;
      }
      forall k | 0 <= k < tree.Length {
        tree[k] := 0;
      }
      nodes := map[];
      EmptyTables(cs, lookUp[..], tree[..]);
    }

    // A short word: every index whose low bits are the reversed code.
    method FillShort(ghost cs: seq<nat>, sym: nat, size: nat, code: nat)
      requires Feasible(cs) && Filled(cs, sym) && Used(cs, sym) && size == cs[sym] <= FAST_BITS
      requires code < Pow2(size) && Lsb(code, size) == Word(cs, sym)
      modifies lookUp
      ensures Filled(cs, sym + 1)
    {
      hide Tables;
      var k := size * 512 + sym;
      var rev := code;
      ghost var before := lookUp[..];
      SmallestSame(code, size);
      while rev < FAST_SIZE
        invariant Low(rev, size) == Low(code, size) && rev >= code
        invariant forall x :: 0 <= x < FAST_SIZE ==>
                    lookUp[x] == if x < rev && Low(x, size) == Low(code, size) then k else before[x]
      {
        LowAfter(rev, size);
        SameLowBetween(rev, size);
        lookUp[rev] := k;
        rev := rev + Pow2(size);
      }
      forall x | 0 <= x < FAST_SIZE
        ensures lookUp[..][x] == if Covers(cs, sym, Lsb(x, FAST_BITS)) then cs[sym] * 512 + sym else before[x]
      {
        CoveredIndex(cs, sym, x, code);
      }
      AddShort(cs, sym, nodes, before, tree[..], lookUp[..]);
    }

    // The lookup slot of a long word, made to lead into the tree.
    method EnterTree(ghost cs: seq<nat>, ghost sym: nat, code: nat, treeNext: int) returns (treeCur: int, treeNext': int)
      requires Acceptable(cs) && |cs| <= MAX_SYMBOLS && Filled(cs, sym) && Used(cs, sym) && cs[sym] > FAST_BITS
      requires Lsb(code, cs[sym]) == Word(cs, sym) && treeNext == Ref(|nodes|)
      modifies this`nodes, lookUp
      ensures Filled(cs, sym) && treeNext' == Ref(|nodes|)
      ensures var q := Word(cs, sym)[..FAST_BITS]; q in nodes && treeCur == Ref(nodes[q])
    {
      hide Tables, Inner, Feasible, Acceptable, Lsb;
      treeNext' := treeNext;
      ghost var q := Word(cs, sym)[..FAST_BITS];
      var x := code % FAST_SIZE;
      IndexBits(code);
      LsbPrefix(code, FAST_BITS, cs[sym]);
      InnerPrefix(cs, sym, FAST_BITS);
      AcceptableIsFeasible(cs);
      StepIn(cs, sym, nodes, lookUp[..], tree[..], q, x);
      treeCur := lookUp[x];
      if treeCur == 0 {
        AddRoot(cs, sym, nodes, lookUp[..], tree[..], q, x);
        ghost var before := lookUp[..];
        nodes := nodes[q := |nodes|];
        lookUp[x] := treeNext';
        assert lookUp[..] == before[x := treeNext'];
        treeCur := treeNext';
        treeNext' := treeNext' - 2;
      }
    }

    // One bit further down, to a branching point that may have to be added.
    method Descend(ghost cs: seq<nat>, ghost sym: nat, ghost d: nat, b: nat, treeCur: int, treeNext: int)
      returns (treeCur': int, treeNext': int)
      requires Acceptable(cs) && |cs| <= MAX_SYMBOLS && Filled(cs, sym) && Used(cs, sym)
      requires FAST_BITS <= d < cs[sym] - 1 && treeNext == Ref(|nodes|) && b <= 1
      requires Word(cs, sym)[..d] in nodes && treeCur == Ref(nodes[Word(cs, sym)[..d]])
      requires Word(cs, sym)[..d + 1] == Word(cs, sym)[..d] + [b == 1]
      modifies this`nodes, tree
      ensures Filled(cs, sym) && treeNext' == Ref(|nodes|) && Word(cs, sym)[..d + 1] in nodes && old(nodes.Keys) <= nodes.Keys
      ensures treeCur' == Ref(nodes[Word(cs, sym)[..d + 1]])
    {
      hide Tables, Inner, Feasible, Acceptable;
      ghost var p := Word(cs, sym)[..d];
      ghost var q := p + [b == 1];
      treeCur', treeNext' := treeCur - b, treeNext;
      InnerPrefix(cs, sym, d + 1);
      AcceptableIsFeasible(cs);
      StepOn(cs, sym, nodes, lookUp[..], tree[..], p, b == 1);
      if tree[-treeCur' - 1] == 0 {
        AddChild(cs, sym, nodes, lookUp[..], tree[..], p, b == 1);
        ghost var before, at := tree[..], Side(nodes[p], b == 1);
        nodes := nodes[q := |nodes|];
        tree[-treeCur' - 1] := treeNext';
        assert tree[..] == before[at := treeNext'];
        treeCur' := treeNext';
        treeNext' := treeNext' - 2;
      } else {
        treeCur' := tree[-treeCur' - 1];
      }
    }

    // A long word: along its bits from the tenth on, adding what is missing on the way.
    method FillLong(ghost cs: seq<nat>, sym: nat, size: nat, code: nat, treeNext: int) returns (treeNext': int)
      requires Acceptable(cs) && |cs| <= MAX_SYMBOLS && Filled(cs, sym) && Used(cs, sym) && size == cs[sym] > FAST_BITS
      requires Lsb(code, size) == Word(cs, sym) && treeNext == Ref(|nodes|)
      modifies this`nodes, lookUp, tree
      ensures Filled(cs, sym + 1) && treeNext' == Ref(|nodes|)
    {
      hide Tables, Inner, Feasible, Acceptable, Lsb;
      ghost var w := Word(cs, sym);
      var treeCur: int;
      treeCur, treeNext' := EnterTree(cs, sym, code, treeNext);
      var d := FAST_BITS;
      while d < size - 1
        invariant FAST_BITS <= d < size && Filled(cs, sym) && treeNext' == Ref(|nodes|)
        invariant forall e :: FAST_BITS <= e <= d ==> w[..e] in nodes.Keys
        invariant treeCur == Ref(nodes[w[..d]])
        decreases size - d
      {
        WordBit(cs, sym, code, d);
        treeCur, treeNext' := Descend(cs, sym, d, High(code, d) % 2, treeCur, treeNext');
        d := d + 1;
      }
      var b := High(code, d) % 2;
      WordBit(cs, sym, code, d);
      assert w == w[..d] + [b == 1];
      treeCur := treeCur - b;
      AcceptableIsFeasible(cs);
      AddLong(cs, sym, nodes, lookUp[..], tree[..], w[..d], b == 1);
      ghost var before, at := tree[..], Side(nodes[w[..d]], b == 1);
      tree[-treeCur - 1] := sym;
      assert tree[..] == before[at := sym];
    }

    // The table part of tinfl_decompress: refuse lengths that are neither complete nor
    // those of a single word, and fill both tables otherwise.
    method Build(codeSize: array<nat>, size: nat) returns (ok: bool)
      requires Shape() && size <= codeSize.Length && size <= MAX_SYMBOLS && Lengths(codeSize[..size])
      requires (codeSize as object) != lookUp && (codeSize as object) != tree
      modifies this, lookUp, tree
      ensures ok <==> Acceptable(codeSize[..size])
      ensures ok ==> Filled(codeSize[..size], size)
    {
      hide Tables, Complete, Single, Kraft, Inner, Acceptable, Feasible, Count, FirstCode, Start, Weight, Lsb, Pow2;
      ghost var cs := codeSize[..size];
      Clear(cs);
      var totalSyms := CountLengths(codeSize, size);
      var nextCode, usedSyms, total := FirstCodes(totalSyms, cs);
      AcceptedBy(cs, usedSyms, total);
      if 65536 != total && usedSyms > 1 {
        return false;
      }
      AcceptableIsFeasible(cs);
      NothingCounted();
      assert cs[..0] == [];
      var treeNext := -1;
      for sym := 0 to size
        invariant Filled(cs, sym) && treeNext == Ref(|nodes|) && codeSize[..size] == cs && nextCode.Length == 17
        invariant forall k :: 1 <= k <= MAX_LENGTH ==> nextCode[k] == FirstCode(cs, k) + Count(cs[..sym], k)
      {
        var len := codeSize[sym];
        assert len == cs[sym];
        CountStep(cs, sym);
        if len != 0 {
          var code := nextCode[len];
          nextCode[len] := nextCode[len] + 1;
          treeNext := FillSymbol(cs, sym, len, code, treeNext);
        } else {
          SkipUnused(cs, sym, nodes, lookUp[..], tree[..]);
        }
      }
      return true;
    }

    method FillSymbol(ghost cs: seq<nat>, sym: nat, size: nat, code: nat, treeNext: int) returns (treeNext': int)
      requires Acceptable(cs) && |cs| <= MAX_SYMBOLS && Filled(cs, sym) && Used(cs, sym) && size == cs[sym]
      requires code == CodeOf(cs, sym) && treeNext == Ref(|nodes|)
      modifies this`nodes, lookUp, tree
      ensures Filled(cs, sym + 1) && treeNext' == Ref(|nodes|)
    {
      hide Tables, Acceptable, Feasible, CodeOf;
      AcceptableIsFeasible(cs);
      treeNext' := treeNext;
      var rev := Reverse(code, size);
      if size <= FAST_BITS {
        FillShort(cs, sym, size, rev);
      } else {
        treeNext' := FillLong(cs, sym, size, rev, treeNext);
      }
    }

    // The symbol that the bits begin with, and the length of its word. For any bits at
    // all every index is in bounds and the walk ends; bits that begin with no word are read as
    // symbol 0.
    method Decode(bitBuf: nat, ghost cs: seq<nat>) returns (sym: int, len: nat)
      requires Acceptable(cs) && |cs| <= MAX_SYMBOLS && Filled(cs, |cs|)
      ensures forall i: nat :: i < |cs| && Matches(cs, i, bitBuf) ==> sym == i && len == cs[i]
      ensures NoMatch(cs, bitBuf) ==> sym == 0 && StrayLength(cs, bitBuf, len)
    {
      hide Inner, Feasible, Acceptable, Lsb, Tables, Matches, NoMatch, StrayLength;
      AcceptableIsFeasible(cs);
      var temp := lookUp[bitBuf % FAST_SIZE];
      FastResult(cs, nodes, lookUp[..], tree[..], bitBuf);
      if temp >= 0 {
        FastStray(cs, nodes, lookUp[..], tree[..], bitBuf);
        return temp % 512, temp / 512;
      }
      len := FAST_BITS;
      while temp < 0
        invariant FAST_BITS <= len <= MAX_LENGTH
        invariant forall d :: FAST_BITS <= d < len ==> Lsb(bitBuf, d) in nodes
        invariant temp < 0 ==> Lsb(bitBuf, len) in nodes && temp == Ref(nodes[Lsb(bitBuf, len)])
        invariant temp >= 0 ==> len > FAST_BITS && Lsb(bitBuf, len) !in nodes && (NoMatch(cs, bitBuf) ==> temp == 0)
        invariant temp >= 0 ==> forall i: nat :: i < |cs| && Matches(cs, i, bitBuf) ==> temp == i && len == cs[i]
        decreases MAX_LENGTH - len, temp < 0
      {
        Walk(cs, nodes, lookUp[..], tree[..], bitBuf, len);
        WalkStray(cs, nodes, lookUp[..], tree[..], bitBuf, len);
        temp := tree[-temp - 1 + High(bitBuf, len) % 2];
        len := len + 1;
      }
      TreeStray(cs, nodes, lookUp[..], tree[..], bitBuf, len);
      sym := temp;
    }
  }

  // ----- Bits that begin with no word -----

  ghost predicate NoMatch(cs: seq<nat>, x: nat) {
    forall i: nat :: i < |cs| ==> !Matches(cs, i, x)
  }

  // How far such bits are followed: in the tree until they leave it, and not at all otherwise.
  ghost predicate StrayLength(cs: seq<nat>, x: nat, len: nat) {
    if Inner(cs, Lsb(x, FAST_BITS)) then
      FAST_BITS < len <= MAX_LENGTH && !Inner(cs, Lsb(x, len)) && forall d :: FAST_BITS <= d < len ==> Inner(cs, Lsb(x, d))
    else len == 0
  }

  // The tree has exactly the branching points from the tenth bit on.
  lemma InnerIsNode(cs: seq<nat>, nodes: Nodes, lk: seq<int>, tr: seq<int>, q: seq<bool>)
    requires Tables(cs, |cs|, nodes, lk, tr) && |q| >= FAST_BITS
    ensures q in nodes <==> Inner(cs, q)
  {
    hide GoodLookUp, GoodTree;
    if Inner(cs, q) {
      var j: nat :| Used(cs, j) && |q| < cs[j] && q <= Word(cs, j);
      assert Word(cs, j)[..|q|] == q;
    }
  }

  lemma FastStray(cs: seq<nat>, nodes: Nodes, lk: seq<int>, tr: seq<int>, x: nat)
    requires Feasible(cs) && |cs| <= MAX_SYMBOLS && |lk| == FAST_SIZE && Tables(cs, |cs|, nodes, lk, tr) && lk[x % FAST_SIZE] >= 0
    ensures !Inner(cs, Lsb(x, FAST_BITS))
    ensures NoMatch(cs, x) ==> lk[x % FAST_SIZE] == 0 && StrayLength(cs, x, 0)
  {
    hide Inner, Feasible, Lsb, Word, Tables, Ref;
    var q, v := Lsb(x, FAST_BITS), lk[x % FAST_SIZE];
    SlotAt(cs, |cs|, nodes, lk, tr, x);
    InnerIsNode(cs, nodes, lk, tr, q);
    RefNegative(nodes, q);
    if NoMatch(cs, x) {
      forall i: nat | i < |cs| ensures !Covers(cs, i, q) {
        CoverMatches(cs, i, x);
      }
    }
  }

  lemma CoverMatches(cs: seq<nat>, i: nat, x: nat)
    requires i < |cs|
    ensures Covers(cs, i, Lsb(x, FAST_BITS)) ==> Matches(cs, i, x)
  {
    hide Lsb, Word;
    if Covers(cs, i, Lsb(x, FAST_BITS)) {
      LsbPrefix(x, cs[i], FAST_BITS);
      WordLength(cs, i);
      assert Word(cs, i) == Lsb(x, FAST_BITS)[..cs[i]];
    }
  }

  lemma RefNegative(nodes: Nodes, q: seq<bool>)
    ensures q in nodes ==> Ref(nodes[q]) < 0
  {
  }

  lemma WalkStray(cs: seq<nat>, nodes: Nodes, lk: seq<int>, tr: seq<int>, x: nat, len: nat)
    requires Feasible(cs) && Tables(cs, |cs|, nodes, lk, tr) && Lsb(x, len) in nodes && len >= FAST_BITS
    ensures Side(nodes[Lsb(x, len)], High(x, len) % 2 == 1) < |tr|
    ensures var v := tr[Side(nodes[Lsb(x, len)], High(x, len) % 2 == 1)];
            v >= 0 ==> Lsb(x, len + 1) !in nodes && (NoMatch(cs, x) ==> v == 0)
  {
    hide Feasible, Lsb, Inner, Matches, Tables, TreeSlot, Side;
    Walk(cs, nodes, lk, tr, x, len);
    var p, b := Lsb(x, len), High(x, len) % 2 == 1;
    SlotOf(cs, nodes, lk, tr, p, b);
    LsbNext(x, len);
    LsbLength(x, len + 1);
    if tr[Side(nodes[p], b)] >= 0 {
      SlotStray(cs, nodes, x, len + 1, tr[Side(nodes[p], b)]);
    }
  }

  lemma SlotStray(cs: seq<nat>, nodes: Nodes, x: nat, n: nat, v: int)
    requires TreeSlot(cs, |cs|, nodes, Lsb(x, n), v) && v >= 0
    ensures Lsb(x, n) !in nodes && (NoMatch(cs, x) ==> v == 0)
  {
    hide Lsb, Matches, Ends;
    if NoMatch(cs, x) {
      forall i: nat | i < |cs| ensures !Ends(cs, i, Lsb(x, n)) {
        EndMatches(cs, i, x, n);
      }
    }
  }

  lemma EndMatches(cs: seq<nat>, i: nat, x: nat, n: nat)
    requires i < |cs|
    ensures Ends(cs, i, Lsb(x, n)) ==> Matches(cs, i, x)
  {
    if Ends(cs, i, Lsb(x, n)) {
      WordLength(cs, i);
      LsbLength(x, n);
    }
  }

  lemma SlotOf(cs: seq<nat>, nodes: Nodes, lk: seq<int>, tr: seq<int>, p: seq<bool>, b: bool)
    requires Tables(cs, |cs|, nodes, lk, tr) && p in nodes
    ensures Side(nodes[p], b) < |tr| == TREE_SIZE && TreeSlot(cs, |cs|, nodes, p + [b], tr[Side(nodes[p], b)])
  {
    hide GoodLookUp, Paths, Inner, TreeSlot;
  }

  lemma TreeStray(cs: seq<nat>, nodes: Nodes, lk: seq<int>, tr: seq<int>, x: nat, len: nat)
    requires Tables(cs, |cs|, nodes, lk, tr) && FAST_BITS < len <= MAX_LENGTH && Lsb(x, len) !in nodes
    requires forall d :: FAST_BITS <= d < len ==> Lsb(x, d) in nodes
    ensures StrayLength(cs, x, len)
  {
    hide Tables, Lsb, Inner;
    LsbLength(x, len);
    InnerIsNode(cs, nodes, lk, tr, Lsb(x, len));
    forall d | FAST_BITS <= d < len ensures Inner(cs, Lsb(x, d)) {
      LsbLength(x, d);
      InnerIsNode(cs, nodes, lk, tr, Lsb(x, d));
    }
  }

  lemma InnerPrefix(cs: seq<nat>, i: nat, d: nat)
    requires Used(cs, i) && d < cs[i]
    ensures Inner(cs, Word(cs, i)[..d])
  {
    assert Word(cs, i)[..d] <= Word(cs, i);
  }

  lemma WordBit(cs: seq<nat>, i: nat, code: nat, d: nat)
    requires Used(cs, i) && Lsb(code, cs[i]) == Word(cs, i) && d < cs[i]
    ensures Word(cs, i)[..d + 1] == Word(cs, i)[..d] + [High(code, d) % 2 == 1]
  {
    LsbNext(code, d);
    LsbPrefix(code, d, cs[i]);
    LsbPrefix(code, d + 1, cs[i]);
  }

  // Where the path of a new long word enters the tree, or will.
  lemma StepIn(cs: seq<nat>, i: nat, nodes: Nodes, lk: seq<int>, tr: seq<int>, q: seq<bool>, x: nat)
    requires Feasible(cs) && Tables(cs, i, nodes, lk, tr) && Inner(cs, q) && x < FAST_SIZE && Lsb(x, FAST_BITS) == q
    ensures q in nodes ==> lk[x] == Ref(nodes[q])
    ensures q !in nodes ==> lk[x] == 0
  {
    hide Inner, Feasible;
    assert FastSlot(cs, i, nodes, q, lk[x]);
    forall j: nat | j < i
      ensures !Covers(cs, j, q)
    {
      if Used(cs, j) {
        NodeNotCovered(cs, q, j);
      }
    }
  }

  lemma StepOn(cs: seq<nat>, i: nat, nodes: Nodes, lk: seq<int>, tr: seq<int>, p: seq<bool>, b: bool)
    requires Feasible(cs) && Tables(cs, i, nodes, lk, tr) && p in nodes && Inner(cs, p + [b])
    ensures Side(nodes[p], b) < |tr|
    ensures p + [b] in nodes ==> tr[Side(nodes[p], b)] == Ref(nodes[p + [b]])
    ensures p + [b] !in nodes ==> tr[Side(nodes[p], b)] == 0
  {
    hide Inner, Feasible;
    assert TreeSlot(cs, i, nodes, p + [b], tr[Side(nodes[p], b)]);
    forall j: nat | j < i
      ensures !Ends(cs, j, p + [b])
    {
      if Used(cs, j) {
        NodeNotCovered(cs, p + [b], j);
      }
    }
  }

  lemma SameLowBetween(x: nat, n: nat)
    ensures forall y: nat {:trigger Low(y, n)} :: x < y < x + Pow2(n) ==> Low(y, n) != Low(x, n)
  {
    forall y: nat | x < y < x + Pow2(n)
      ensures Low(y, n) != Low(x, n)
    {
      if Low(y, n) == Low(x, n) {
        SameLow(x, y, n);
      }
    }
  }

  lemma SmallestSame(x: nat, n: nat)
    requires x < Pow2(n)
    ensures forall y: nat {:trigger Low(y, n)} :: y < x ==> Low(y, n) != Low(x, n)
  {
    forall y: nat | y < x
      ensures Low(y, n) != Low(x, n)
    {
      if Low(y, n) == Low(x, n) {
        SameLow(y, x, n);
      }
    }
  }

  lemma CoveredIndex(cs: seq<nat>, i: nat, x: nat, code: nat)
    requires Used(cs, i) && cs[i] <= FAST_BITS && Lsb(code, cs[i]) == Word(cs, i)
    ensures Covers(cs, i, Lsb(x, FAST_BITS)) <==> Low(x, cs[i]) == Low(code, cs[i])
  {
    hide Low, Num;
    LsbPrefix(x, cs[i], FAST_BITS);
    NumOfLsb(x, cs[i]);
    NumOfLsb(code, cs[i]);
    var q, w := Lsb(x, FAST_BITS), Word(cs, i);
    if Low(x, cs[i]) == Low(code, cs[i]) {
      NumInjective(Lsb(x, cs[i]), Lsb(code, cs[i]));
      assert w == q[..|w|];
    }
    assert w <= q ==> w == q[..|w|];
  }
}
