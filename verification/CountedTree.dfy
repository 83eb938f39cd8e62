// The counted search tree of the aggregates mode, median and the quartiles.

module CountedTree {

  datatype Entry = Entry(v: int, count: nat)

  // ----- Sorted lists of counted values -----

  ghost predicate Sorted(es: seq<Entry>) {
    (forall i :: 0 <= i < |es| ==> es[i].count >= 1) && forall i, j :: 0 <= i < j < |es| ==> es[i].v < es[j].v
  }

  // One more of a value.
  function Added(es: seq<Entry>, e: int): seq<Entry> {
    if es == [] then [Entry(e, 1)]
    else if es[0].v == e then [Entry(e, es[0].count + 1)] + es[1..]
    else if es[0].v > e then [Entry(e, 1)] + es
    else [es[0]] + Added(es[1..], e)
  }

  function Times(v: int, n: nat): (s: seq<int>)
    ensures |s| == n && forall k :: 0 <= k < n ==> s[k] == v
  {
    seq(n, _ => v)
  }

  // All values in order.
  function Values(es: seq<Entry>): seq<int> {
    if es == [] then [] else Times(es[0].v, es[0].count) + Values(es[1..])
  }

  ghost predicate InOrder(s: seq<int>) {
    forall i, j :: 0 <= i <= j < |s| ==> s[i] <= s[j]
  }

  lemma {:induction false} ValuesFrom(es: seq<Entry>, low: int)
    requires Sorted(es) && forall i :: 0 <= i < |es| ==> low < es[i].v
    ensures forall k :: 0 <= k < |Values(es)| ==> low < Values(es)[k]
  {
    if es != [] {
      ValuesFrom(es[1..], low);
    }
  }

  lemma {:induction false} ValuesInOrder(es: seq<Entry>)
    requires Sorted(es)
    ensures InOrder(Values(es))
  {
    if es != [] {
      ValuesInOrder(es[1..]);
      ValuesFrom(es[1..], es[0].v);
    }
  }

  lemma {:induction false} AddedFrom(es: seq<Entry>, e: int, low: int)
    requires low < e && forall i :: 0 <= i < |es| ==> low < es[i].v
    ensures forall i :: 0 <= i < |Added(es, e)| ==> low < Added(es, e)[i].v
  {
    if es != [] && es[0].v < e {
      AddedFrom(es[1..], e, low);
    }
  }

  lemma SortedMore(x: Entry, es: seq<Entry>)
    requires Sorted(es) && x.count >= 1 && forall i :: 0 <= i < |es| ==> x.v < es[i].v
    ensures Sorted([x] + es)
  {
  }

  lemma {:induction false} AddedSorted(es: seq<Entry>, e: int)
    requires Sorted(es)
    ensures Sorted(Added(es, e))
  {
    if es == [] {
    } else if es[0].v < e {
      AddedSorted(es[1..], e);
      AddedFrom(es[1..], e, es[0].v);
      SortedMore(es[0], Added(es[1..], e));
    } else if es[0].v == e {
      SortedMore(Entry(e, es[0].count + 1), es[1..]);
    } else {
      SortedMore(Entry(e, 1), es);
    }
  }

  lemma {:induction false} AddedValues(es: seq<Entry>, e: int)
    ensures multiset(Values(Added(es, e))) == multiset(Values(es)) + multiset{e}
  {
    if es == [] {
      assert Times(e, 1) == [e];
      assert Added(es, e)[1..] == [];
    } else if es[0].v == e {
      assert Times(e, es[0].count + 1) == Times(e, es[0].count) + [e];
      assert Added(es, e)[1..] == es[1..];
    } else if es[0].v > e {
      assert Times(e, 1) == [e];
      assert Added(es, e)[1..] == es;
    } else {
      AddedValues(es[1..], e);
      assert Added(es, e)[1..] == Added(es[1..], e);
    }
  }

  lemma AddedFirst(e: int)
    ensures Added([], e) == [Entry(e, 1)]
  {
  }

  // Adding goes to the side where the value belongs.
  lemma {:induction false} AddedLeft(l: seq<Entry>, x: Entry, r: seq<Entry>, e: int)
    requires Sorted(l + [x] + r) && e < x.v
    ensures Added(l + [x] + r, e) == Added(l, e) + [x] + r
  {
    var es := l + [x] + r;
    if l == [] {
      assert es[0] == x && [Entry(e, 1)] + es == [Entry(e, 1)] + [x] + r;
    } else {
      assert es[0] == l[0] && es[1..] == l[1..] + [x] + r;
      if l[0].v < e {
        AddedLeft(l[1..], x, r, e);
        assert [l[0]] + (Added(l[1..], e) + [x] + r) == ([l[0]] + Added(l[1..], e)) + [x] + r;
      }
    }
  }

  lemma {:induction false} AddedHere(l: seq<Entry>, x: Entry, r: seq<Entry>)
    requires Sorted(l + [x] + r)
    ensures Added(l + [x] + r, x.v) == l + [Entry(x.v, x.count + 1)] + r
  {
    var es := l + [x] + r;
    if l == [] {
      assert es[0] == x && es[1..] == r;
    } else {
      assert es[0] == l[0] && es[|l|] == x && es[1..] == l[1..] + [x] + r;
      AddedHere(l[1..], x, r);
    }
  }

  lemma {:induction false} AddedRight(l: seq<Entry>, x: Entry, r: seq<Entry>, e: int)
    requires Sorted(l + [x] + r) && x.v < e
    ensures Added(l + [x] + r, e) == l + [x] + Added(r, e)
  {
    var es := l + [x] + r;
    if l == [] {
      assert es[0] == x && es[1..] == r;
      assert [x] + Added(r, e) == [] + [x] + Added(r, e);
    } else {
      assert es[0] == l[0] && es[|l|] == x && es[1..] == l[1..] + [x] + r;
      AddedRight(l[1..], x, r, e);
    }
  }

  // ----- The tree -----

  // The entries of a node with l on its left and r on its right.
  ghost predicate Around(es: seq<Entry>, l: seq<Entry>, v: int, count: nat, r: seq<Entry>) {
    es == l + [Entry(v, count)] + r && Sorted(es)
  }

  lemma AroundMore(es: seq<Entry>, l: seq<Entry>, v: int, count: nat, r: seq<Entry>, e: int)
    requires Around(es, l, v, count, r)
    ensures if e == v then Around(Added(es, e), l, v, count + 1, r)
            else if e < v then Around(Added(es, e), Added(l, e), v, count, r)
            else Around(Added(es, e), l, v, count, Added(r, e))
  {
    hide Sorted, Added;
    AddedSorted(es, e);
    if e == v {
      AddedHere(l, Entry(v, count), r);
    } else if e < v {
      AddedLeft(l, Entry(v, count), r, e);
    } else {
      AddedRight(l, Entry(v, count), r, e);
    }
  }

  ghost function EntriesOf(n: Node?): seq<Entry>
    reads n
  {
    if n == null then [] else n.entries
  }

  ghost function ReprOf(n: Node?): set<object>
    reads n
  {
    if n == null then {} else n.Repr
  }

  class Node {
    var data: int
    var count: nat
    var l: Node?
    var r: Node?
    ghost var Repr: set<object>
    ghost var entries: seq<Entry>

    ghost predicate Valid()
      reads this, Repr
      decreases Repr
    {
      this in Repr && count >= 1 &&
      (l != null ==> l in Repr && l.Repr <= Repr - {this} && l.Valid()) &&
      (r != null ==> r in Repr && r.Repr <= Repr - {this} && r.Valid()) &&
      ReprOf(l) !! ReprOf(r) && Around(entries, EntriesOf(l), data, count, EntriesOf(r))
    }

    constructor (e: int)
      ensures Valid() && entries == [Entry(e, 1)] && Repr == {this}
    {
      data, count, l, r := e, 1, null, null;
      Repr, entries := {this}, [Entry(e, 1)];
    }
  }

  // node_insert
  method NodeInsert(n: Node?, e: int) returns (m: Node)
    requires n != null ==> n.Valid()
    modifies ReprOf(n)
    ensures m.Valid() && m.entries == Added(old(EntriesOf(n)), e) && (n != null ==> m == n)
    ensures fresh(m.Repr - old(ReprOf(n))) && old(ReprOf(n)) <= m.Repr
    decreases ReprOf(n), 1
  {
    hide Added, Sorted, Values, Around;
    if n == null {
      AddedFirst(e);
      m := new Node(e);
      return;
    }
    m := n;
    if n.data == e {
      AroundMore(n.entries, EntriesOf(n.l), n.data, n.count, EntriesOf(n.r), e);
      n.count := n.count + 1;
      n.entries := Added(n.entries, e);
    } else if n.data > e {
      InsertLeft(n, e);
    } else {
      InsertRight(n, e);
    }
  }

  method InsertLeft(n: Node, e: int)
    requires n.Valid() && n.data > e
    modifies n.Repr
    ensures n.Valid() && n.entries == Added(old(n.entries), e) && fresh(n.Repr - old(n.Repr)) && old(n.Repr) <= n.Repr
    decreases n.Repr, 0
  {
    hide Added, Sorted, Values, Around;
    AroundMore(n.entries, EntriesOf(n.l), n.data, n.count, EntriesOf(n.r), e);
    var m := NodeInsert(n.l, e);
    Attach(n, m, n.r, Added(n.entries, e));
  }

  method InsertRight(n: Node, e: int)
    requires n.Valid() && n.data < e
    modifies n.Repr
    ensures n.Valid() && n.entries == Added(old(n.entries), e) && fresh(n.Repr - old(n.Repr)) && old(n.Repr) <= n.Repr
    decreases n.Repr, 0
  {
    hide Added, Sorted, Values, Around;
    AroundMore(n.entries, EntriesOf(n.l), n.data, n.count, EntriesOf(n.r), e);
    var m := NodeInsert(n.r, e);
    Attach(n, n.l, m, Added(n.entries, e));
  }

  // Two trees under a node.
  method Attach(n: Node, l: Node?, r: Node?, ghost entries: seq<Entry>)
    requires (l != null ==> l.Valid()) && (r != null ==> r.Valid()) && n !in ReprOf(l) && n !in ReprOf(r) && ReprOf(l) !! ReprOf(r)
    requires n.count >= 1 && n in n.Repr && Around(entries, EntriesOf(l), n.data, n.count, EntriesOf(r))
    modifies n`l, n`r, n`Repr, n`entries
    ensures n.Valid() && n.entries == entries && n.Repr == old(n.Repr) + ReprOf(l) + ReprOf(r)
  {
    hide Sorted, Around;
    n.l, n.r, n.entries := l, r, entries;
    n.Repr := n.Repr + ReprOf(l) + ReprOf(r);
  }

  // ----- The aggregates -----

  // *(int*)(e): the low 32 bits of a value, with their sign
  function Int32(v: int): (r: int)
    ensures r == v <==> -0x8000_0000 <= v < 0x8000_0000
  {
    var u := v % 0x1_0000_0000;
    if u < 0x8000_0000 then u else u - 0x1_0000_0000
  }

  // The number with the same low 32 bits that a signed one can be.
  lemma Int32Is(v: int)
    ensures -0x8000_0000 <= Int32(v) < 0x8000_0000 && (v - Int32(v)) % 0x1_0000_0000 == 0
  {
  }

  // ModeCtx for integers; quarters is which quarter of the values pcnt is.
  class ModeCtx {
    var riM: int
    var cnt: nat
    var quarters: nat
    var mcnt: nat
    var mn: nat
    var base: Node?
    var done: bool
    ghost var inputs: seq<int>

    ghost predicate Valid()
      reads this, ReprOf(base), base
    {
      (base != null ==> base.Valid() && this !in base.Repr) && cnt == |inputs| && (base == null <==> inputs == []) &&
      Keeps(EntriesOf(base), inputs) && riM == 0 && mcnt == 0 && mn == 0 && !done
    }

    // sqlite3_aggregate_context: all zero
    constructor ()
      ensures Valid() && inputs == [] && fresh(ReprOf(base))
    {
      riM, cnt, quarters, mcnt, mn, base, done, inputs := 0, 0, 0, 0, 0, null, false, [];
    }

    // modeStep for a value that is not NULL
    method ModeStep(xi: int)
      requires Valid()
      modifies this`cnt, this`base, this`inputs, ReprOf(base)
      ensures Valid() && inputs == old(inputs) + [xi] && fresh(ReprOf(base) - old(ReprOf(base)))
    {
      hide Added, Values, Sorted, Keeps, Node.Valid;
      OneMore(EntriesOf(base), inputs, xi);
      cnt := cnt + 1;
      base := NodeInsert(base, xi);
      inputs := inputs + [xi];
    }

    // modeIterate
    method ModeIterate(e: int, c: nat)
      modifies this`mn, this`riM, this`mcnt
      ensures ModeState(riM, mcnt, mn) == ModeNext(old(ModeState(riM, mcnt, mn)), Entry(e, c))
    {
      if mcnt == c {
        mn := mn + 1;
      } else if mcnt < c {
        riM, mcnt, mn := Int32(e), c, 1;
      }
    }

    // node_iterate with modeIterate
    method IterateMode(n: Node?)
      requires n != null ==> n.Valid() && this !in n.Repr
      modifies this`mn, this`riM, this`mcnt
      ensures ModeState(riM, mcnt, mn) == ModeOver(old(ModeState(riM, mcnt, mn)), EntriesOf(n))
      decreases ReprOf(n)
    {
      hide Sorted;
      if n != null {
        ghost var s := ModeState(riM, mcnt, mn);
        ModeOverParts(s, EntriesOf(n.l), Entry(n.data, n.count), EntriesOf(n.r));
        IterateMode(n.l);
        ModeIterate(n.data, n.count);
        IterateMode(n.r);
      } else {
        assert ModeOver(ModeState(riM, mcnt, mn), []) == ModeState(riM, mcnt, mn);
      }
    }

    // medianIterate; cnt and mcnt stay below 2^31
    method MedianIterate(e: int, c: nat)
      modifies this`mn, this`riM, this`mcnt, this`done
      ensures MedianState(riM, mcnt, mn, done) == MedianNext(old(MedianState(riM, mcnt, mn, done)), Entry(e, c), cnt, quarters)
    {
      if done {
        return;
      }
      if 4 * (mcnt + c) >= cnt * quarters {
        if 4 * (cnt - mcnt) >= 4 * cnt - cnt * quarters {
          mn := mn + 1;
          riM := riM + Int32(e);
        } else {
          done := true;
        }
      }
      mcnt := mcnt + c;
    }

    // node_iterate with medianIterate
    method IterateMedian(n: Node?)
      requires n != null ==> n.Valid() && this !in n.Repr
      modifies this`mn, this`riM, this`mcnt, this`done
      ensures MedianState(riM, mcnt, mn, done) == MedianOver(old(MedianState(riM, mcnt, mn, done)), EntriesOf(n), cnt, quarters)
      decreases ReprOf(n)
    {
      hide Sorted;
      if n != null {
        ghost var s := MedianState(riM, mcnt, mn, done);
        MedianOverParts(s, EntriesOf(n.l), Entry(n.data, n.count), EntriesOf(n.r), cnt, quarters);
        IterateMedian(n.l);
        MedianIterate(n.data, n.count);
        IterateMedian(n.r);
      } else {
        assert MedianOver(MedianState(riM, mcnt, mn, done), [], cnt, quarters) == MedianState(riM, mcnt, mn, done);
      }
    }

    // modeFinalize
    method ModeFinalize() returns (r: Answer)
      requires Valid()
      modifies this`mn, this`riM, this`mcnt
      ensures match r
              case Null => NoMode(multiset(inputs))
              case Integer(i) => exists v :: IsMode(multiset(inputs), v) && i == Int32(v)
              case Real(x) => false
    {
      hide Sorted, ModeOver, IsMode, Node.Valid;
      ModeIs(EntriesOf(base));
      if base == null {
        NothingHasNoMode(inputs);
        return Null;
      }
      IterateMode(base);
      r := if mn == 1 then Integer(riM) else Null;
    }

    // medianFinalize, lower_quartileFinalize and upper_quartileFinalize: pcnt is
    // cnt * q / 4 with q two, one and three
    method QuartileFinalize(q: nat) returns (r: Answer)
      requires Valid() && 1 <= q <= 3
      modifies this`mn, this`riM, this`mcnt, this`done, this`quarters
      ensures inputs == [] ==> r == Null
      ensures inputs != [] ==> IsQuartile(inputs, q, r)
    {
      hide Sorted, MedianOver, Values, IsQuartile, Keeps, Node.Valid;
      quarters := q;
      if base == null {
        return Null;
      }
      SumIsQuartile(base.entries, inputs, q);
      IterateMedian(base);
      r := if mn == 1 then Integer(riM) else Real(riM as real / mn as real);
    }
  }

  // The result of an aggregate.
  datatype Answer = Null | Integer(i: int) | Real(x: real)

  ghost predicate Keeps(es: seq<Entry>, inputs: seq<int>) {
    Sorted(es) && multiset(Values(es)) == multiset(inputs)
  }

  lemma OneMore(es: seq<Entry>, inputs: seq<int>, e: int)
    requires Keeps(es, inputs)
    ensures Keeps(Added(es, e), inputs + [e])
  {
    AddedSorted(es, e);
    AddedValues(es, e);
  }

  lemma SameSize(s: seq<int>, t: seq<int>)
    requires multiset(s) == multiset(t)
    ensures |s| == |t|
  {
    assert |multiset(s)| == |s|;
  }

  lemma NothingHasNoMode(s: seq<int>)
    requires s == []
    ensures NoMode(multiset(s))
  {
  }

  datatype ModeState = ModeState(riM: int, mcnt: nat, mn: nat)

  function ModeNext(s: ModeState, x: Entry): ModeState {
    if s.mcnt == x.count then s.(mn := s.mn + 1)
    else if s.mcnt < x.count then ModeState(Int32(x.v), x.count, 1)
    else s
  }

  function ModeOver(s: ModeState, es: seq<Entry>): ModeState
    decreases |es|
  {
    if es == [] then s else ModeOver(ModeNext(s, es[0]), es[1..])
  }

  lemma {:induction false} ModeOverBoth(s: ModeState, l: seq<Entry>, r: seq<Entry>)
    ensures ModeOver(s, l + r) == ModeOver(ModeOver(s, l), r)
    decreases l
  {
    if l == [] {
      assert l + r == r;
    } else {
      assert (l + r)[1..] == l[1..] + r;
      ModeOverBoth(ModeNext(s, l[0]), l[1..], r);
    }
  }

  lemma ModeOverParts(s: ModeState, l: seq<Entry>, x: Entry, r: seq<Entry>)
    ensures ModeOver(s, l + [x] + r) == ModeOver(ModeNext(ModeOver(s, l), x), r)
  {
    ModeOverBoth(s, l + [x], r);
    ModeOverBoth(s, l, [x]);
    assert ModeOver(ModeOver(s, l), [x]) == ModeOver(ModeNext(ModeOver(s, l), x), [x][1..]);
  }

  datatype MedianState = MedianState(riM: int, mcnt: nat, mn: nat, done: bool)

  function MedianNext(s: MedianState, x: Entry, cnt: nat, quarters: nat): MedianState {
    if s.done then s
    else if 4 * (s.mcnt + x.count) >= cnt * quarters then
      if 4 * s.mcnt <= cnt * quarters then MedianState(s.riM + Int32(x.v), s.mcnt + x.count, s.mn + 1, false)
      else MedianState(s.riM, s.mcnt + x.count, s.mn, true)
    else s.(mcnt := s.mcnt + x.count)
  }

  function MedianOver(s: MedianState, es: seq<Entry>, cnt: nat, quarters: nat): MedianState
    decreases |es|
  {
    if es == [] then s else MedianOver(MedianNext(s, es[0], cnt, quarters), es[1..], cnt, quarters)
  }

  lemma {:induction false} MedianOverBoth(s: MedianState, l: seq<Entry>, r: seq<Entry>, cnt: nat, quarters: nat)
    ensures MedianOver(s, l + r, cnt, quarters) == MedianOver(MedianOver(s, l, cnt, quarters), r, cnt, quarters)
    decreases l
  {
    if l == [] {
      assert l + r == r;
    } else {
      assert (l + r)[1..] == l[1..] + r;
      MedianOverBoth(MedianNext(s, l[0], cnt, quarters), l[1..], r, cnt, quarters);
    }
  }

  lemma MedianOverParts(s: MedianState, l: seq<Entry>, x: Entry, r: seq<Entry>, cnt: nat, quarters: nat)
    ensures MedianOver(s, l + [x] + r, cnt, quarters) == MedianOver(MedianNext(MedianOver(s, l, cnt, quarters), x, cnt, quarters), r, cnt, quarters)
  {
    MedianOverBoth(s, l + [x], r, cnt, quarters);
    MedianOverBoth(s, l, [x], cnt, quarters);
    var u := MedianOver(s, l, cnt, quarters);
    assert MedianOver(u, [x], cnt, quarters) == MedianOver(MedianNext(u, x, cnt, quarters), [x][1..], cnt, quarters);
  }

  // ----- What the answers are -----

  // A value that is there more often than every other.
  ghost predicate IsMode(s: multiset<int>, v: int) {
    v in s && forall w :: w in s && w != v ==> s[w] < s[v]
  }

  ghost predicate NoMode(s: multiset<int>) {
    forall v :: !IsMode(s, v)
  }

  // What the scan knows after the entries es.
  ghost predicate Best(es: seq<Entry>, s: ModeState) {
    if es == [] then s.mcnt == 0
    else (forall k :: 0 <= k < |es| ==> es[k].count <= s.mcnt) && s.mn >= 1 &&
         ((exists i :: OnlyBest(es, s, i)) || exists i, j :: TwoBest(es, s, i, j))
  }

  ghost predicate OnlyBest(es: seq<Entry>, s: ModeState, i: int) {
    0 <= i < |es| && s.mn == 1 && es[i].count == s.mcnt && s.riM == Int32(es[i].v) &&
    forall k :: 0 <= k < |es| && k != i ==> es[k].count < s.mcnt
  }

  ghost predicate TwoBest(es: seq<Entry>, s: ModeState, i: int, j: int) {
    0 <= i < j < |es| && s.mn >= 2 && es[i].count == s.mcnt && es[j].count == s.mcnt
  }

  lemma BestMore(es: seq<Entry>, s: ModeState, x: Entry)
    requires Best(es, s) && x.count >= 1
    ensures Best(es + [x], ModeNext(s, x))
  {
    var t, n := ModeNext(s, x), |es|;
    var all := es + [x];
    if s.mcnt < x.count {
      assert OnlyBest(all, t, n);
    } else {
      assert forall k :: 0 <= k < n ==> all[k] == es[k];
      assert all[n] == x;
      if i :| OnlyBest(es, s, i) {
        assert if s.mcnt == x.count then TwoBest(all, t, i, n) else OnlyBest(all, t, i);
      } else {
        var i, j :| TwoBest(es, s, i, j);
        assert TwoBest(all, t, i, j);
      }
    }
  }

  lemma {:induction false} BestOver(before: seq<Entry>, s: ModeState, es: seq<Entry>)
    requires Best(before, s) && forall k :: 0 <= k < |es| ==> es[k].count >= 1
    ensures Best(before + es, ModeOver(s, es))
    decreases |es|
  {
    if es == [] {
      assert before + es == before;
    } else {
      BestMore(before, s, es[0]);
      assert before + [es[0]] + es[1..] == before + es;
      BestOver(before + [es[0]], ModeNext(s, es[0]), es[1..]);
    }
  }

  // Every value is there as often as its entry says.
  lemma {:induction false} CountOf(es: seq<Entry>, i: nat)
    requires Sorted(es) && i < |es|
    ensures multiset(Values(es))[es[i].v] == es[i].count
  {
    var v, here, rest := es[i].v, Times(es[0].v, es[0].count), Values(es[1..]);
    ValuesFrom(es[1..], es[0].v);
    TimesCount(es[0].v, es[0].count, v);
    if i > 0 {
      CountOf(es[1..], i - 1);
    } else {
      assert v !in rest;
    }
    assert multiset(here + rest)[v] == multiset(here)[v] + multiset(rest)[v];
  }

  lemma {:induction false} TimesCount(v: int, n: nat, w: int)
    ensures multiset(Times(v, n))[w] == if w == v then n else 0
  {
    if n == 0 {
      assert Times(v, n) == [];
    } else {
      TimesCount(v, n - 1, w);
      assert Times(v, n) == Times(v, n - 1) + [v];
    }
  }

  lemma {:induction false} ValueHasEntry(es: seq<Entry>, v: int) returns (i: nat)
    requires v in Values(es)
    ensures i < |es| && es[i].v == v
  {
    if v in Times(es[0].v, es[0].count) {
      i := 0;
    } else {
      i := ValueHasEntry(es[1..], v);
      i := i + 1;
    }
  }

  // The scan keeps a value exactly when one value is there most often.
  lemma ModeIs(es: seq<Entry>)
    requires Sorted(es)
    ensures var m := ModeOver(ModeState(0, 0, 0), es);
            if m.mn == 1 then exists v :: IsMode(multiset(Values(es)), v) && m.riM == Int32(v) else NoMode(multiset(Values(es)))
  {
    BestOver([], ModeState(0, 0, 0), es);
    assert [] + es == es;
    if es != [] {
      BestIs(es, ModeOver(ModeState(0, 0, 0), es));
    }
  }

  lemma BestIs(es: seq<Entry>, m: ModeState)
    requires Sorted(es) && es != [] && Best(es, m)
    ensures if m.mn == 1 then exists v :: IsMode(multiset(Values(es)), v) && m.riM == Int32(v) else NoMode(multiset(Values(es)))
  {
    hide Sorted, Values, IsMode;
    if i :| OnlyBest(es, m, i) {
      OnlyBestIsMode(es, m, i);
    } else {
      var i, j :| TwoBest(es, m, i, j);
      forall v ensures !IsMode(multiset(Values(es)), v) {
        TwoBestNoMode(es, m, i, j, v);
      }
    }
  }

  lemma OnlyBestIsMode(es: seq<Entry>, m: ModeState, i: nat)
    requires Sorted(es) && OnlyBest(es, m, i)
    ensures IsMode(multiset(Values(es)), es[i].v)
  {
    var s, v := multiset(Values(es)), es[i].v;
    CountOf(es, i);
    forall w | w in s && w != v ensures s[w] < s[v] {
      var k := ValueHasEntry(es, w);
      CountOf(es, k);
    }
  }

  lemma TwoBestNoMode(es: seq<Entry>, m: ModeState, i: nat, j: nat, v: int)
    requires Sorted(es) && TwoBest(es, m, i, j) && forall k :: 0 <= k < |es| ==> es[k].count <= m.mcnt
    ensures !IsMode(multiset(Values(es)), v)
  {
    var s := multiset(Values(es));
    if v in s {
      var k := ValueHasEntry(es, v);
      CountOf(es, k);
      CountOf(es, i);
      CountOf(es, j);
      var o := if k == i then j else i;
      assert es[o].v in s && es[o].v != v;
    }
  }

  // ----- Median and quartiles -----

  // The two neighbours of the place that splits s at quarters / 4; the same one twice
  // when the place is inside a value.
  function LowAt(n: nat, quarters: nat): int {
    (n * quarters - 1) / 4
  }

  function HighAt(n: nat, quarters: nat): int {
    n * quarters / 4
  }

  lemma PlaceFits(n: nat, quarters: nat)
    requires n >= 1 && 1 <= quarters <= 3
    ensures 0 <= LowAt(n, quarters) <= HighAt(n, quarters) < n && HighAt(n, quarters) <= LowAt(n, quarters) + 1
  {
    assert n <= n * quarters <= n * 3 by {
      if quarters == 1 {} else if quarters == 2 {} else {}
    }
  }

  // What the place between the neighbours means: their mean.
  function Quartile(s: seq<int>, quarters: nat): Answer
    requires s != [] && 1 <= quarters <= 3
  {
    PlaceFits(|s|, quarters);
    var x, y := s[LowAt(|s|, quarters)], s[HighAt(|s|, quarters)];
    if x == y then Integer(Int32(x)) else Real((Int32(x) + Int32(y)) as real / 2.0)
  }

  ghost predicate IsQuartile(inputs: seq<int>, quarters: nat, r: Answer) {
    exists s :: s != [] && InOrder(s) && multiset(s) == multiset(inputs) && 1 <= quarters <= 3 && r == Quartile(s, quarters)
  }

  lemma SumIsQuartile(es: seq<Entry>, inputs: seq<int>, q: nat)
    requires Keeps(es, inputs) && inputs != [] && 1 <= q <= 3
    ensures var m := MedianOver(MedianState(0, 0, 0, false), es, |inputs|, q);
            m.mn != 0 && IsQuartile(inputs, q, if m.mn == 1 then Integer(m.riM) else Real(m.riM as real / m.mn as real))
  {
    var s := Values(es);
    SameSize(s, inputs);
    ValuesInOrder(es);
    MedianIs(es, q);
    PlaceFits(|s|, q);
    hide Sorted, MedianOver, Values, InOrder;
    var m := MedianOver(MedianState(0, 0, 0, false), es, |inputs|, q);
    assert (if m.mn == 1 then Integer(m.riM) else Real(m.riM as real / m.mn as real)) == Quartile(s, q);
  }

  ghost predicate AllInt32(s: seq<int>) {
    forall k :: 0 <= k < |s| ==> -0x8000_0000 <= s[k] < 0x8000_0000
  }

  function ValueOf(a: Answer): real {
    match a
    case Null => 0.0
    case Integer(i) => i as real
    case Real(x) => x
  }

  // At most quarters / 4 of the values are below the answer, at most the rest are above it.
  lemma QuartileSplits(s: seq<int>, quarters: nat, k: nat)
    requires InOrder(s) && AllInt32(s) && 1 <= quarters <= 3 && k < |s|
    ensures (s[k] as real) < ValueOf(Quartile(s, quarters)) ==> 4 * (k + 1) <= |s| * quarters
    ensures (s[k] as real) > ValueOf(Quartile(s, quarters)) ==> 4 * (|s| - k) <= |s| * (4 - quarters)
  {
    PlaceFits(|s|, quarters);
    var lo, hi := LowAt(|s|, quarters), HighAt(|s|, quarters);
    var x, y, v := s[lo], s[hi], ValueOf(Quartile(s, quarters));
    assert Int32(x) == x && Int32(y) == y;
    assert x as real <= v <= y as real;
    assert |s| * (4 - quarters) == 4 * |s| - |s| * quarters;
    if (s[k] as real) < v {
      assert s[k] < s[hi];
    }
    if (s[k] as real) > v {
      assert s[k] > s[lo];
    }
  }

  lemma {:induction false} ValuesMore(es: seq<Entry>, x: Entry)
    ensures Values(es + [x]) == Values(es) + Times(x.v, x.count)
  {
    if es == [] {
      assert (es + [x])[1..] == [];
    } else {
      assert (es + [x])[1..] == es[1..] + [x];
      ValuesMore(es[1..], x);
    }
  }

  // What the scan knows after values v; the place is between lo and hi.
  ghost predicate Summed(v: seq<int>, s: MedianState, lo: nat, hi: nat) {
    lo <= hi <= lo + 1 && (if s.done then hi < |v| else s.mcnt == |v|) &&
    if |v| <= lo then s.mn == 0 && s.riM == 0
    else if |v| <= hi || v[lo] == v[hi] then s.mn == 1 && s.riM == Int32(v[lo])
    else s.mn == 2 && s.riM == Int32(v[lo]) + Int32(v[hi])
  }

  lemma SummedMore(v: seq<int>, s: MedianState, x: Entry, cnt: nat, quarters: nat, lo: nat, hi: nat)
    requires Summed(v, s, lo, hi) && x.count >= 1 && lo == LowAt(cnt, quarters) && hi == HighAt(cnt, quarters)
    requires forall k :: 0 <= k < |v| ==> v[k] < x.v
    ensures Summed(v + Times(x.v, x.count), MedianNext(s, x, cnt, quarters), lo, hi)
  {
    var w := v + Times(x.v, x.count);
    var nq := cnt * quarters;
    assert |v| <= hi <==> 4 * |v| <= nq;
    assert |w| > lo <==> 4 * |w| >= nq;
    assert forall k :: 0 <= k < |v| ==> w[k] == v[k];
    assert forall k :: |v| <= k < |w| ==> w[k] == x.v;
  }

  lemma {:induction false} SummedOver(before: seq<Entry>, s: MedianState, es: seq<Entry>, cnt: nat, quarters: nat, lo: nat, hi: nat)
    requires Sorted(before + es) && Summed(Values(before), s, lo, hi) && lo == LowAt(cnt, quarters) && hi == HighAt(cnt, quarters)
    ensures Summed(Values(before + es), MedianOver(s, es, cnt, quarters), lo, hi)
    decreases |es|
  {
    if es == [] {
      assert before + es == before;
    } else {
      var x, all := es[0], before + es;
      assert all[|before|] == x;
      assert forall k :: 0 <= k < |before| ==> all[k] == before[k];
      ValuesUpTo(before, x.v);
      SummedMore(Values(before), s, x, cnt, quarters, lo, hi);
      ValuesMore(before, x);
      assert before + [x] + es[1..] == all;
      SummedOver(before + [x], MedianNext(s, x, cnt, quarters), es[1..], cnt, quarters, lo, hi);
    }
  }

  lemma {:induction false} ValuesUpTo(es: seq<Entry>, high: int)
    requires forall i :: 0 <= i < |es| ==> es[i].v < high
    ensures forall k :: 0 <= k < |Values(es)| ==> Values(es)[k] < high
  {
    if es != [] {
      ValuesUpTo(es[1..], high);
    }
  }

  // The scan sums the values on both sides of the place, once when they are the same.
  lemma MedianIs(es: seq<Entry>, quarters: nat)
    requires Sorted(es) && es != [] && 1 <= quarters <= 3
    ensures var v := Values(es);
            var m, lo, hi := MedianOver(MedianState(0, 0, 0, false), es, |v|, quarters), LowAt(|v|, quarters), HighAt(|v|, quarters);
            0 <= lo <= hi < |v| &&
            if v[lo] == v[hi] then m.mn == 1 && m.riM == Int32(v[hi]) else m.mn == 2 && m.riM == Int32(v[lo]) + Int32(v[hi])
  {
    var n := |Values(es)|;
    assert n >= 1;
    PlaceFits(n, quarters);
    assert Summed(Values([]), MedianState(0, 0, 0, false), LowAt(n, quarters), HighAt(n, quarters));
    assert [] + es == es;
    SummedOver([], MedianState(0, 0, 0, false), es, n, quarters, LowAt(n, quarters), HighAt(n, quarters));
  }
}
