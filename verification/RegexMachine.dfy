// The NFA program read as a machine, and the proof that the program of a
// pattern reaches its end exactly along the pattern's matches.

module RegexMachine {
  import opened RegexSpec

  // The scan of a class table: entries x+j .. x+n-1, a value taking one slot
  // and a range two.
  predicate ClassScan(code: seq<Inst>, x: int, j: int, n: int, c: int)
    requires 0 <= x < |code| && 1 <= j
    decreases n - j
  {
    j < n && x + j < |code| &&
    if code[x + j].op.CC_VALUE? then
      code[x + j].arg == c || ClassScan(code, x, j + 1, n, c)
    else
      x + j + 1 < |code| &&
      (code[x + j].arg <= c <= code[x + j + 1].arg || ClassScan(code, x, j + 2, n, c))
  }

  predicate ClassTest(code: seq<Inst>, x: int, c: int)
    requires 0 <= x < |code| && (code[x].op.CC_INC? || code[x].op.CC_EXC?)
  {
    var hit := ClassScan(code, x, 1, code[x].arg, c);
    if code[x].op.CC_EXC? then c != EOF_CHAR && !hit else hit
  }

  // ACCEPT can be reached from instruction pc at position pos in at most n steps.
  ghost predicate Accepts(code: seq<Inst>, t: Text, n: nat, pc: int, pos: nat)
    decreases n
  {
    0 <= pc < |code| &&
    var inst := code[pc];
    match inst.op
    case ACCEPT => true
    case GOTO => n > 0 && Accepts(code, t, n - 1, pc + inst.arg, pos)
    case FORK => n > 0 && t.Live(pos) &&
      (Accepts(code, t, n - 1, pc + inst.arg, pos) || Accepts(code, t, n - 1, pc + 1, pos))
    case ANYSTAR => n > 0 && t.Live(pos) &&
      (Accepts(code, t, n - 1, pc + 1, pos) || Accepts(code, t, n - 1, pc, pos + 1))
    case ATSTART => n > 0 && t.Live(pos) && t.Previous(pos) == START_CHAR && Accepts(code, t, n - 1, pc + 1, pos)
    case BOUNDARY => n > 0 && t.Live(pos) && t.AtBoundary(pos) && Accepts(code, t, n - 1, pc + 1, pos)
    case CC_INC => n > 0 && t.Live(pos) && ClassTest(code, pc, t.Char(pos)) &&
      Accepts(code, t, n - 1, pc + inst.arg, pos + 1)
    case CC_EXC => n > 0 && t.Live(pos) && ClassTest(code, pc, t.Char(pos)) &&
      Accepts(code, t, n - 1, pc + inst.arg, pos + 1)
    case CC_VALUE => false
    case CC_RANGE => false
    case _ => n > 0 && t.Live(pos) && Passes(inst, t.Char(pos)) && Accepts(code, t, n - 1, pc + 1, pos + 1)
  }

  ghost predicate Accepting(code: seq<Inst>, t: Text, pc: int, pos: nat) {
    exists n: nat :: Accepts(code, t, n, pc, pos)
  }

  lemma {:induction false} AcceptsMore(code: seq<Inst>, t: Text, n: nat, m: nat, pc: int, pos: nat)
    requires n <= m && Accepts(code, t, n, pc, pos)
    ensures Accepts(code, t, m, pc, pos)
    decreases n
  {
    hide ClassTest, Passes;
    var inst := code[pc];
    match inst.op
    case ACCEPT =>
    case GOTO => AcceptsMore(code, t, n - 1, m - 1, pc + inst.arg, pos);
    case FORK =>
      if Accepts(code, t, n - 1, pc + inst.arg, pos) {
        AcceptsMore(code, t, n - 1, m - 1, pc + inst.arg, pos);
      } else {
        AcceptsMore(code, t, n - 1, m - 1, pc + 1, pos);
      }
    case ANYSTAR =>
      if Accepts(code, t, n - 1, pc + 1, pos) {
        AcceptsMore(code, t, n - 1, m - 1, pc + 1, pos);
      } else {
        AcceptsMore(code, t, n - 1, m - 1, pc, pos + 1);
      }
    case ATSTART => AcceptsMore(code, t, n - 1, m - 1, pc + 1, pos);
    case BOUNDARY => AcceptsMore(code, t, n - 1, m - 1, pc + 1, pos);
    case CC_INC => AcceptsMore(code, t, n - 1, m - 1, pc + inst.arg, pos + 1);
    case CC_EXC => AcceptsMore(code, t, n - 1, m - 1, pc + inst.arg, pos + 1);
    case CC_VALUE =>
    case CC_RANGE =>
    case _ => AcceptsMore(code, t, n - 1, m - 1, pc + 1, pos + 1);
  }

  // Fragment g of the program stands at offset o.
  predicate Holds(code: seq<Inst>, o: nat, g: seq<Inst>) {
    o + |g| <= |code| && code[o..o + |g|] == g
  }

  lemma HoldsSplit(code: seq<Inst>, o: nat, a: seq<Inst>, b: seq<Inst>)
    requires Holds(code, o, a + b)
    ensures Holds(code, o, a) && Holds(code, o + |a|, b)
  {
    assert (a + b)[..|a|] == a && (a + b)[|a|..] == b;
    assert code[o..o + |a|] == code[o..o + |a + b|][..|a|];
    assert code[o + |a|..o + |a| + |b|] == code[o..o + |a + b|][|a|..];
  }

  lemma HoldsOne(code: seq<Inst>, o: nat, inst: Inst)
    requires Holds(code, o, [inst])
    ensures o < |code| && code[o] == inst
  {
    assert code[o..o + 1][0] == inst;
  }

  lemma HoldsThree(code: seq<Inst>, o: nat, a: Inst, g: seq<Inst>, b: Inst)
    requires Holds(code, o, [a] + g + [b])
    ensures o + |g| + 2 <= |code|
    ensures code[o] == a && Holds(code, o + 1, g) && code[o + 1 + |g|] == b
  {
    hide Holds;
    HoldsSplit(code, o, [a] + g, [b]);
    HoldsSplit(code, o, [a], g);
    HoldsOne(code, o, a);
    HoldsOne(code, o + 1 + |g|, b);
  }

  lemma HoldsAlt(code: seq<Inst>, o: nat, a: Inst, g: seq<Inst>, b: Inst, h: seq<Inst>)
    requires Holds(code, o, [a] + g + [b] + h)
    ensures o + |g| + |h| + 2 <= |code|
    ensures code[o] == a && Holds(code, o + 1, g) && code[o + 1 + |g|] == b && Holds(code, o + 2 + |g|, h)
  {
    hide Holds;
    HoldsSplit(code, o, [a] + g + [b], h);
    HoldsThree(code, o, a, g, b);
  }

  // ----- character classes --------------------------------------------------------

  lemma HoldsTwo(code: seq<Inst>, o: nat, a: Inst, b: Inst)
    requires Holds(code, o, [a, b])
    ensures o + 2 <= |code| && code[o] == a && code[o + 1] == b
  {
    assert code[o..o + 2][0] == a && code[o..o + 2][1] == b;
  }

  lemma ItemsHaveSplit(items: seq<Item>, c: int)
    requires items != []
    ensures ItemsHave(items, c) <==> ItemHas(items[0], c) || ItemsHave(items[1..], c)
  {
    if ItemsHave(items[1..], c) {
      var k :| 0 <= k < |items[1..]| && ItemHas(items[1..][k], c);
      assert ItemHas(items[k + 1], c);
    }
    if ItemsHave(items, c) && !ItemHas(items[0], c) {
      var k :| 0 <= k < |items| && ItemHas(items[k], c);
      assert ItemHas(items[1..][k - 1], c);
    }
  }

  lemma {:induction false} ItemsScan(code: seq<Inst>, x: nat, j: nat, items: seq<Item>, n: int, c: int)
    requires 1 <= j && x < |code| && Holds(code, x + j, GenItems(items)) && n == j + |GenItems(items)|
    ensures ClassScan(code, x, j, n, c) <==> ItemsHave(items, c)
    decreases |items|
  {
    hide Holds, ItemsHave;
    if items == [] {
      assert !ItemsHave(items, c) by { NoItems(c); }
    } else {
      var rest := items[1..];
      ItemsHaveSplit(items, c);
      match items[0]
      case Value(v) =>
        HoldsSplit(code, x + j, [Inst(CC_VALUE, v)], GenItems(rest));
        HoldsOne(code, x + j, Inst(CC_VALUE, v));
        ItemsScan(code, x, j + 1, rest, n, c);
      case Range(lo, hi) =>
        HoldsSplit(code, x + j, [Inst(CC_RANGE, lo), Inst(CC_RANGE, hi)], GenItems(rest));
        HoldsTwo(code, x + j, Inst(CC_RANGE, lo), Inst(CC_RANGE, hi));
        ItemsScan(code, x, j + 2, rest, n, c);
    }
  }

  lemma NoItems(c: int)
    ensures !ItemsHave([], c)
  {
  }

  lemma ClassMeans(code: seq<Inst>, o: nat, neg: bool, items: seq<Item>, c: int)
    requires Holds(code, o, Gen(Class(neg, items)))
    ensures code[o] == Inst(if neg then CC_EXC else CC_INC, |GenItems(items)| + 1)
    ensures ClassTest(code, o, c) <==> ClassHas(neg, items, c)
  {
    hide Holds;
    var head := Inst(if neg then CC_EXC else CC_INC, |GenItems(items)| + 1);
    HoldsSplit(code, o, [head], GenItems(items));
    HoldsOne(code, o, head);
    ItemsScan(code, o, 1, items, |GenItems(items)| + 1, c);
  }

  // How the program of a compound pattern lies in memory.
  predicate AltAt(g: seq<Inst>, h: seq<Inst>, code: seq<Inst>, o: nat) {
    o + |g| + |h| + 2 <= |code| &&
    code[o] == Inst(FORK, |g| + 2) && Holds(code, o + 1, g) &&
    code[o + 1 + |g|] == Inst(GOTO, |h| + 1) && Holds(code, o + 2 + |g|, h)
  }

  predicate StarAt(g: seq<Inst>, code: seq<Inst>, o: nat) {
    o + |g| + 2 <= |code| && code[o] == Inst(GOTO, |g| + 1) && PlusAt(g, code, o + 1)
  }

  predicate PlusAt(g: seq<Inst>, code: seq<Inst>, o: nat) {
    o + |g| < |code| && Holds(code, o, g) && code[o + |g|] == Inst(FORK, -|g|)
  }

  predicate OptAt(g: seq<Inst>, code: seq<Inst>, o: nat) {
    o + |g| < |code| && code[o] == Inst(FORK, |g| + 1) && Holds(code, o + 1, g)
  }

  lemma AltShape(g: seq<Inst>, h: seq<Inst>, code: seq<Inst>, o: nat)
    requires Holds(code, o, AltCode(g, h))
    ensures AltAt(g, h, code, o) && |AltCode(g, h)| == |g| + |h| + 2
  {
    hide Holds;
    HoldsAlt(code, o, Inst(FORK, |g| + 2), g, Inst(GOTO, |h| + 1), h);
  }

  lemma StarShape(g: seq<Inst>, code: seq<Inst>, o: nat)
    requires Holds(code, o, StarCode(g))
    ensures StarAt(g, code, o) && |StarCode(g)| == |g| + 2
  {
    hide Holds;
    HoldsThree(code, o, Inst(GOTO, |g| + 1), g, Inst(FORK, -|g|));
  }

  lemma PlusShape(g: seq<Inst>, code: seq<Inst>, o: nat)
    requires Holds(code, o, PlusCode(g))
    ensures PlusAt(g, code, o) && |PlusCode(g)| == |g| + 1
  {
    hide Holds;
    HoldsSplit(code, o, g, [Inst(FORK, -|g|)]);
    HoldsOne(code, o + |g|, Inst(FORK, -|g|));
  }

  lemma OptShape(g: seq<Inst>, code: seq<Inst>, o: nat)
    requires Holds(code, o, OptCode(g))
    ensures OptAt(g, code, o) && |OptCode(g)| == |g| + 1
  {
    hide Holds;
    HoldsSplit(code, o, [Inst(FORK, |g| + 1)], g);
    HoldsOne(code, o, Inst(FORK, |g| + 1));
  }

  // ----- soundness: every accepting path through a fragment is a run of its pattern --

  predicate IsStep(r: Re) {
    r.Empty? || r.Test? || r.Class? || r.AtStart? || r.Boundary?
  }

  lemma StepSound(r: Re, code: seq<Inst>, o: nat, t: Text, n: nat, i: nat) returns (m: nat, j: nat)
    requires IsStep(r) && WellFormed(r) && Holds(code, o, Gen(r)) && Accepts(code, t, n, o, i)
    ensures m <= n && Runs(r, t, i, j) && Accepts(code, t, m, o + |Gen(r)|, j)
  {
    match r
    case Empty => m, j := n, i;
    case Test(inst) => HoldsOne(code, o, inst); m, j := n - 1, i + 1;
    case Class(neg, items) => ClassMeans(code, o, neg, items, t.Char(i)); m, j := n - 1, i + 1;
    case AtStart => HoldsOne(code, o, Inst(ATSTART, 0)); m, j := n - 1, i;
    case Boundary => HoldsOne(code, o, Inst(BOUNDARY, 0)); m, j := n - 1, i;
  }

  lemma {:induction false} DotStarSound(code: seq<Inst>, o: nat, t: Text, n: nat, i: nat) returns (m: nat, j: nat)
    requires Holds(code, o, Gen(DotStar)) && Accepts(code, t, n, o, i)
    ensures m <= n && Runs(DotStar, t, i, j) && Accepts(code, t, m, o + |Gen(DotStar)|, j)
  {
    HoldsOne(code, o, Inst(ANYSTAR, 0));
    if Accepts(code, t, n - 1, o + 1, i) {
      m, j := n - 1, i;
    } else {
      m, j := DotStarSound(code, o, t, n - 1, i + 1);
    }
  }

  lemma ForkSound(code: seq<Inst>, t: Text, n: nat, pc: nat, pos: nat)
    requires pc < |code| && code[pc].op.FORK? && Accepts(code, t, n, pc, pos)
    ensures n > 0 && t.Live(pos)
    ensures Accepts(code, t, n - 1, pc + code[pc].arg, pos) || Accepts(code, t, n - 1, pc + 1, pos)
  {
  }

  lemma GotoSound(code: seq<Inst>, t: Text, n: nat, pc: nat, pos: nat)
    requires pc < |code| && code[pc].op.GOTO? && Accepts(code, t, n, pc, pos)
    ensures n > 0 && Accepts(code, t, n - 1, pc + code[pc].arg, pos)
  {
  }

  lemma {:induction false} CatSound(a: Re, b: Re, code: seq<Inst>, o: nat, t: Text, n: nat, i: nat)
    returns (m: nat, j: nat)
    requires WellFormed(Cat(a, b)) && Holds(code, o, Gen(Cat(a, b))) && Accepts(code, t, n, o, i)
    ensures m <= n && Runs(Cat(a, b), t, i, j) && Accepts(code, t, m, o + |Gen(Cat(a, b))|, j)
    decreases Cat(a, b), n, 0
  {
    hide Accepts, Holds, AltCode, StarCode, PlusCode, OptCode;
    HoldsSplit(code, o, Gen(a), Gen(b));
    var k;
    m, k := RunsSound(a, code, o, t, n, i);
    m, j := RunsSound(b, code, o + |Gen(a)|, t, m, k);
  }

  lemma {:induction false} AltSound(a: Re, b: Re, code: seq<Inst>, o: nat, t: Text, n: nat, i: nat)
    returns (m: nat, j: nat)
    requires WellFormed(Alt(a, b)) && AltAt(Gen(a), Gen(b), code, o) && Accepts(code, t, n, o, i)
    ensures m <= n && Runs(Alt(a, b), t, i, j) && Accepts(code, t, m, o + |Gen(a)| + |Gen(b)| + 2, j)
    decreases Alt(a, b), n, 0
  {
    hide Accepts, Holds, AltCode, StarCode, PlusCode, OptCode;
    ForkSound(code, t, n, o, i);
    if Accepts(code, t, n - 1, o + 1, i) {
      m, j := RunsSound(a, code, o + 1, t, n - 1, i);
      GotoSound(code, t, m, o + 1 + |Gen(a)|, j);
      m := m - 1;
    } else {
      m, j := RunsSound(b, code, o + |Gen(a)| + 2, t, n - 1, i);
    }
  }

  lemma {:induction false} StarSound(a: Re, code: seq<Inst>, o: nat, t: Text, n: nat, i: nat)
    returns (m: nat, j: nat)
    requires WellFormed(Star(a)) && StarAt(Gen(a), code, o) && Accepts(code, t, n, o, i)
    ensures m <= n && Runs(Star(a), t, i, j) && Accepts(code, t, m, o + |Gen(a)| + 2, j)
    decreases Star(a), n, 0
  {
    hide Accepts, Holds, AltCode, StarCode, PlusCode, OptCode;
    GotoSound(code, t, n, o, i);
    var k;
    m, j, k := LoopSound(a, code, o + 1, t, n - 1, i);
  }

  lemma {:induction false} PlusSound(a: Re, code: seq<Inst>, o: nat, t: Text, n: nat, i: nat)
    returns (m: nat, j: nat)
    requires WellFormed(Plus(a)) && PlusAt(Gen(a), code, o) && Accepts(code, t, n, o, i)
    ensures m <= n && Runs(Plus(a), t, i, j) && Accepts(code, t, m, o + |Gen(a)| + 1, j)
    decreases Plus(a), n, 0
  {
    var p, k;
    m, p := RunsSound(a, code, o, t, n, i);
    m, j, k := LoopSound(a, code, o, t, m, p);
    assert Runs(a, t, i, p) && RunsTimes(a, k, t, p, j);
  }

  lemma {:induction false} OptSound(a: Re, code: seq<Inst>, o: nat, t: Text, n: nat, i: nat)
    returns (m: nat, j: nat)
    requires WellFormed(Opt(a)) && OptAt(Gen(a), code, o) && Accepts(code, t, n, o, i)
    ensures m <= n && Runs(Opt(a), t, i, j) && Accepts(code, t, m, o + |Gen(a)| + 1, j)
    decreases Opt(a), n, 0
  {
    hide Accepts, Holds, AltCode, StarCode, PlusCode, OptCode;
    ForkSound(code, t, n, o, i);
    if Accepts(code, t, n - 1, o + 1, i) {
      m, j := RunsSound(a, code, o + 1, t, n - 1, i);
    } else {
      m, j := n - 1, i;
    }
  }

  lemma {:induction false} RunsSound(r: Re, code: seq<Inst>, o: nat, t: Text, n: nat, i: nat)
    returns (m: nat, j: nat)
    requires WellFormed(r) && Holds(code, o, Gen(r)) && Accepts(code, t, n, o, i)
    ensures m <= n && Runs(r, t, i, j) && Accepts(code, t, m, o + |Gen(r)|, j)
    decreases r, n, 1
  {
    hide Accepts, Holds, Runs, RunsTimes, AltCode, StarCode, PlusCode, OptCode;
    match r
    case DotStar =>
      m, j := DotStarSound(code, o, t, n, i);
    case Cat(a, b) => m, j := CatSound(a, b, code, o, t, n, i);
    case Alt(a, b) =>
      AltShape(Gen(a), Gen(b), code, o);
      m, j := AltSound(a, b, code, o, t, n, i);
    case Star(a) =>
      StarShape(Gen(a), code, o);
      m, j := StarSound(a, code, o, t, n, i);
    case Plus(a) =>
      PlusShape(Gen(a), code, o);
      m, j := PlusSound(a, code, o, t, n, i);
    case Opt(a) =>
      OptShape(Gen(a), code, o);
      m, j := OptSound(a, code, o, t, n, i);
    case _ => m, j := StepSound(r, code, o, t, n, i);
  }

  // From the FORK that closes a loop whose body stands at offset o.
  lemma {:induction false} LoopSound(a: Re, code: seq<Inst>, o: nat, t: Text, n: nat, i: nat)
    returns (m: nat, j: nat, k: nat)
    requires WellFormed(a) && PlusAt(Gen(a), code, o)
    requires Accepts(code, t, n, o + |Gen(a)|, i)
    ensures m <= n && RunsTimes(a, k, t, i, j) && Accepts(code, t, m, o + |Gen(a)| + 1, j)
    decreases a, n + 1, 0
  {
    ForkSound(code, t, n, o + |Gen(a)|, i);
    if Accepts(code, t, n - 1, o + |Gen(a)| + 1, i) {
      m, j, k := n - 1, i, 0;
    } else {
      var p;
      m, p := RunsSound(a, code, o, t, n - 1, i);
      m, j, k := LoopSound(a, code, o, t, m, p);
      k := k + 1;
      assert Runs(a, t, i, p);
    }
  }

  // ----- completeness: every run of a pattern is a path through its fragment -----------

  lemma StepComplete(r: Re, code: seq<Inst>, o: nat, t: Text, m: nat, i: nat, j: nat) returns (n: nat)
    requires IsStep(r) && WellFormed(r) && Holds(code, o, Gen(r)) && Runs(r, t, i, j)
    requires Accepts(code, t, m, o + |Gen(r)|, j)
    ensures Accepts(code, t, n, o, i)
  {
    n := m + 1;
    match r
    case Empty => n := m;
    case Test(inst) => HoldsOne(code, o, inst);
    case Class(neg, items) => ClassMeans(code, o, neg, items, t.Char(i));
    case AtStart => HoldsOne(code, o, Inst(ATSTART, 0));
    case Boundary => HoldsOne(code, o, Inst(BOUNDARY, 0));
  }

  lemma {:induction false} DotStarComplete(code: seq<Inst>, o: nat, t: Text, m: nat, i: nat, j: nat) returns (n: nat)
    requires Holds(code, o, Gen(DotStar)) && Runs(DotStar, t, i, j)
    requires Accepts(code, t, m, o + |Gen(DotStar)|, j)
    ensures Accepts(code, t, n, o, i)
    decreases j - i
  {
    HoldsOne(code, o, Inst(ANYSTAR, 0));
    if i == j {
      n := m + 1;
    } else {
      n := DotStarComplete(code, o, t, m, i + 1, j);
      n := n + 1;
    }
  }

  lemma ForkComplete(code: seq<Inst>, t: Text, n: nat, pc: nat, pos: nat)
    requires pc < |code| && code[pc].op.FORK? && t.Live(pos)
    requires Accepts(code, t, n, pc + code[pc].arg, pos) || Accepts(code, t, n, pc + 1, pos)
    ensures Accepts(code, t, n + 1, pc, pos)
  {
  }

  lemma GotoComplete(code: seq<Inst>, t: Text, n: nat, pc: nat, pos: nat)
    requires pc < |code| && code[pc].op.GOTO? && Accepts(code, t, n, pc + code[pc].arg, pos)
    ensures Accepts(code, t, n + 1, pc, pos)
  {
  }

  lemma {:induction false} CatComplete(a: Re, b: Re, code: seq<Inst>, o: nat, t: Text, m: nat, i: nat, j: nat)
    returns (n: nat)
    requires WellFormed(Cat(a, b)) && Holds(code, o, Gen(Cat(a, b))) && Runs(Cat(a, b), t, i, j)
    requires Accepts(code, t, m, o + |Gen(Cat(a, b))|, j)
    ensures Accepts(code, t, n, o, i)
    decreases Cat(a, b), 0, 0
  {
    hide Accepts, Holds, AltCode, StarCode, PlusCode, OptCode;
    HoldsSplit(code, o, Gen(a), Gen(b));
    var k: nat :| Runs(a, t, i, k) && Runs(b, t, k, j);
    n := RunsComplete(b, code, o + |Gen(a)|, t, m, k, j);
    n := RunsComplete(a, code, o, t, n, i, k);
  }

  lemma {:induction false} AltComplete(a: Re, b: Re, code: seq<Inst>, o: nat, t: Text, m: nat, i: nat, j: nat)
    returns (n: nat)
    requires WellFormed(Alt(a, b)) && AltAt(Gen(a), Gen(b), code, o) && Runs(Alt(a, b), t, i, j)
    requires Accepts(code, t, m, o + |Gen(a)| + |Gen(b)| + 2, j)
    ensures Accepts(code, t, n, o, i)
    decreases Alt(a, b), 0, 0
  {
    hide Accepts, Holds, AltCode, StarCode, PlusCode, OptCode;
    if Runs(a, t, i, j) {
      GotoComplete(code, t, m, o + 1 + |Gen(a)|, j);
      n := RunsComplete(a, code, o + 1, t, m + 1, i, j);
    } else {
      n := RunsComplete(b, code, o + |Gen(a)| + 2, t, m, i, j);
    }
    ForkComplete(code, t, n, o, i);
    n := n + 1;
  }

  lemma {:induction false} StarComplete(a: Re, code: seq<Inst>, o: nat, t: Text, m: nat, i: nat, j: nat)
    returns (n: nat)
    requires WellFormed(Star(a)) && StarAt(Gen(a), code, o) && Runs(Star(a), t, i, j)
    requires Accepts(code, t, m, o + |Gen(a)| + 2, j)
    ensures Accepts(code, t, n, o, i)
    decreases Star(a), 0, 0
  {
    hide Accepts, Holds, AltCode, StarCode, PlusCode, OptCode;
    var k: nat :| RunsTimes(a, k, t, i, j);
    n := LoopComplete(a, code, o + 1, t, m, k, i, j);
    GotoComplete(code, t, n, o, i);
    n := n + 1;
  }

  lemma {:induction false} PlusComplete(a: Re, code: seq<Inst>, o: nat, t: Text, m: nat, i: nat, j: nat)
    returns (n: nat)
    requires WellFormed(Plus(a)) && PlusAt(Gen(a), code, o) && Runs(Plus(a), t, i, j)
    requires Accepts(code, t, m, o + |Gen(a)| + 1, j)
    ensures Accepts(code, t, n, o, i)
    decreases Plus(a), 0, 0
  {
    var p: nat, k: nat :| Runs(a, t, i, p) && RunsTimes(a, k, t, p, j);
    n := LoopComplete(a, code, o, t, m, k, p, j);
    n := RunsComplete(a, code, o, t, n, i, p);
  }

  lemma {:induction false} OptComplete(a: Re, code: seq<Inst>, o: nat, t: Text, m: nat, i: nat, j: nat)
    returns (n: nat)
    requires WellFormed(Opt(a)) && OptAt(Gen(a), code, o) && Runs(Opt(a), t, i, j)
    requires Accepts(code, t, m, o + |Gen(a)| + 1, j)
    ensures Accepts(code, t, n, o, i)
    decreases Opt(a), 0, 0
  {
    if i == j {
      n := m;
    } else {
      n := RunsComplete(a, code, o + 1, t, m, i, j);
    }
    ForkComplete(code, t, n, o, i);
    n := n + 1;
  }

  lemma {:induction false} RunsComplete(r: Re, code: seq<Inst>, o: nat, t: Text, m: nat, i: nat, j: nat)
    returns (n: nat)
    requires WellFormed(r) && Holds(code, o, Gen(r)) && Runs(r, t, i, j)
    requires Accepts(code, t, m, o + |Gen(r)|, j)
    ensures Accepts(code, t, n, o, i)
    decreases r, 0, 1
  {
    hide Accepts, Holds, Runs, RunsTimes, AltCode, StarCode, PlusCode, OptCode;
    match r
    case DotStar =>
      n := DotStarComplete(code, o, t, m, i, j);
    case Cat(a, b) => n := CatComplete(a, b, code, o, t, m, i, j);
    case Alt(a, b) =>
      AltShape(Gen(a), Gen(b), code, o);
      n := AltComplete(a, b, code, o, t, m, i, j);
    case Star(a) =>
      StarShape(Gen(a), code, o);
      n := StarComplete(a, code, o, t, m, i, j);
    case Plus(a) =>
      PlusShape(Gen(a), code, o);
      n := PlusComplete(a, code, o, t, m, i, j);
    case Opt(a) =>
      OptShape(Gen(a), code, o);
      n := OptComplete(a, code, o, t, m, i, j);
    case _ => n := StepComplete(r, code, o, t, m, i, j);
  }

  lemma {:induction false} LoopComplete(a: Re, code: seq<Inst>, o: nat, t: Text, m: nat, k: nat, i: nat, j: nat)
    returns (n: nat)
    requires WellFormed(a) && PlusAt(Gen(a), code, o)
    requires RunsTimes(a, k, t, i, j) && Accepts(code, t, m, o + |Gen(a)| + 1, j)
    ensures Accepts(code, t, n, o + |Gen(a)|, i)
    decreases a, 1, k
  {
    if k == 0 {
      n := m;
    } else {
      var p: nat :| Runs(a, t, i, p) && RunsTimes(a, k - 1, t, p, j);
      n := LoopComplete(a, code, o, t, m, k - 1, p, j);
      n := RunsComplete(a, code, o, t, n, i, p);
    }
    ForkComplete(code, t, n, o + |Gen(a)|, i);
    n := n + 1;
  }

  // ----- whole programs ------------------------------------------------------------------

  function Program(r: Re): seq<Inst> {
    Gen(r) + [Inst(ACCEPT, 0)]
  }

  ghost predicate RunsFrom(r: Re, t: Text, i: nat) {
    exists j: nat :: Runs(r, t, i, j)
  }

  // The program of a pattern accepts from the start of the text exactly when the
  // pattern has a run from there.
  lemma ProgramMeaning(r: Re, t: Text)
    requires WellFormed(r)
    ensures Accepting(Program(r), t, 0, 0) <==> RunsFrom(r, t, 0)
  {
    hide Gen, Runs;
    var code := Program(r);
    assert code[0..|Gen(r)|] == Gen(r);
    if Accepting(code, t, 0, 0) {
      var n: nat :| Accepts(code, t, n, 0, 0);
      var m, j := RunsSound(r, code, 0, t, n, 0);
    }
    if RunsFrom(r, t, 0) {
      var j: nat :| Runs(r, t, 0, j);
      assert Accepts(code, t, 0, |Gen(r)|, j);
      var n := RunsComplete(r, code, 0, t, 0, 0, j);
    }
  }

  lemma RunsCat(a: Re, b: Re, t: Text, i: nat, j: nat) returns (k: nat)
    requires Runs(Cat(a, b), t, i, j)
    ensures Runs(a, t, i, k) && Runs(b, t, k, j)
  {
    k :| Runs(a, t, i, k) && Runs(b, t, k, j);
  }

  // A pattern without a leading '^' is compiled after ".*": it may start anywhere.
  lemma FloatingMeaning(r: Re, t: Text)
    ensures RunsFrom(Cat(DotStar, r), t, 0) <==> exists i: nat :: i <= |t.s| && RunsFrom(r, t, i)
  {
    if RunsFrom(Cat(DotStar, r), t, 0) {
      var j: nat :| Runs(Cat(DotStar, r), t, 0, j);
      var k := RunsCat(DotStar, r, t, 0, j);
      assert k <= |t.s| && RunsFrom(r, t, k);
    }
    if i: nat :| i <= |t.s| && RunsFrom(r, t, i) {
      var j: nat :| Runs(r, t, i, j);
      assert Runs(DotStar, t, 0, i);
      assert Runs(Cat(DotStar, r), t, 0, j);
    }
  }

  // ----- safety: every jump of a program stays inside it ------------------------------------

  // All states instruction inst at offset x may lead to lie in lo..hi.
  predicate StepSafe(inst: Inst, x: int, lo: int, hi: int) {
    match inst.op
    case FORK => lo <= x + inst.arg <= hi && x + 1 <= hi
    case GOTO => x < x + inst.arg <= hi
    case CC_INC => 1 <= inst.arg && x + inst.arg <= hi
    case CC_EXC => 1 <= inst.arg && x + inst.arg <= hi
    case ACCEPT => true
    case CC_VALUE => true
    case CC_RANGE => true
    case _ => x + 1 <= hi
  }

  predicate AllSafe(g: seq<Inst>, o: int, lo: int, hi: int) {
    forall k :: 0 <= k < |g| ==> StepSafe(g[k], o + k, lo, hi)
  }

  predicate Safe(code: seq<Inst>) {
    AllSafe(code, 0, 0, |code| - 1)
  }

  lemma AllSafeJoin(a: seq<Inst>, b: seq<Inst>, o: int, lo: int, hi: int)
    requires AllSafe(a, o, lo, hi) && AllSafe(b, o + |a|, lo, hi)
    ensures AllSafe(a + b, o, lo, hi)
  {
    forall k | 0 <= k < |a + b| ensures StepSafe((a + b)[k], o + k, lo, hi) {
      if k >= |a| {
        assert StepSafe(b[k - |a|], o + |a| + (k - |a|), lo, hi);
      }
    }
  }

  lemma AllSafeWiden(g: seq<Inst>, o: int, lo: int, hi: int, lo': int, hi': int)
    requires AllSafe(g, o, lo, hi) && lo' <= lo && hi <= hi'
    ensures AllSafe(g, o, lo', hi')
  {
  }

  lemma {:induction false} GenItemsSafe(items: seq<Item>, o: int, lo: int, hi: int)
    ensures AllSafe(GenItems(items), o, lo, hi)
  {
    if items != [] {
      var head := match items[0]
        case Value(c) => [Inst(CC_VALUE, c)]
        case Range(l, h) => [Inst(CC_RANGE, l), Inst(CC_RANGE, h)];
      GenItemsSafe(items[1..], o + |head|, lo, hi);
      AllSafeJoin(head, GenItems(items[1..]), o, lo, hi);
    }
  }

  lemma OneSafe(inst: Inst, o: int, lo: int, hi: int)
    requires StepSafe(inst, o, lo, hi)
    ensures AllSafe([inst], o, lo, hi)
  {
  }

  // Moving a fragment up moves the upper bound of its jumps along.
  lemma AllSafeShift(g: seq<Inst>, o: int, lo: int, hi: int, d: nat)
    requires AllSafe(g, o, lo, hi)
    ensures AllSafe(g, o + d, lo, hi + d)
  {
    forall k | 0 <= k < |g| ensures StepSafe(g[k], o + d + k, lo, hi + d) {
      assert StepSafe(g[k], o + k, lo, hi);
    }
  }

  // Fragment g at offset o jumps no lower than lo and no further than its end.
  predicate Ends(g: seq<Inst>, o: int, lo: int) {
    lo <= o && AllSafe(g, o, lo, o + |g|)
  }

  lemma EndsShift(g: seq<Inst>, o: int, lo: int, d: nat)
    requires Ends(g, o, lo)
    ensures Ends(g, o + d, lo)
  {
    AllSafeShift(g, o, lo, o + |g|, d);
  }

  // The shapes in which a pattern's program wraps those of its parts.
  lemma CatEnds(g: seq<Inst>, h: seq<Inst>, o: int, lo: int)
    requires Ends(g, o, lo) && Ends(h, o + |g|, lo)
    ensures Ends(g + h, o, lo)
  {
    hide AllSafe;
    AllSafeWiden(g, o, lo, o + |g|, lo, o + |g + h|);
    AllSafeJoin(g, h, o, lo, o + |g + h|);
  }

  lemma AltEnds(g: seq<Inst>, h: seq<Inst>, o: int, lo: int)
    requires Ends(g, o, lo) && Ends(h, o + 2 + |g|, lo)
    ensures Ends(AltCode(g, h), o, lo)
  {
    hide AllSafe;
    var x, y, hi := Inst(FORK, |g| + 2), Inst(GOTO, |h| + 1), o + |g| + |h| + 2;
    EndsShift(g, o, lo, 1);
    OneSafe(x, o, lo, hi);
    OneSafe(y, o + 1 + |g|, lo, hi);
    AllSafeWiden(g, o + 1, lo, o + 1 + |g|, lo, hi);
    AllSafeJoin([x], g, o, lo, hi);
    AllSafeJoin([x] + g, [y], o, lo, hi);
    AllSafeJoin([x] + g + [y], h, o, lo, hi);
  }

  lemma PlusEnds(g: seq<Inst>, o: int, lo: int)
    requires Ends(g, o, lo)
    ensures Ends(PlusCode(g), o, lo)
  {
    hide AllSafe;
    var y, hi := Inst(FORK, -|g|), o + |g| + 1;
    OneSafe(y, o + |g|, lo, hi);
    AllSafeWiden(g, o, lo, o + |g|, lo, hi);
    AllSafeJoin(g, [y], o, lo, hi);
  }

  lemma StarEnds(g: seq<Inst>, o: int, lo: int)
    requires Ends(g, o, lo)
    ensures Ends(StarCode(g), o, lo)
  {
    hide AllSafe;
    var x, y, hi := Inst(GOTO, |g| + 1), Inst(FORK, -|g|), o + |g| + 2;
    OneSafe(x, o, lo, hi);
    EndsShift(g, o, lo, 1);
    PlusEnds(g, o + 1, lo);
    AllSafeJoin([x], g + [y], o, lo, hi);
    assert [x] + g + [y] == [x] + (g + [y]);
  }

  lemma OptEnds(g: seq<Inst>, o: int, lo: int)
    requires Ends(g, o, lo)
    ensures Ends(OptCode(g), o, lo)
  {
    hide AllSafe;
    var hi := o + |g| + 1;
    OneSafe(Inst(FORK, |g| + 1), o, lo, hi);
    EndsShift(g, o, lo, 1);
    AllSafeJoin([Inst(FORK, |g| + 1)], g, o, lo, hi);
  }

  lemma ClassEnds(neg: bool, items: seq<Item>, o: int)
    ensures Ends(ClassCode(neg, items), o, o)
  {
    hide AllSafe;
    var g := ClassCode(neg, items);
    GenItemsSafe(items, o + 1, o, o + |g|);
    OneSafe(g[0], o, o, o + |g|);
    AllSafeJoin([g[0]], GenItems(items), o, o, o + |g|);
  }

  lemma EndsLower(g: seq<Inst>, o: int, lo: int, lo': int)
    requires Ends(g, o, lo) && lo' <= lo
    ensures Ends(g, o, lo')
  {
  }

  // Behind the final ACCEPT, a fragment that ends where it should makes a safe program.
  lemma EndedIsSafe(g: seq<Inst>)
    requires Ends(g, 0, 0)
    ensures Safe(g + [Inst(ACCEPT, 0)])
  {
    AllSafeJoin(g, [Inst(ACCEPT, 0)], 0, 0, |g|);
  }
}
