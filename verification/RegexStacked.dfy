// A quantifier on a quantified character: the compiler applies it to the code from the
// place where the code ended before the first quantifier. What the program of "X", two
// quantifiers and nothing else then accepts, and for which pairs that is what the pattern
// means.

module RegexStacked {
  import opened RegexSpec
  import opened RegexMachine
  import opened RegexMeaning
  import opened RegexSyntax
  import opened RegexCompile

  // ----- patterns of one repeated character ---------------------------------------------------

  // The characters from i to j all pass the test.
  predicate AllPass(a: Inst, t: Text, i: nat, j: nat)
    requires IsTest(a.op)
  {
    i <= j <= |t.s| && forall k :: i <= k < j ==> Passes(a, t.s[k])
  }

  predicate Consumes(a: Inst) {
    IsTest(a.op) && a != Inst(MATCH, EOF_CHAR)
  }

  lemma PassAtEnd(a: Inst, t: Text, i: nat)
    requires Consumes(a) && t.Live(i) && Passes(a, t.Char(i))
    ensures i < |t.s|
  {
  }

  // r is built from the test alone.
  predicate Only(a: Inst, r: Re) {
    match r
    case Empty => true
    case Test(b) => b == a
    case Cat(x, y) => Only(a, x) && Only(a, y)
    case Star(x) => Only(a, x)
    case Plus(x) => Only(a, x)
    case Opt(x) => Only(a, x)
    case _ => false
  }

  // The fewest characters that it takes.
  function Fewest(r: Re): nat {
    match r
    case Test(_) => 1
    case Cat(x, y) => Fewest(x) + Fewest(y)
    case Plus(x) => Fewest(x)
    case _ => 0
  }

  lemma {:induction false} RunTakes(a: Inst, r: Re, t: Text, i: nat, j: nat)
    requires Consumes(a) && Only(a, r) && t.Live(i) && Runs(r, t, i, j)
    ensures i + Fewest(r) <= j && AllPass(a, t, i, j)
    decreases r, 0
  {
    match r
    case Empty =>
    case Test(_) => PassAtEnd(a, t, i);
    case Cat(x, y) =>
      var k: nat :| Runs(x, t, i, k) && Runs(y, t, k, j);
      RunTakes(a, x, t, i, k);
      RunTakes(a, y, t, k, j);
    case Star(x) =>
      var n: nat :| RunsTimes(x, n, t, i, j);
      RunsTake(a, x, n, t, i, j);
    case Plus(x) =>
      var k: nat, n: nat :| Runs(x, t, i, k) && RunsTimes(x, n, t, k, j);
      RunTakes(a, x, t, i, k);
      RunsTake(a, x, n, t, k, j);
    case Opt(x) =>
      if i != j {
        RunTakes(a, x, t, i, j);
      }
  }

  lemma {:induction false} RunsTake(a: Inst, r: Re, n: nat, t: Text, i: nat, j: nat)
    requires Consumes(a) && Only(a, r) && t.Live(i) && RunsTimes(r, n, t, i, j)
    ensures i <= j && AllPass(a, t, i, j)
    decreases r, n + 1
  {
    if n > 0 {
      var k: nat :| Runs(r, t, i, k) && RunsTimes(r, n - 1, t, k, j);
      RunTakes(a, r, t, i, k);
      RunsTake(a, r, n - 1, t, k, j);
    }
  }

  lemma {:induction false} FewestRuns(a: Inst, r: Re, t: Text, i: nat)
    requires Consumes(a) && Only(a, r) && AllPass(a, t, i, i + Fewest(r))
    ensures Runs(r, t, i, i + Fewest(r))
  {
    match r
    case Empty =>
    case Test(_) =>
    case Cat(x, y) =>
      FewestRuns(a, x, t, i);
      FewestRuns(a, y, t, i + Fewest(x));
    case Star(x) => assert RunsTimes(x, 0, t, i, i);
    case Plus(x) =>
      FewestRuns(a, x, t, i);
      assert RunsTimes(x, 0, t, i + Fewest(x), i + Fewest(x));
    case Opt(x) =>
  }

  // Such a pattern is found at a place exactly if its fewest characters are there.
  lemma FoundIfFewest(a: Inst, r: Re, t: Text, i: nat)
    requires Consumes(a) && Only(a, r) && t.Live(i)
    ensures RunsFrom(r, t, i) <==> AllPass(a, t, i, i + Fewest(r))
  {
    if RunsFrom(r, t, i) {
      var j: nat :| Runs(r, t, i, j);
      RunTakes(a, r, t, i, j);
    }
    if AllPass(a, t, i, i + Fewest(r)) {
      FewestRuns(a, r, t, i);
    }
  }

  lemma {:induction false} OnlyIsPlain(a: Inst, r: Re)
    requires Consumes(a) && Only(a, r)
    ensures WellFormed(r) && NoEnd(r)
  {
    match r
    case Cat(x, y) =>
      OnlyIsPlain(a, x);
      OnlyIsPlain(a, y);
    case Star(x) => OnlyIsPlain(a, x);
    case Plus(x) => OnlyIsPlain(a, x);
    case Opt(x) => OnlyIsPlain(a, x);
    case _ =>
  }

  lemma {:induction false} OnlyQuantified(a: Inst, q: Quant, r: Re)
    requires QuantOk(q) && Only(a, r)
    ensures Only(a, Quantify(q, r)) && Fewest(Quantify(q, r)) == Least(q) * Fewest(r)
  {
    if q.QCount? {
      OnlyExpanded(a, r, q.m, q.n);
    }
  }

  lemma {:induction false} OnlyExpanded(a: Inst, r: Re, m: nat, n: nat)
    requires m <= n && Only(a, r)
    ensures Only(a, Expand(r, m, n)) && Fewest(Expand(r, m, n)) == m * Fewest(r)
    decreases n
  {
    hide Only;
    if m > 0 {
      OnlyExpanded(a, r, m - 1, n - 1);
      OnlyCat(a, r, Expand(r, m - 1, n - 1));
      OneTimesMore(m, Fewest(r));
    } else if n > 0 {
      OnlyExpanded(a, r, 0, n - 1);
      OnlyOpt(a, r);
      OnlyCat(a, Opt(r), Expand(r, 0, n - 1));
    } else {
      OnlyEmpty(a);
    }
  }

  lemma OneTimesMore(m: nat, f: nat)
    requires m > 0
    ensures m * f == f + (m - 1) * f
  {
  }

  lemma OnlyOpt(a: Inst, r: Re)
    requires Only(a, r)
    ensures Only(a, Opt(r)) && Fewest(Opt(r)) == 0
  {
  }

  lemma OnlyEmpty(a: Inst)
    ensures Only(a, Empty) && Fewest(Empty) == 0
  {
  }

  // The fewest repetitions that a quantifier asks for.
  function Least(q: Quant): nat {
    match q
    case QStar => 0
    case QPlus => 1
    case QOpt => 0
    case QCount(m, _) => m
  }

  // ----- the code of two quantifiers ---------------------------------------------------------------

  // The code of X with two quantifiers, at offset o of a program and followed by its end.
  function Twice(a: Inst, q1: Quant, q2: Quant): seq<Inst>
    requires QuantOk(q1) && QuantOk(q2)
  {
    QuantCodeLong(q1, [a]);
    Requantified(q2, QuantCode(q1, [a]), 1)
  }

  predicate At(code: seq<Inst>, o: nat, g: seq<Inst>) {
    o + |g| < |code| && Holds(code, o, g) && code[o + |g|].op.ACCEPT?
  }

  // What an ordinary pattern of the character accepts when the program is entered at its code.
  lemma PlainAt(a: Inst, r: Re, code: seq<Inst>, o: nat, t: Text, i: nat)
    requires Consumes(a) && Only(a, r) && At(code, o, Gen(r)) && t.Live(i)
    ensures Accepting(code, t, o, i) <==> AllPass(a, t, i, i + Fewest(r))
  {
    hide Gen, Runs, AllPass, Only, Holds;
    OnlyIsPlain(a, r);
    FoundIfFewest(a, r, t, i);
    if Accepting(code, t, o, i) {
      var n: nat :| Accepts(code, t, n, o, i);
      var m, j := RunsSound(r, code, o, t, n, i);
    }
    if RunsFrom(r, t, i) {
      var j: nat :| Runs(r, t, i, j);
      assert Accepts(code, t, 0, o + |Gen(r)|, j);
      var n := RunsComplete(r, code, o, t, 0, i, j);
    }
  }

  lemma AtOn(code: seq<Inst>, o: nat, h: seq<Inst>, g: seq<Inst>)
    requires At(code, o, h + g)
    ensures At(code, o + |h|, g) && Holds(code, o, h)
  {
    HoldsSplit(code, o, h, g);
  }

  lemma ForkAt(code: seq<Inst>, t: Text, o: nat, i: nat)
    requires o < |code| && code[o].op.FORK? && t.Live(i)
    ensures Accepting(code, t, o, i) <==> Accepting(code, t, o + code[o].arg, i) || Accepting(code, t, o + 1, i)
  {
    if Accepting(code, t, o, i) {
      var n: nat :| Accepts(code, t, n, o, i);
      assert Accepts(code, t, n - 1, o + code[o].arg, i) || Accepts(code, t, n - 1, o + 1, i);
    }
    if Accepting(code, t, o + code[o].arg, i) {
      var n: nat :| Accepts(code, t, n, o + code[o].arg, i);
      assert Accepts(code, t, n + 1, o, i);
    }
    if Accepting(code, t, o + 1, i) {
      var n: nat :| Accepts(code, t, n, o + 1, i);
      assert Accepts(code, t, n + 1, o, i);
    }
  }

  lemma GotoAt(code: seq<Inst>, t: Text, o: nat, i: nat)
    requires o < |code| && code[o].op.GOTO?
    ensures Accepting(code, t, o, i) <==> Accepting(code, t, o + code[o].arg, i)
  {
    if Accepting(code, t, o, i) {
      var n: nat :| Accepts(code, t, n, o, i);
      assert Accepts(code, t, n - 1, o + code[o].arg, i);
    }
    if Accepting(code, t, o + code[o].arg, i) {
      var n: nat :| Accepts(code, t, n, o + code[o].arg, i);
      assert Accepts(code, t, n + 1, o, i);
    }
  }

  lemma TestAt(a: Inst, code: seq<Inst>, t: Text, o: nat, i: nat)
    requires Consumes(a) && o < |code| && code[o] == a && t.Live(i)
    ensures Accepting(code, t, o, i) <==> i < |t.s| && Passes(a, t.s[i]) && Accepting(code, t, o + 1, i + 1)
  {
    if Accepting(code, t, o, i) {
      var n: nat :| Accepts(code, t, n, o, i);
      PassAtEnd(a, t, i);
      assert Accepts(code, t, n - 1, o + 1, i + 1);
    }
    if i < |t.s| && Passes(a, t.s[i]) && Accepting(code, t, o + 1, i + 1) {
      var n: nat :| Accepts(code, t, n, o + 1, i + 1);
      assert Accepts(code, t, n + 1, o, i);
    }
  }

  // FORKs can be passed without a jump.
  lemma {:induction false} Through(code: seq<Inst>, t: Text, o: nat, e: nat, i: nat)
    requires o <= e < |code| && t.Live(i) && code[e].op.ACCEPT? && forall k :: o <= k < e ==> code[k].op.FORK?
    ensures Accepting(code, t, o, i)
    decreases e - o
  {
    if o == e {
      assert Accepts(code, t, 0, o, i);
    } else {
      Through(code, t, o + 1, e, i);
      ForkAt(code, t, o, i);
    }
  }

  // ----- each first quantifier in turn ------------------------------------------------------------

  function Fewer(n: nat): nat {
    if n == 0 then 0 else n - 1
  }

  // The fewest characters that the code of X with two quantifiers takes.
  function CodeLeast(q1: Quant, q2: Quant): nat {
    match q1
    case QStar => (match q2 case QPlus => 0 case QCount(m, _) => if m == 0 then 1 else m - 1 case _ => 1)
    case QPlus => 1
    case QOpt => Fewer(Least(q2))
    case QCount(m, _) => if m == 0 then Fewer(Least(q2)) else 1 + Least(q2) * (m - 1)
  }

  lemma Shorter(a: Inst, t: Text, i: nat, m: nat, n: nat)
    requires IsTest(a.op) && m <= n && AllPass(a, t, i, i + n)
    ensures AllPass(a, t, i, i + m)
  {
  }

  lemma ExpandFront(r: Re, m: nat, n: nat)
    requires 0 < m <= n
    ensures Gen(Expand(r, m, n)) == Gen(r) + Gen(Expand(r, m - 1, n - 1))
  {
  }

  lemma OptionFront(r: Re, n: nat)
    requires n > 0
    ensures Gen(Expand(r, 0, n)) == [Inst(FORK, |Gen(r)| + 1)] + (Gen(r) + Gen(Expand(r, 0, n - 1)))
  {
    assert Expand(r, 0, n) == Cat(Opt(r), Expand(r, 0, n - 1));
    assert Gen(Expand(r, 0, n)) == [Inst(FORK, |Gen(r)| + 1)] + Gen(r) + Gen(Expand(r, 0, n - 1));
  }

  // X{m,n} with m > 0: the second quantifier misses the first copy.
  lemma AfterCount(a: Inst, m: nat, n: nat, q2: Quant, code: seq<Inst>, o: nat, t: Text, i: nat)
    requires Consumes(a) && 0 < m <= n && QuantOk(q2) && At(code, o, Twice(a, QCount(m, n), q2)) && t.Live(i)
    ensures Accepting(code, t, o, i) <==> AllPass(a, t, i, i + 1 + Least(q2) * (m - 1))
  {
    hide Accepting, Gen, AllPass, Holds, QuantCode;
    var x, y := Test(a), Expand(Test(a), m - 1, n - 1);
    OnlyExpanded(a, x, m - 1, n - 1);
    OnlyQuantified(a, q2, y);
    GenQuantify(QCount(m, n), x);
    GenQuantify(q2, y);
    ExpandFront(x, m, n);
    GenTest(a);
    GenCat(x, Quantify(q2, y));
    assert ([a] + Gen(y))[..1] == [a] && ([a] + Gen(y))[1..] == Gen(y);
    PlainAt(a, Cat(x, Quantify(q2, y)), code, o, t, i);
  }

  lemma GenTest(a: Inst)
    ensures Gen(Test(a)) == [a]
  {
  }

  // X*: the jump over the body is into what the second quantifier makes of X+.
  lemma AfterStar(a: Inst, q2: Quant, code: seq<Inst>, o: nat, t: Text, i: nat)
    requires Consumes(a) && QuantOk(q2) && At(code, o, Twice(a, QStar, q2)) && t.Live(i)
    ensures Accepting(code, t, o, i) <==> AllPass(a, t, i, i + CodeLeast(QStar, q2))
  {
    hide Accepting, Gen, AllPass, Holds, QuantCode, Only, Expand;
    var p := Plus(Test(a));
    PlusOfTest(a);
    GenQuantify(q2, p);
    StarTwice(a, q2);
    AtOn(code, o, [Inst(GOTO, 2)], Gen(Quantify(q2, p)));
    HoldsOne(code, o, Inst(GOTO, 2));
    GotoAt(code, t, o, i);
    match q2
    case QStar =>
      StarFront(p);
      AtOn(code, o + 1, [Inst(GOTO, |Gen(p)| + 1)], Gen(Plus(p)));
      PlainAt(a, Plus(p), code, o + 2, t, i);
    case QPlus =>
      assert Gen(Quantify(q2, p)) == [a, Inst(FORK, -1), Inst(FORK, -2)] by { PlusPlus(a); }
      HoldsForks(code, o + 1, a);
      Through(code, t, o + 2, o + 4, i);
      NonePass(a, t, i);
    case QOpt =>
      OptFront(p);
      AtOn(code, o + 1, [Inst(FORK, |Gen(p)| + 1)], Gen(p));
      PlainAt(a, p, code, o + 2, t, i);
    case QCount(m, n) =>
      if m == 0 {
        OptionFront(p, n);
        AtOn(code, o + 1, [Inst(FORK, |Gen(p)| + 1)], Gen(p) + Gen(Expand(p, 0, n - 1)));
        OnlyExpanded(a, p, 0, n - 1);
        OnlyCat(a, p, Expand(p, 0, n - 1));
        GenCat(p, Expand(p, 0, n - 1));
        PlainAt(a, Cat(p, Expand(p, 0, n - 1)), code, o + 2, t, i);
      } else {
        StarCounted(a, m, n, code, o, t, i);
      }
  }

  lemma PlusOfTest(a: Inst)
    requires Consumes(a)
    ensures Only(a, Plus(Test(a))) && Only(a, Plus(Plus(Test(a)))) && Gen(Plus(Test(a))) == [a, Inst(FORK, -1)]
    ensures Fewest(Plus(Test(a))) == 1 && Fewest(Plus(Plus(Test(a)))) == 1
  {
  }

  lemma StarTwice(a: Inst, q2: Quant)
    requires QuantOk(q2)
    ensures Twice(a, QStar, q2) == [Inst(GOTO, 2)] + QuantCode(q2, [a, Inst(FORK, -1)])
  {
    var c := QuantCode(QStar, [a]);
    assert c == [Inst(GOTO, 2), a, Inst(FORK, -1)];
    assert c[..1] == [Inst(GOTO, 2)] && c[1..] == [a, Inst(FORK, -1)];
  }

  lemma StarFront(r: Re)
    ensures Gen(Quantify(QStar, r)) == [Inst(GOTO, |Gen(r)| + 1)] + Gen(Plus(r))
  {
    GenOne(r);
    hide Gen;
    ThreeParts([Inst(GOTO, |Gen(r)| + 1)], Gen(r), [Inst(FORK, -|Gen(r)|)]);
  }

  lemma GenOne(r: Re)
    ensures Gen(Star(r)) == StarCode(Gen(r)) && Gen(Plus(r)) == PlusCode(Gen(r)) && Gen(Opt(r)) == OptCode(Gen(r))
  {
  }

  lemma ThreeParts(x: seq<Inst>, y: seq<Inst>, z: seq<Inst>)
    ensures x + y + z == x + (y + z)
  {
  }

  lemma OptFront(r: Re)
    ensures Gen(Quantify(QOpt, r)) == [Inst(FORK, |Gen(r)| + 1)] + Gen(r)
  {
  }

  lemma PlusPlus(a: Inst)
    ensures Gen(Plus(Plus(Test(a)))) == [a, Inst(FORK, -1), Inst(FORK, -2)]
  {
    var g := [a, Inst(FORK, -1)];
    assert |g| == 2 && Gen(Plus(Test(a))) == g;
    assert PlusCode(g) == g + [Inst(FORK, -2)];
    GenOne(Plus(Test(a)));
  }

  lemma HoldsForks(code: seq<Inst>, o: nat, a: Inst)
    requires At(code, o, [a, Inst(FORK, -1), Inst(FORK, -2)])
    ensures code[o + 1].op.FORK? && code[o + 2].op.FORK? && code[o + 3].op.ACCEPT?
  {
    var g := code[o..o + 3];
    assert g[1] == code[o + 1] && g[2] == code[o + 2];
  }

  lemma NonePass(a: Inst, t: Text, i: nat)
    requires IsTest(a.op) && t.Live(i)
    ensures AllPass(a, t, i, i)
  {
  }

  // X*{m,n} with m > 0: the first of the m copies of X+ is entered behind its X.
  lemma StarCounted(a: Inst, m: nat, n: nat, code: seq<Inst>, o: nat, t: Text, i: nat)
    requires Consumes(a) && 0 < m <= n && t.Live(i) && At(code, o + 1, Gen(Expand(Plus(Test(a)), m, n)))
    ensures Accepting(code, t, o + 2, i) <==> AllPass(a, t, i, i + m - 1)
  {
    hide Accepting, Gen, Holds, Only, Expand;
    var p := Plus(Test(a));
    PlusOfTest(a);
    ExpandFront(p, m, n);
    OnlyExpanded(a, p, m, n);
    OnlyExpanded(a, p, m - 1, n - 1);
    PlainAt(a, Expand(p, m, n), code, o + 1, t, i);
    AtOn(code, o + 1, Gen(p), Gen(Expand(p, m - 1, n - 1)));
    PlainAt(a, Expand(p, m - 1, n - 1), code, o + 3, t, i);
    HoldsTwo(code, o + 1, a, Inst(FORK, -1));
    ForkAt(code, t, o + 2, i);
    if AllPass(a, t, i, i + m) {
      Shorter(a, t, i, m - 1, m);
    }
  }

  // X?, and X{0,n}, which is it with further X? behind: the jump over the first X is into
  // what the second quantifier makes of X and what is behind.
  lemma AfterOption(a: Inst, n: nat, q2: Quant, code: seq<Inst>, o: nat, t: Text, i: nat)
    requires Consumes(a) && n > 0 && QuantOk(q2) && At(code, o, Twice(a, QCount(0, n), q2)) && t.Live(i)
    ensures Accepting(code, t, o, i) <==> AllPass(a, t, i, i + Fewer(Least(q2)))
  {
    hide Accepting, Gen, Holds, QuantCode, Only, Expand, AllPass;
    var x := Test(a);
    var r := Expand(x, 0, n - 1);
    var y := Cat(x, r);
    OnlyTest(a);
    OnlyExpanded(a, x, 0, n - 1);
    OnlyCat(a, x, r);
    OnlyQuantified(a, q2, y);
    OptionTwice(a, n, q2);
    AtOn(code, o, [Inst(FORK, 2)], Gen(Quantify(q2, y)));
    HoldsOne(code, o, Inst(FORK, 2));
    ForkAt(code, t, o, i);
    PlainAt(a, Quantify(q2, y), code, o + 1, t, i);
    NonePass(a, t, i);
    match q2
    case QPlus =>
      OptionPlus(a, r, code, o + 1, t, i);
    case QCount(k, l) =>
      if k > 0 {
        OptionCounted(a, r, k, l, code, o + 1, t, i);
        if AllPass(a, t, i, i + k) {
          Shorter(a, t, i, k - 1, k);
        }
      }
    case _ =>
  }

  lemma OnlyTest(a: Inst)
    ensures Only(a, Test(a)) && Fewest(Test(a)) == 1
  {
  }

  lemma OnlyCat(a: Inst, x: Re, y: Re)
    requires Only(a, x) && Only(a, y)
    ensures Only(a, Cat(x, y)) && Fewest(Cat(x, y)) == Fewest(x) + Fewest(y)
  {
  }

  lemma OptionTwice(a: Inst, n: nat, q2: Quant)
    requires n > 0 && QuantOk(q2)
    ensures Twice(a, QCount(0, n), q2) == [Inst(FORK, 2)] + Gen(Quantify(q2, Cat(Test(a), Expand(Test(a), 0, n - 1))))
  {
    hide Gen, QuantCode, Expand;
    var x := Test(a);
    var y := Cat(x, Expand(x, 0, n - 1));
    GenTest(a);
    GenQuantify(QCount(0, n), x);
    GenQuantify(q2, y);
    OptionFront(x, n);
    GenCat(x, Expand(x, 0, n - 1));
    var c := QuantCode(QCount(0, n), [a]);
    assert c == [Inst(FORK, 2)] + Gen(y);
    assert c[..1] == [Inst(FORK, 2)] && c[1..] == Gen(y);
  }

  // Behind its first X, X(...)+ can be left at once.
  lemma OptionPlus(a: Inst, r: Re, code: seq<Inst>, o: nat, t: Text, i: nat)
    requires Consumes(a) && Only(a, r) && Fewest(r) == 0 && t.Live(i) && At(code, o, Gen(Plus(Cat(Test(a), r))))
    ensures Accepting(code, t, o + 1, i)
  {
    hide Gen, Holds, Only, Runs;
    var g := [a] + Gen(r);
    assert Gen(Plus(Cat(Test(a), r))) == [a] + (Gen(r) + [Inst(FORK, -|g|)]) by { PlusCat(a, r); }
    AtOn(code, o, [a], Gen(r) + [Inst(FORK, -|g|)]);
    AtOn(code, o + 1, Gen(r), [Inst(FORK, -|g|)]);
    HoldsOne(code, o + 1 + |Gen(r)|, Inst(FORK, -|g|));
    Through(code, t, o + 1 + |Gen(r)|, o + 2 + |Gen(r)|, i);
    var m: nat :| Accepts(code, t, m, o + 1 + |Gen(r)|, i);
    OnlyIsPlain(a, r);
    FewestRuns(a, r, t, i);
    var n := RunsComplete(r, code, o + 1, t, m, i, i);
  }

  lemma PlusCat(a: Inst, r: Re)
    ensures Gen(Plus(Cat(Test(a), r))) == [a] + (Gen(r) + [Inst(FORK, -|[a] + Gen(r)|)])
  {
    GenOne(Cat(Test(a), r));
    GenCat(Test(a), r);
    GenTest(a);
    hide Gen;
    ThreeParts([a], Gen(r), [Inst(FORK, -|[a] + Gen(r)|)]);
  }

  lemma OptionCounted(a: Inst, r: Re, k: nat, l: nat, code: seq<Inst>, o: nat, t: Text, i: nat)
    requires Consumes(a) && Only(a, r) && Fewest(r) == 0 && 0 < k <= l && t.Live(i) && At(code, o, Gen(Expand(Cat(Test(a), r), k, l)))
    ensures Accepting(code, t, o + 1, i) <==> AllPass(a, t, i, i + k - 1)
  {
    hide Accepting, Gen, Holds, AllPass, Only, Expand;
    var y, z := Cat(Test(a), r), Expand(Cat(Test(a), r), k - 1, l - 1);
    OnlyTest(a);
    OnlyCat(a, Test(a), r);
    OnlyExpanded(a, y, k - 1, l - 1);
    OnlyCat(a, r, z);
    ExpandFront(y, k, l);
    GenCat(Test(a), r);
    GenTest(a);
    GenCat(r, z);
    assert ([a] + Gen(r)) + Gen(z) == [a] + (Gen(r) + Gen(z));
    AtOn(code, o, [a], Gen(r) + Gen(z));
    PlainAt(a, Cat(r, z), code, o + 1, t, i);
  }

  // X+: the second quantifier only gets the FORK that closes the loop.
  lemma AfterPlus(a: Inst, q2: Quant, code: seq<Inst>, o: nat, t: Text, i: nat)
    requires Consumes(a) && QuantOk(q2) && At(code, o, Twice(a, QPlus, q2)) && t.Live(i)
    ensures Accepting(code, t, o, i) <==> AllPass(a, t, i, i + 1)
  {
    hide Accepting, QuantCode, Holds;
    var f := [Inst(FORK, -1)];
    PlusTwice(a, q2);
    var g := QuantCode(q2, f);
    AtOn(code, o, [a], g);
    HoldsOne(code, o, a);
    TestAt(a, code, t, o, i);
    if i < |t.s| {
      if q2.QStar? {
        StarOfFork(code, o + 1);
        Through(code, t, o + 3, o + 4, i + 1);
        GotoAt(code, t, o + 1, i + 1);
      } else {
        ForksOfFork(q2, f);
        ForksThere(code, o + 1, g);
        Through(code, t, o + 1, o + 1 + |g|, i + 1);
      }
    }
  }

  lemma PlusTwice(a: Inst, q2: Quant)
    requires QuantOk(q2)
    ensures Twice(a, QPlus, q2) == [a] + QuantCode(q2, [Inst(FORK, -1)])
  {
    var c := QuantCode(QPlus, [a]);
    assert c == [a, Inst(FORK, -1)];
    assert c[..1] == [a] && c[1..] == [Inst(FORK, -1)];
  }

  lemma StarOfFork(code: seq<Inst>, o: nat)
    requires At(code, o, QuantCode(QStar, [Inst(FORK, -1)]))
    ensures o + 3 < |code| && code[o] == Inst(GOTO, 2) && code[o + 2].op.FORK? && code[o + 3].op.ACCEPT?
  {
    var g := QuantCode(QStar, [Inst(FORK, -1)]);
    assert g == [Inst(GOTO, 2), Inst(FORK, -1), Inst(FORK, -1)];
    assert code[o] == code[o..o + 3][0] && code[o + 2] == code[o..o + 3][2];
  }

  predicate Forks(g: seq<Inst>) {
    forall k :: 0 <= k < |g| ==> g[k].op.FORK?
  }

  lemma {:induction false} ManyForks(g: seq<Inst>, n: nat)
    requires Forks(g)
    ensures Forks(Copies(g, n)) && Forks(Options(g, n))
  {
    if n > 0 {
      ManyForks(g, n - 1);
    }
  }

  lemma ForksOfFork(q: Quant, g: seq<Inst>)
    requires QuantOk(q) && !q.QStar? && Forks(g)
    ensures Forks(QuantCode(q, g))
  {
    if q.QCount? {
      ManyForks(g, q.m);
      ManyForks(g, q.n - q.m);
    }
  }

  lemma ForksThere(code: seq<Inst>, o: nat, g: seq<Inst>)
    requires At(code, o, g) && Forks(g)
    ensures forall k :: o <= k < o + |g| ==> code[k].op.FORK?
  {
    forall k | o <= k < o + |g|
      ensures code[k].op.FORK?
    {
      assert code[k] == code[o..o + |g|][k - o];
    }
  }

  // All together: the code is accepted exactly if that many characters pass.
  lemma TwiceTakes(a: Inst, q1: Quant, q2: Quant, code: seq<Inst>, o: nat, t: Text, i: nat)
    requires Consumes(a) && QuantOk(q1) && QuantOk(q2) && At(code, o, Twice(a, q1, q2)) && t.Live(i)
    ensures Accepting(code, t, o, i) <==> AllPass(a, t, i, i + CodeLeast(q1, q2))
  {
    hide Accepting, AllPass, Holds, Twice;
    match q1
    case QStar => AfterStar(a, q2, code, o, t, i);
    case QPlus => AfterPlus(a, q2, code, o, t, i);
    case QOpt =>
      OptIsCount(a, q2);
      AfterOption(a, 1, q2, code, o, t, i);
    case QCount(m, n) =>
      if m == 0 {
        AfterOption(a, n, q2, code, o, t, i);
      } else {
        AfterCount(a, m, n, q2, code, o, t, i);
      }
  }

  lemma OptIsCount(a: Inst, q2: Quant)
    requires QuantOk(q2)
    ensures Twice(a, QOpt, q2) == Twice(a, QCount(0, 1), q2)
  {
    var g := [a];
    assert Copies(g, 0) == [] && Options(g, 0) == [];
    assert Options(g, 1) == [] + OptCode(g) == OptCode(g);
    assert QuantCode(QOpt, g) == QuantCode(QCount(0, 1), g);
  }
}
