// A quantifier on a quantified character: for which pairs regexp() reads the second one as it
// should.

module RegexPairs {
  import opened RegexSpec
  import opened RegexMachine
  import opened RegexMeaning
  import opened RegexSyntax
  import opened RegexCompile
  import opened RegexPrefix
  import opened RegexStacked
  import opened Regexp

  // The pairs of quantifiers for which the second is read right behind the first.
  predicate Agrees(q1: Quant, q2: Quant) {
    match q1
    case QStar => q2.QPlus? || (q2.QCount? && q2.m == 1)
    case QPlus => q2.QPlus? || (q2.QCount? && q2.m == 1)
    case QOpt => q2.QCount? ==> q2.m <= 1
    case QCount(m, _) => if m == 0 then q2.QCount? ==> q2.m <= 1 else q2.QPlus? || (q2.QCount? && q2.m == 1)
  }

  lemma AgreesMeans(q1: Quant, q2: Quant)
    ensures Agrees(q1, q2) <==> CodeLeast(q1, q2) == Least(q2) * Least(q1)
  {
    if q1.QCount? && q1.m > 0 {
      TimesLess(Least(q2), q1.m);
    }
  }

  lemma TimesLess(l: nat, m: nat)
    requires m > 0
    ensures 1 + l * (m - 1) == l * m <==> l == 1
  {
    assert l * m == l + l * (m - 1);
  }

  // The character a with both quantifiers and nothing else, as it is parsed.
  function StackedRe(a: Inst, q1: Quant, q2: Quant): Re
    requires QuantOk(q1) && QuantOk(q2)
  {
    Cat(Cat(Empty, Empty), Again(q2, Again(q1, Atom(Test(a)))).r)
  }

  lemma StackedIs(a: Inst, q1: Quant, q2: Quant)
    requires QuantOk(q1) && QuantOk(q2)
    ensures Again(q2, Again(q1, Atom(Test(a)))).r == Stacked(Quantify(q2, Quantify(q1, Test(a))), Twice(a, q1, q2))
    ensures Gen(StackedRe(a, q1, q2)) == Twice(a, q1, q2)
  {
    GenQuantify(q1, Test(a));
    GenTest(a);
    hide Gen, QuantCode;
    var s := Again(q2, Again(q1, Atom(Test(a)))).r;
    GenStacked(s);
  }

  lemma GenStacked(s: Re)
    requires s.Stacked?
    ensures Gen(Cat(Cat(Empty, Empty), s)) == s.code
  {
    assert Gen(Cat(Empty, Empty)) == [];
    assert [] + s.code == s.code;
  }

  lemma StackedDenotes(a: Inst, q1: Quant, q2: Quant, t: Text, i: nat)
    requires Consumes(a) && QuantOk(q1) && QuantOk(q2) && NoNul(t.s) && t.Live(i)
    ensures DenotesFrom(StackedRe(a, q1, q2), t, i) <==> AllPass(a, t, i, i + Least(q2) * Least(q1))
  {
    hide AllPass, Quantify, Only, Runs, EndLast, NoEnd;
    var r := Quantify(q2, Quantify(q1, Test(a)));
    OnlyTest(a);
    OnlyQuantified(a, q1, Test(a));
    OnlyQuantified(a, q2, Quantify(q1, Test(a)));
    OnlyIsPlain(a, r);
    PlainIsLast(r);
    EndLastMeaning(r, t, i);
    FoundIfFewest(a, r, t, i);
    StackedIs(a, q1, q2);
    if DenotesFrom(r, t, i) {
      var j: nat :| Denotes(r, t, i, j);
      Wrapped(Stacked(r, Twice(a, q1, q2)), t, i, j);
    }
    if DenotesFrom(StackedRe(a, q1, q2), t, i) {
      var j: nat :| Denotes(StackedRe(a, q1, q2), t, i, j);
      Wrapped(Stacked(r, Twice(a, q1, q2)), t, i, j);
    }
  }

  lemma PlainIsLast(r: Re)
    requires NoEnd(r)
    ensures EndLast(r)
  {
    match r
    case Cat(a, b) => PlainIsLast(b);
    case Alt(a, b) =>
      PlainIsLast(a);
      PlainIsLast(b);
    case Opt(a) => PlainIsLast(a);
    case _ =>
  }

  lemma CatParts(a: Re, b: Re, t: Text, i: nat, j: nat) returns (k: nat)
    requires Denotes(Cat(a, b), t, i, j)
    ensures i <= k <= j && Denotes(a, t, i, k) && Denotes(b, t, k, j)
  {
    k :| i <= k <= j && Denotes(a, t, i, k) && Denotes(b, t, k, j);
  }

  lemma Wrapped(s: Re, t: Text, i: nat, j: nat)
    requires s.Stacked?
    ensures Denotes(Cat(Cat(Empty, Empty), s), t, i, j) <==> Denotes(s.meant, t, i, j)
  {
    if Denotes(Cat(Cat(Empty, Empty), s), t, i, j) {
      var k := CatParts(Cat(Empty, Empty), s, t, i, j);
    }
    if Denotes(s.meant, t, i, j) {
      assert Denotes(Empty, t, i, i);
      assert Denotes(Cat(Empty, Empty), t, i, i);
    }
  }

  // n characters from i on pass, and the pattern may start there.
  predicate PassAt(anchored: bool, a: Inst, t: Text, i: nat, n: nat)
    requires IsTest(a.op)
  {
    (if anchored then i == 0 else i <= |t.s|) && AllPass(a, t, i, i + n)
  }

  ghost predicate Somewhere(anchored: bool, a: Inst, t: Text, n: nat)
    requires IsTest(a.op)
  {
    exists i: nat :: PassAt(anchored, a, t, i, n)
  }

  // What the program of such a pattern accepts.
  ghost predicate AcceptsText(anchored: bool, r: Re, s: seq<int>) {
    Accepting(Program(PatternRe(anchored, r)), Text(START_CHAR, s), 0, 0)
  }

  lemma StackedAccepts(a: Inst, q1: Quant, q2: Quant, anchored: bool, s: seq<int>)
    requires Consumes(a) && QuantOk(q1) && QuantOk(q2)
    ensures AcceptsText(anchored, StackedRe(a, q1, q2), s) <==>
            Somewhere(anchored, a, Text(START_CHAR, s), CodeLeast(q1, q2))
  {
    hide AllPass, Twice, Accepting, Gen, CodeLeast;
    var t, g := Text(START_CHAR, s), Twice(a, q1, q2);
    var code := Program(PatternRe(anchored, StackedRe(a, q1, q2)));
    StackedIs(a, q1, q2);
    if anchored {
      ProgramAt([], g);
      assert [] + g == g;
      TwiceTakes(a, q1, q2, code, 0, t, 0);
      assert Accepting(code, t, 0, 0) ==> PassAt(true, a, t, 0, CodeLeast(q1, q2));
    } else {
      GenCat(DotStar, StackedRe(a, q1, q2));
      GenDotStar();
      ProgramAt([Inst(ANYSTAR, 0)], g);
      if Accepting(code, t, 0, 0) {
        var i := LeaveStart(code, t);
        TwiceTakes(a, q1, q2, code, 1, t, i);
        assert PassAt(false, a, t, i, CodeLeast(q1, q2));
      }
      if i: nat :| PassAt(false, a, t, i, CodeLeast(q1, q2)) {
        TwiceTakes(a, q1, q2, code, 1, t, i);
        ReachByAnyStar(code, t, 0, i);
      }
    }
  }

  lemma LeaveStart(code: seq<Inst>, t: Text) returns (i: nat)
    requires 0 < |code| && code[0].op.ANYSTAR? && Accepting(code, t, 0, 0)
    ensures i <= |t.s| && Accepting(code, t, 1, i)
  {
    var n: nat :| Accepts(code, t, n, 0, 0);
    i := LeaveAnyStar(code, t, n, 0);
  }

  lemma ProgramAt(h: seq<Inst>, g: seq<Inst>)
    ensures At(h + g + [Inst(ACCEPT, 0)], |h|, g)
  {
  }

  lemma StackedFound(a: Inst, q1: Quant, q2: Quant, anchored: bool, s: seq<int>)
    requires Consumes(a) && QuantOk(q1) && QuantOk(q2) && NoNul(s)
    ensures Found(anchored, StackedRe(a, q1, q2), s) <==>
            Somewhere(anchored, a, Text(START_CHAR, s), Least(q2) * Least(q1))
  {
    hide AllPass, DenotesFrom, Again;
    var t, n := Text(START_CHAR, s), Least(q2) * Least(q1);
    if Found(anchored, StackedRe(a, q1, q2), s) {
      var i: nat :| (if anchored then i == 0 else i <= |s|) && DenotesFrom(StackedRe(a, q1, q2), t, i);
      StackedDenotes(a, q1, q2, t, i);
      assert PassAt(anchored, a, t, i, n);
    }
    if i: nat :| PassAt(anchored, a, t, i, n) {
      StackedDenotes(a, q1, q2, t, i);
    }
  }

  ghost predicate ReadRight(anchored: bool, r: Re) {
    forall s :: NoNul(s) ==> (AcceptsText(anchored, r, s) <==> Found(anchored, r, s))
  }

  // For a character with two quantifiers, with or without '^', the answer is right on every
  // text exactly if the pair of quantifiers agrees.
  lemma StackedPairs(a: Inst, c: int, q1: Quant, q2: Quant, anchored: bool)
    requires Consumes(a) && QuantOk(q1) && QuantOk(q2) && c != EOF_CHAR && Passes(a, c)
    ensures ReadRight(anchored, StackedRe(a, q1, q2)) <==> Agrees(q1, q2)
  {
    hide AcceptsText, Found, AllPass, Again, CodeLeast, Agrees;
    var r, k, n := StackedRe(a, q1, q2), CodeLeast(q1, q2), Least(q2) * Least(q1);
    AgreesMeans(q1, q2);
    if k == n {
      forall s | NoNul(s)
        ensures AcceptsText(anchored, r, s) <==> Found(anchored, r, s)
      {
        StackedAccepts(a, q1, q2, anchored, s);
        StackedFound(a, q1, q2, anchored, s);
      }
    } else {
      var l := if k < n then k else n;
      var s := seq(l, _ => c);
      StackedAccepts(a, q1, q2, anchored, s);
      StackedFound(a, q1, q2, anchored, s);
      ExactlyLong(anchored, a, c, l, k);
      ExactlyLong(anchored, a, c, l, n);
      assert NoNul(s) && !(AcceptsText(anchored, r, s) <==> Found(anchored, r, s));
    }
  }

  // In l times the character there are n of them in a row exactly if n is at most l.
  lemma ExactlyLong(anchored: bool, a: Inst, c: int, l: nat, n: nat)
    requires Consumes(a) && c != EOF_CHAR && Passes(a, c)
    ensures NoNul(seq(l, _ => c)) && Somewhere(anchored, a, Text(START_CHAR, seq(l, _ => c)), n) <==> n <= l
  {
    var t := Text(START_CHAR, seq(l, _ => c));
    if n <= l {
      assert PassAt(anchored, a, t, 0, n);
    }
  }

  // The quantifier that a character stands for.
  predicate QuantChar(k: int, q: Quant) {
    (k == '*' as int && q == QStar) || (k == '+' as int && q == QPlus) || (k == '?' as int && q == QOpt)
  }

  // A pattern like "^a**" or "^a?*" is parsed like that.
  lemma StackedParsed(c: int, k1: int, q1: Quant, k2: int, q2: Quant, mx: nat)
    requires IsPlain(c) && QuantChar(k1, q1) && QuantChar(k2, q2)
    ensures ParsePattern(['^' as int, c, k1, k2], mx) == Pattern(true, StackedRe(Inst(MATCH, c), q1, q2))
  {
    var z, p := ['^' as int, c, k1, k2], [c, k1, k2];
    assert z[1..] == p;
    var e, l := Cat(Empty, Empty), Atom(Test(Inst(MATCH, c)));
    hide Again, Gen;
    assert ParseString(p, 3, e, Again(q2, Again(q1, l)), mx) == Ok(Cat(e, Again(q2, Again(q1, l)).r), 3);
    assert ParseQuantifier(p, 2, mx) == Quantifier(q2, 3);
    assert ParseString(p, 2, e, Again(q1, l), mx) == Ok(StackedRe(Inst(MATCH, c), q1, q2), 3);
    assert ParseQuantifier(p, 1, mx) == Quantifier(q1, 2);
    assert ParseString(p, 1, e, l, mx) == Ok(StackedRe(Inst(MATCH, c), q1, q2), 3);
    assert ParseItem(p, 0, mx) == Ok(Test(Inst(MATCH, c)), 1);
    assert ParseString(p, 0, Empty, Nothing, mx) == Ok(StackedRe(Inst(MATCH, c), q1, q2), 3);
    assert ParseRe(p, 0, mx) == Ok(StackedRe(Inst(MATCH, c), q1, q2), 3);
  }

  // A character that stands for itself.
  predicate IsPlain(c: int) {
    c != EOF_CHAR && !IsQuantifier(c) && c != '.' as int && c != '$' as int && c != '^' as int && c != '[' as int &&
    c != '\\' as int && c != '(' as int && c != ')' as int && c != '|' as int
  }

  // "^a**" is not found in the empty text; "^a?*" is always read right.
  lemma StarStarMisses(mx: nat)
    ensures var q := ParsePattern(['^' as int, 'a' as int, '*' as int, '*' as int], mx);
            q.Pattern? && !AcceptsText(q.anchored, q.r, []) && Found(q.anchored, q.r, [])
    ensures var q := ParsePattern(['^' as int, 'a' as int, '?' as int, '*' as int], mx);
            q.Pattern? && ReadRight(q.anchored, q.r)
  {
    hide AcceptsText, Found, Again, Agrees, ParsePattern, ReadRight;
    var a := Inst(MATCH, 'a' as int);
    StackedParsed('a' as int, '*' as int, QStar, '*' as int, QStar, mx);
    StackedAccepts(a, QStar, QStar, true, []);
    StackedFound(a, QStar, QStar, true, []);
    NonePass(a, Text(START_CHAR, []), 0);
    assert PassAt(true, a, Text(START_CHAR, []), 0, 0);
    StackedParsed('a' as int, '?' as int, QOpt, '*' as int, QStar, mx);
    StackedPairs(a, 'a' as int, QOpt, QStar, true);
    OptStarAgrees();
  }

  lemma OptStarAgrees()
    ensures Agrees(QOpt, QStar)
  {
  }
}
