// Where the matcher's reading of a pattern and the textbook one agree.

module RegexMeaning {
  import opened RegexSpec
  import opened RegexMachine

  predicate NoNul(s: seq<int>) {
    forall k :: 0 <= k < |s| ==> s[k] != EOF_CHAR
  }

  // The pattern never consumes the end of the input.
  predicate NoEnd(r: Re) {
    match r
    case Test(inst) => inst != Inst(MATCH, EOF_CHAR)
    case Class(neg, items) => !ClassHas(neg, items, EOF_CHAR)
    case Cat(a, b) => NoEnd(a) && NoEnd(b)
    case Alt(a, b) => NoEnd(a) && NoEnd(b)
    case Star(a) => NoEnd(a)
    case Plus(a) => NoEnd(a)
    case Opt(a) => NoEnd(a)
    case _ => true
  }

  // '$' stands only where nothing but the end of the pattern follows.
  predicate EndLast(r: Re) {
    match r
    case Test(inst) => true
    case Cat(a, b) => NoEnd(a) && EndLast(b)
    case Alt(a, b) => EndLast(a) && EndLast(b)
    case Opt(a) => EndLast(a)
    case _ => NoEnd(r)
  }

  lemma {:induction false} NoEndRun(r: Re, t: Text, i: nat, j: nat)
    requires WellFormed(r) && NoEnd(r) && NoNul(t.s) && i <= |t.s| && Runs(r, t, i, j)
    ensures Denotes(r, t, i, j)
    decreases r, 0
  {
    match r
    case Cat(a, b) =>
      var k: nat :| Runs(a, t, i, k) && Runs(b, t, k, j);
      NoEndRun(a, t, i, k);
      NoEndRun(b, t, k, j);
    case Alt(a, b) =>
      if Runs(a, t, i, j) { NoEndRun(a, t, i, j); } else { NoEndRun(b, t, i, j); }
    case Star(a) =>
      var n: nat :| RunsTimes(a, n, t, i, j);
      NoEndRuns(a, n, t, i, j);
    case Plus(a) =>
      var k: nat, n: nat :| Runs(a, t, i, k) && RunsTimes(a, n, t, k, j);
      NoEndRun(a, t, i, k);
      NoEndRuns(a, n, t, k, j);
      assert DenotesTimes(a, n + 1, t, i, j);
    case Opt(a) =>
      if i != j { NoEndRun(a, t, i, j); }
    case _ =>
  }

  lemma {:induction false} NoEndRuns(a: Re, n: nat, t: Text, i: nat, j: nat)
    requires WellFormed(a) && NoEnd(a) && NoNul(t.s) && i <= |t.s| && RunsTimes(a, n, t, i, j)
    ensures DenotesTimes(a, n, t, i, j)
    decreases a, n + 1
  {
    if n > 0 {
      var k: nat :| Runs(a, t, i, k) && RunsTimes(a, n - 1, t, k, j);
      NoEndRun(a, t, i, k);
      NoEndRuns(a, n - 1, t, k, j);
    }
  }

  lemma {:induction false} NoEndMatch(r: Re, t: Text, i: nat, j: nat)
    requires WellFormed(r) && NoEnd(r) && NoNul(t.s) && Denotes(r, t, i, j)
    ensures Runs(r, t, i, j)
    decreases r, 0
  {
    match r
    case Cat(a, b) =>
      var k: nat :| i <= k <= j && Denotes(a, t, i, k) && Denotes(b, t, k, j);
      NoEndMatch(a, t, i, k);
      NoEndMatch(b, t, k, j);
    case Alt(a, b) =>
      if Denotes(a, t, i, j) { NoEndMatch(a, t, i, j); } else { NoEndMatch(b, t, i, j); }
    case Star(a) =>
      var n: nat :| DenotesTimes(a, n, t, i, j);
      NoEndMatches(a, n, t, i, j);
    case Plus(a) =>
      var n: nat :| n > 0 && DenotesTimes(a, n, t, i, j);
      NoEndMatches(a, n, t, i, j);
      PlusOfTimes(a, n, t, i, j);
    case Opt(a) =>
      if i != j { NoEndMatch(a, t, i, j); }
    case _ =>
  }

  lemma PlusOfTimes(a: Re, n: nat, t: Text, i: nat, j: nat)
    requires n > 0 && RunsTimes(a, n, t, i, j)
    ensures Runs(Plus(a), t, i, j)
  {
    var k: nat :| Runs(a, t, i, k) && RunsTimes(a, n - 1, t, k, j);
  }

  lemma {:induction false} NoEndMatches(a: Re, n: nat, t: Text, i: nat, j: nat)
    requires WellFormed(a) && NoEnd(a) && NoNul(t.s) && DenotesTimes(a, n, t, i, j)
    ensures RunsTimes(a, n, t, i, j)
    decreases a, n + 1
  {
    if n > 0 {
      var k: nat :| i <= k <= j && Denotes(a, t, i, k) && DenotesTimes(a, n - 1, t, k, j);
      NoEndMatch(a, t, i, k);
      NoEndMatches(a, n - 1, t, k, j);
    }
  }

  // With '$' in last place, a run that consumes the end of the input is a
  // textbook match that ends there.
  ghost predicate EndsAs(r: Re, t: Text, i: nat, j: nat) {
    Runs(r, t, i, j) && if j <= |t.s| then Denotes(r, t, i, j) else j == |t.s| + 1 && Denotes(r, t, i, |t.s|)
  }

  lemma {:induction false} RunIsMatch(r: Re, t: Text, i: nat, j: nat)
    requires WellFormed(r) && EndLast(r) && NoNul(t.s) && i <= |t.s| && Runs(r, t, i, j)
    ensures EndsAs(r, t, i, j)
  {
    match r
    case Cat(a, b) =>
      var k: nat :| Runs(a, t, i, k) && Runs(b, t, k, j);
      NoEndRun(a, t, i, k);
      RunIsMatch(b, t, k, j);
    case Alt(a, b) =>
      if Runs(a, t, i, j) { RunIsMatch(a, t, i, j); } else { RunIsMatch(b, t, i, j); }
    case Opt(a) =>
      if i != j { RunIsMatch(a, t, i, j); }
    case Test(inst) =>
    case _ => NoEndRun(r, t, i, j);
  }

  lemma {:induction false} MatchIsRun(r: Re, t: Text, i: nat, j: nat) returns (k: nat)
    requires WellFormed(r) && EndLast(r) && NoNul(t.s) && Denotes(r, t, i, j)
    ensures Runs(r, t, i, k) && (k == j || k == j + 1 == |t.s| + 1)
  {
    k := j;
    match r
    case Cat(a, b) =>
      var m: nat :| i <= m <= j && Denotes(a, t, i, m) && Denotes(b, t, m, j);
      NoEndMatch(a, t, i, m);
      k := MatchIsRun(b, t, m, j);
    case Alt(a, b) =>
      if Denotes(a, t, i, j) { k := MatchIsRun(a, t, i, j); } else { k := MatchIsRun(b, t, i, j); }
    case Opt(a) =>
      if i != j { k := MatchIsRun(a, t, i, j); }
    case Test(inst) =>
      if inst == Inst(MATCH, EOF_CHAR) { k := j + 1; }
    case _ => NoEndMatch(r, t, i, j);
  }

  ghost predicate DenotesFrom(r: Re, t: Text, i: nat) {
    exists j: nat :: Denotes(r, t, i, j)
  }

  // The matcher's reading is the textbook one whenever '$' is last.
  lemma EndLastMeaning(r: Re, t: Text, i: nat)
    requires WellFormed(r) && EndLast(r) && NoNul(t.s) && i <= |t.s|
    ensures RunsFrom(r, t, i) <==> DenotesFrom(r, t, i)
  {
    if RunsFrom(r, t, i) {
      var j: nat :| Runs(r, t, i, j);
      RunIsMatch(r, t, i, j);
    }
    if DenotesFrom(r, t, i) {
      var j: nat :| Denotes(r, t, i, j);
      var k := MatchIsRun(r, t, i, j);
    }
  }

  const END: Re := Test(Inst(MATCH, EOF_CHAR))

  lemma EndIsConsumed(a: Re, t: Text, i: nat, k: nat)
    requires NoNul(t.s) && Runs(Cat(a, END), t, i, k)
    ensures k == |t.s| + 1
  {
    var m: nat :| Runs(a, t, i, m) && Runs(END, t, m, k);
  }

  lemma FirstIteration(b: Re, t: Text, i: nat, j: nat) returns (k: nat)
    requires Runs(Plus(b), t, i, j)
    ensures Runs(b, t, i, k) && t.Live(k)
  {
    var p: nat, n: nat :| Runs(b, t, i, p) && RunsTimes(b, n, t, p, j);
    k := p;
  }

  // One shape outside the restriction: (X$)+ is never found by the code, although it
  // matches wherever X matches up to the end of the text.
  lemma EndUnderPlusMisses(a: Re, t: Text, i: nat)
    requires NoNul(t.s)
    ensures !RunsFrom(Plus(Cat(a, END)), t, i)
    ensures Denotes(a, t, i, |t.s|) ==> DenotesFrom(Plus(Cat(a, END)), t, i)
  {
    forall j: nat ensures !Runs(Plus(Cat(a, END)), t, i, j) {
      if Runs(Plus(Cat(a, END)), t, i, j) {
        var k := FirstIteration(Cat(a, END), t, i, j);
        EndIsConsumed(a, t, i, k);
      }
    }
    if Denotes(a, t, i, |t.s|) {
      var n := |t.s|;
      assert Denotes(END, t, n, n);
      assert Denotes(Cat(a, END), t, i, n);
      assert DenotesTimes(Cat(a, END), 0, t, n, n);
      assert DenotesTimes(Cat(a, END), 1, t, i, n);
      assert Denotes(Plus(Cat(a, END)), t, i, n);
    }
  }
}
