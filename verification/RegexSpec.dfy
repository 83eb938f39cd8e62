// The language of src/regexp.c: what a pattern means, and the NFA program the
// compiler emits for it.

module RegexSpec {

  const EOF_CHAR: int := 0           // RE_EOF
  const START_CHAR: int := 0xfffffff // RE_START

  // The opcodes of the NFA; every instruction carries one integer argument.
  datatype Op =
    | MATCH | ANY | ANYSTAR | FORK | GOTO | ACCEPT
    | CC_INC | CC_EXC | CC_VALUE | CC_RANGE
    | WORD | NOTWORD | DIGIT | NOTDIGIT | SPACE | NOTSPACE
    | BOUNDARY | ATSTART

  datatype Inst = Inst(op: Op, arg: int)

  predicate IsWordChar(c: int) {
    '0' as int <= c <= '9' as int || 'a' as int <= c <= 'z' as int ||
    'A' as int <= c <= 'Z' as int || c == '_' as int
  }

  predicate IsDigitChar(c: int) {
    '0' as int <= c <= '9' as int
  }

  // Space, \t, \n, \v, \f and \r.
  predicate IsSpaceChar(c: int) {
    c == 32 || 9 <= c <= 13
  }

  // The instructions that test and consume exactly one character.
  predicate IsTest(op: Op) {
    op.MATCH? || op.ANY? || op.WORD? || op.NOTWORD? || op.DIGIT? || op.NOTDIGIT? || op.SPACE? || op.NOTSPACE?
  }

  predicate Passes(inst: Inst, c: int)
    requires IsTest(inst.op)
  {
    match inst.op
    case MATCH => inst.arg == c
    case ANY => c != EOF_CHAR
    case WORD => IsWordChar(c)
    case NOTWORD => !IsWordChar(c) && c != EOF_CHAR
    case DIGIT => IsDigitChar(c)
    case NOTDIGIT => !IsDigitChar(c) && c != EOF_CHAR
    case SPACE => IsSpaceChar(c)
    case NOTSPACE => !IsSpaceChar(c) && c != EOF_CHAR
  }

  // One member of a [...] class.
  datatype Item = Value(c: int) | Range(lo: int, hi: int)

  predicate ItemHas(item: Item, c: int) {
    match item
    case Value(v) => v == c
    case Range(lo, hi) => lo <= c <= hi
  }

  predicate ItemsHave(items: seq<Item>, c: int) {
    exists k :: 0 <= k < |items| && ItemHas(items[k], c)
  }

  predicate ClassHas(negated: bool, items: seq<Item>, c: int) {
    if negated then c != EOF_CHAR && !ItemsHave(items, c) else ItemsHave(items, c)
  }

  // Abstract patterns. Test(MATCH, 0) is the pattern '$'; DotStar is '.*'. Stacked is a
  // quantifier on a quantified item: what it should mean, and the code that it gets.
  datatype Re =
    | Empty
    | Test(inst: Inst)
    | DotStar
    | Class(negated: bool, items: seq<Item>)
    | AtStart
    | Boundary
    | Cat(left: Re, right: Re)
    | Alt(left: Re, right: Re)
    | Star(body: Re)
    | Plus(body: Re)
    | Opt(body: Re)
    | Stacked(meant: Re, code: seq<Inst>)

  predicate WellFormed(r: Re) {
    match r
    case Test(inst) => IsTest(inst.op)
    case Cat(a, b) => WellFormed(a) && WellFormed(b)
    case Alt(a, b) => WellFormed(a) && WellFormed(b)
    case Star(a) => WellFormed(a)
    case Plus(a) => WellFormed(a)
    case Opt(a) => WellFormed(a)
    case Stacked(_, _) => false
    case _ => true
  }

  // X{m,n} stands for m copies of X followed by n-m copies of X?.
  function Expand(r: Re, m: nat, n: nat): (e: Re)
    requires m <= n
    ensures WellFormed(r) ==> WellFormed(e)
    decreases n
  {
    if m > 0 then Cat(r, Expand(r, m - 1, n - 1))
    else if n > 0 then Cat(Opt(r), Expand(r, 0, n - 1))
    else Empty
  }

  // A subject text: its characters, and the character taken to stand before
  // the first one. Positions 0..|s| are live; position |s|+1 is reached only by
  // consuming the end-of-input character.
  datatype Text = Text(before: int, s: seq<int>) {
    function Char(k: nat): int {
      if k < |s| then s[k] else EOF_CHAR
    }

    function Previous(k: nat): int
      requires k <= |s|
    {
      if k == 0 then before else s[k - 1]
    }

    predicate Live(k: nat) {
      k <= |s|
    }

    predicate AtBoundary(k: nat)
      requires k <= |s|
    {
      IsWordChar(Char(k)) != IsWordChar(Previous(k))
    }
  }

  // ----- textbook meaning ---------------------------------------------------

  // r matches s[i..j]; '$' is an assertion that holds at the end of the text.
  ghost predicate Denotes(r: Re, t: Text, i: nat, j: nat)
    decreases r, 0
  {
    i <= j <= |t.s| &&
    match r
    case Empty => i == j
    case Test(inst) =>
      if inst == Inst(MATCH, EOF_CHAR) then i == j == |t.s|
      else IsTest(inst.op) && j == i + 1 && Passes(inst, t.s[i])
    case DotStar => true
    case Class(neg, items) => j == i + 1 && ClassHas(neg, items, t.s[i])
    case AtStart => i == j && t.Previous(i) == START_CHAR
    case Boundary => i == j && t.AtBoundary(i)
    case Cat(a, b) => exists k: nat :: i <= k <= j && Denotes(a, t, i, k) && Denotes(b, t, k, j)
    case Alt(a, b) => Denotes(a, t, i, j) || Denotes(b, t, i, j)
    case Star(a) => exists n: nat :: DenotesTimes(a, n, t, i, j)
    case Plus(a) => exists n: nat :: n > 0 && DenotesTimes(a, n, t, i, j)
    case Opt(a) => i == j || Denotes(a, t, i, j)
    case Stacked(a, _) => Denotes(a, t, i, j)
  }

  // s[i..j] is n consecutive matches of r.
  ghost predicate DenotesTimes(r: Re, n: nat, t: Text, i: nat, j: nat)
    decreases r, n + 1
  {
    i <= j <= |t.s| &&
    if n == 0 then i == j
    else exists k: nat :: i <= k <= j && Denotes(r, t, i, k) && DenotesTimes(r, n - 1, t, k, j)
  }

  lemma CatJoin(a: Re, b: Re, t: Text, i: nat, k: nat, j: nat)
    requires Denotes(a, t, i, k) && Denotes(b, t, k, j)
    ensures Denotes(Cat(a, b), t, i, j)
  {
  }

  lemma {:induction false} ExpandSound(r: Re, m: nat, n: nat, t: Text, i: nat, j: nat) returns (k: nat)
    requires m <= n && Denotes(Expand(r, m, n), t, i, j)
    ensures m <= k <= n && DenotesTimes(r, k, t, i, j)
    decreases n
  {
    if m > 0 {
      var p: nat :| i <= p <= j && Denotes(r, t, i, p) && Denotes(Expand(r, m - 1, n - 1), t, p, j);
      k := ExpandSound(r, m - 1, n - 1, t, p, j);
      k := k + 1;
    } else if n > 0 {
      assert Denotes(Cat(Opt(r), Expand(r, 0, n - 1)), t, i, j);
      var p: nat :| i <= p <= j && Denotes(Opt(r), t, i, p) && Denotes(Expand(r, 0, n - 1), t, p, j);
      k := ExpandSound(r, 0, n - 1, t, p, j);
      if !Denotes(r, t, i, p) {
        return;
      }
      k := k + 1;
    } else {
      k := 0;
    }
  }

  lemma {:induction false} ExpandComplete(r: Re, m: nat, n: nat, k: nat, t: Text, i: nat, j: nat)
    requires m <= k <= n && DenotesTimes(r, k, t, i, j)
    ensures Denotes(Expand(r, m, n), t, i, j)
    decreases n
  {
    if k > 0 {
      var p: nat :| i <= p <= j && Denotes(r, t, i, p) && DenotesTimes(r, k - 1, t, p, j);
      var m' := if m > 0 then m - 1 else 0;
      ExpandComplete(r, m', n - 1, k - 1, t, p, j);
      CatJoin(if m > 0 then r else Opt(r), Expand(r, m', n - 1), t, i, p, j);
    } else if n > 0 {
      ExpandComplete(r, 0, n - 1, 0, t, i, j);
      CatJoin(Opt(r), Expand(r, 0, n - 1), t, i, i, j);
    }
  }

  ghost predicate DenotesBetween(r: Re, m: nat, n: nat, t: Text, i: nat, j: nat) {
    exists k: nat :: m <= k <= n && DenotesTimes(r, k, t, i, j)
  }

  // X{m,n} means between m and n matches of X.
  lemma ExpandMeans(r: Re, m: nat, n: nat, t: Text, i: nat, j: nat)
    requires m <= n
    ensures Denotes(Expand(r, m, n), t, i, j) <==> DenotesBetween(r, m, n, t, i, j)
  {
    if Denotes(Expand(r, m, n), t, i, j) {
      var k := ExpandSound(r, m, n, t, i, j);
    }
    if DenotesBetween(r, m, n, t, i, j) {
      var k: nat :| m <= k <= n && DenotesTimes(r, k, t, i, j);
      ExpandComplete(r, m, n, k, t, i, j);
    }
  }

  // ----- meaning as the matcher sees it ----------------------------------------

  // For all patterns without a stacked quantifier: '$' consumes the end-of-input character and leads to the position after it,
  // where only GOTO and ACCEPT are still followed. Everything that starts
  // or ends with another instruction is dead there.
  ghost predicate Runs(r: Re, t: Text, i: nat, j: nat)
    decreases r, 0
  {
    match r
    case Empty => i == j
    case Test(inst) => t.Live(i) && j == i + 1 && IsTest(inst.op) && Passes(inst, t.Char(i))
    case DotStar => i <= j && t.Live(j)
    case Class(neg, items) => t.Live(i) && j == i + 1 && ClassHas(neg, items, t.Char(i))
    case AtStart => t.Live(i) && i == j && t.Previous(i) == START_CHAR
    case Boundary => t.Live(i) && i == j && t.AtBoundary(i)
    case Cat(a, b) => exists k: nat :: Runs(a, t, i, k) && Runs(b, t, k, j)
    case Alt(a, b) => t.Live(i) && (Runs(a, t, i, j) || Runs(b, t, i, j))
    case Star(a) => exists n: nat :: RunsTimes(a, n, t, i, j)
    case Plus(a) => exists k: nat, n: nat :: Runs(a, t, i, k) && RunsTimes(a, n, t, k, j)
    case Opt(a) => t.Live(i) && (i == j || Runs(a, t, i, j))
    case Stacked(_, _) => false
  }

  // n iterations from one visit of the loop's FORK to its exit.
  ghost predicate RunsTimes(r: Re, n: nat, t: Text, i: nat, j: nat)
    decreases r, n + 1
  {
    t.Live(i) &&
    if n == 0 then i == j
    else exists k: nat :: Runs(r, t, i, k) && RunsTimes(r, n - 1, t, k, j)
  }

  // ----- the program of a pattern ------------------------------------------------

  function GenItems(items: seq<Item>): seq<Inst> {
    if items == [] then []
    else (match items[0]
          case Value(c) => [Inst(CC_VALUE, c)]
          case Range(lo, hi) => [Inst(CC_RANGE, lo), Inst(CC_RANGE, hi)]) + GenItems(items[1..])
  }

  function ClassCode(negated: bool, items: seq<Item>): seq<Inst> {
    [Inst(if negated then CC_EXC else CC_INC, |GenItems(items)| + 1)] + GenItems(items)
  }

  function AltCode(g: seq<Inst>, h: seq<Inst>): seq<Inst> {
    [Inst(FORK, |g| + 2)] + g + [Inst(GOTO, |h| + 1)] + h
  }

  function StarCode(g: seq<Inst>): seq<Inst> {
    [Inst(GOTO, |g| + 1)] + g + [Inst(FORK, -|g|)]
  }

  function PlusCode(g: seq<Inst>): seq<Inst> {
    g + [Inst(FORK, -|g|)]
  }

  function OptCode(g: seq<Inst>): seq<Inst> {
    [Inst(FORK, |g| + 1)] + g
  }

  function Gen(r: Re): seq<Inst> {
    match r
    case Empty => []
    case Test(inst) => [inst]
    case DotStar => [Inst(ANYSTAR, 0)]
    case Class(neg, items) => ClassCode(neg, items)
    case AtStart => [Inst(ATSTART, 0)]
    case Boundary => [Inst(BOUNDARY, 0)]
    case Cat(a, b) => Gen(a) + Gen(b)
    case Alt(a, b) => AltCode(Gen(a), Gen(b))
    case Star(a) => StarCode(Gen(a))
    case Plus(a) => PlusCode(Gen(a))
    case Opt(a) => OptCode(Gen(a))
    case Stacked(_, code) => code
  }

  // ----- quantifiers -----------------------------------------------------------------

  datatype Quant = QStar | QPlus | QOpt | QCount(m: nat, n: nat)

  predicate QuantOk(q: Quant) {
    q.QCount? ==> q.m <= q.n && q.n > 0
  }

  function Quantify(q: Quant, r: Re): (e: Re)
    requires QuantOk(q)
    ensures WellFormed(r) ==> WellFormed(e)
  {
    match q
    case QStar => Star(r)
    case QPlus => Plus(r)
    case QOpt => Opt(r)
    case QCount(m, n) => Expand(r, m, n)
  }

  function Copies(g: seq<Inst>, n: nat): seq<Inst> {
    if n == 0 then [] else Copies(g, n - 1) + g
  }

  function Options(g: seq<Inst>, n: nat): seq<Inst> {
    if n == 0 then [] else Options(g, n - 1) + OptCode(g)
  }

  // What a quantifier makes of the instructions g.
  function QuantCode(q: Quant, g: seq<Inst>): seq<Inst>
    requires QuantOk(q)
  {
    match q
    case QStar => StarCode(g)
    case QPlus => PlusCode(g)
    case QOpt => OptCode(g)
    case QCount(m, n) => Copies(g, m) + Options(g, n - m)
  }

  // What it makes of the code c of a quantified item: it is applied to the instructions
  // from index s on, where s is how long the code was before the last quantifier.
  function Requantified(q: Quant, c: seq<Inst>, s: nat): seq<Inst>
    requires QuantOk(q) && s <= |c|
  {
    c[..s] + QuantCode(q, c[s..])
  }
}
