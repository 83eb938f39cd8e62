// The concrete syntax of patterns, as src/regexp.c reads it: a specification of
// the compiler's parser. Patterns are sequences of decoded characters.

module RegexSyntax {
  import opened RegexSpec

  // Ok: a pattern was read up to position i. Bad: the compiler reports an error.
  datatype Parse = Ok(r: Re, i: nat) | Bad

  // What stands before the next character: nothing, an item, or a quantified item, whose
  // code was s instructions long before its last quantifier.
  datatype Last = Nothing | Atom(r: Re) | Quantified(r: Re, s: nat)

  function Pending(l: Last): Re {
    if l.Nothing? then Empty else l.r
  }

  function Peek(p: seq<int>, i: nat): int {
    if i < |p| then p[i] else 0
  }

  // ----- escapes -----------------------------------------------------------------------

  predicate IsHex(c: int) {
    '0' as int <= c <= '9' as int || 'a' as int <= c <= 'f' as int || 'A' as int <= c <= 'F' as int
  }

  function HexValue(c: int): int
    requires IsHex(c)
  {
    if c <= '9' as int then c - '0' as int
    else if c <= 'F' as int then c - 'A' as int + 10
    else c - 'a' as int + 10
  }

  predicate HexAt(p: seq<int>, i: nat, n: nat) {
    i + n <= |p| && forall k :: i <= k < i + n ==> IsHex(p[k])
  }

  // The value of the n hexadecimal digits at i.
  function HexNumber(p: seq<int>, i: nat, n: nat): int
    requires HexAt(p, i, n)
  {
    if n == 0 then 0 else HexNumber(p, i, n - 1) * 16 + HexValue(p[i + n - 1])
  }

  const PUNCTUATION: string := "\\()*.+?[$^{|}]-"

  predicate IsPunctuation(c: int) {
    exists k :: 0 <= k < |PUNCTUATION| && PUNCTUATION[k] as int == c
  }

  datatype Escape = Escape(c: int, i: nat, known: bool)

  // re_esc_char, with position i just past the backslash.
  function EscChar(p: seq<int>, i: nat): (e: Escape)
    requires i <= |p|
    ensures i <= e.i <= |p|
  {
    if i == |p| then Escape(0, i, true)
    else
      var c := p[i];
      if c == 'u' as int && i + 4 < |p| && HexAt(p, i + 1, 4) then Escape(HexNumber(p, i + 1, 4), i + 5, true)
      else if c == 'x' as int && i + 2 < |p| && HexAt(p, i + 1, 2) then Escape(HexNumber(p, i + 1, 2), i + 3, true)
      else if c == 'a' as int then Escape(7, i + 1, true)
      else if c == 'f' as int then Escape(12, i + 1, true)
      else if c == 'n' as int then Escape(10, i + 1, true)
      else if c == 'r' as int then Escape(13, i + 1, true)
      else if c == 't' as int then Escape(9, i + 1, true)
      else if c == 'v' as int then Escape(11, i + 1, true)
      else if IsPunctuation(c) then Escape(c, i + 1, true)
      else Escape(c, i, false)
  }

  function SpecialOp(c: int): Re {
    if c == 'b' as int then Boundary
    else if c == 'd' as int then Test(Inst(DIGIT, 0))
    else if c == 'D' as int then Test(Inst(NOTDIGIT, 0))
    else if c == 's' as int then Test(Inst(SPACE, 0))
    else if c == 'S' as int then Test(Inst(NOTSPACE, 0))
    else if c == 'w' as int then Test(Inst(WORD, 0))
    else if c == 'W' as int then Test(Inst(NOTWORD, 0))
    else Empty
  }

  // ----- character classes ------------------------------------------------------------------

  datatype Members = Members(items: seq<Item>, i: nat) | BadMembers

  // One class member character: a plain character or an escape.
  function MemberChar(p: seq<int>, i: nat): (e: Escape)
    requires i < |p|
    ensures i < e.i <= |p|
  {
    if p[i] == '\\' as int then EscChar(p, i + 1) else Escape(p[i], i + 1, true)
  }

  // The members from position i up to and including the closing bracket.
  function ClassMembers(p: seq<int>, i: nat): (r: Members)
    requires i <= |p|
    ensures r.Members? ==> i < r.i <= |p|
    decreases |p| - i, 0
  {
    if i == |p| || (p[i] == '[' as int && Peek(p, i + 1) == ':' as int) then BadMembers
    else
      var e := MemberChar(p, i);
      if !e.known then BadMembers
      else if Peek(p, e.i) == '-' as int then
        if e.i + 1 == |p| then BadMembers
        else
          var f := MemberChar(p, e.i + 1);
          if !f.known then BadMembers else MoreMembers(p, Range(e.c, f.c), f)
      else MoreMembers(p, Value(e.c), e)
  }

  function MoreMembers(p: seq<int>, item: Item, last: Escape): (r: Members)
    requires last.i <= |p|
    ensures r.Members? ==> last.i < r.i <= |p|
    decreases |p| - last.i, 1
  {
    if Peek(p, last.i) == ']' as int then
      if last.c == 0 then BadMembers else Members([item], last.i + 1)
    else
      var rest := ClassMembers(p, last.i);
      if rest.BadMembers? then BadMembers else Members([item] + rest.items, rest.i)
  }

  function ParseClass(p: seq<int>, i: nat): (r: Parse)
    requires i <= |p|
    ensures r.Ok? ==> i < r.i <= |p|
  {
    var neg := Peek(p, i) == '^' as int;
    var m := ClassMembers(p, if neg then i + 1 else i);
    if m.BadMembers? then Bad else Ok(Class(neg, m.items), m.i)
  }

  // ----- counts -------------------------------------------------------------------------------

  predicate IsDecimal(c: int) {
    '0' as int <= c <= '9' as int
  }

  datatype Number = Number(n: nat, i: nat) | TooBigNumber

  // A decimal number continuing from value v; twice its value may not exceed mx.
  function ParseNumber(p: seq<int>, i: nat, v: nat, mx: nat): (r: Number)
    requires i <= |p|
    ensures r.Number? ==> i <= r.i <= |p|
    decreases |p| - i
  {
    if IsDecimal(Peek(p, i)) then
      var w := v * 10 + p[i] - '0' as int;
      if w * 2 > mx then TooBigNumber else ParseNumber(p, i + 1, w, mx)
    else Number(v, i)
  }

  datatype Count = Count(m: nat, n: nat, i: nat) | BadCount

  // "m}" or "m,n}" from position i on.
  function ParseCount(p: seq<int>, i: nat, mx: nat): (r: Count)
    requires i <= |p|
    ensures r.Count? ==> i < r.i <= |p| && r.m <= r.n && r.n > 0
  {
    var a := ParseNumber(p, i, 0, mx);
    if a.TooBigNumber? then BadCount
    else
      var b := if Peek(p, a.i) == ',' as int then ParseNumber(p, a.i + 1, 0, mx) else a;
      if b.TooBigNumber? || Peek(p, b.i) != '}' as int || b.n < a.n || b.n == 0 then BadCount
      else Count(a.n, b.n, b.i + 1)
  }

  // ----- quantified code --------------------------------------------------------------------

  lemma {:induction false} CopiesFront(g: seq<Inst>, n: nat)
    requires n > 0
    ensures Copies(g, n) == g + Copies(g, n - 1)
  {
    if n > 1 {
      CopiesFront(g, n - 1);
    }
  }

  lemma {:induction false} OptionsFront(g: seq<Inst>, n: nat)
    requires n > 0
    ensures Options(g, n) == OptCode(g) + Options(g, n - 1)
  {
    hide OptCode;
    if n > 1 {
      OptionsFront(g, n - 1);
    }
  }

  lemma NoCopies(g: seq<Inst>)
    ensures Copies(g, 0) == [] && Options(g, 0) == []
  {
  }

  lemma {:induction false} GenExpand(r: Re, m: nat, n: nat)
    requires m <= n
    ensures Gen(Expand(r, m, n)) == Copies(Gen(r), m) + Options(Gen(r), n - m)
    decreases n
  {
    hide OptCode, Copies, Options;
    var g := Gen(r);
    NoCopies(g);
    if m > 0 {
      GenExpand(r, m - 1, n - 1);
      CopiesFront(g, m);
      assert g + Copies(g, m - 1) + Options(g, n - m) == g + (Copies(g, m - 1) + Options(g, n - m));
    } else if n > 0 {
      GenExpand(r, 0, n - 1);
      OptionsFront(g, n);
      assert Expand(r, 0, n) == Cat(Opt(r), Expand(r, 0, n - 1));
      assert [] + Options(g, n - 1) == Options(g, n - 1);
      assert [] + Options(g, n) == Options(g, n);
    }
  }

  lemma GenQuantify(q: Quant, r: Re)
    requires QuantOk(q)
    ensures Gen(Quantify(q, r)) == QuantCode(q, Gen(r))
  {
    if q.QCount? {
      GenExpand(r, q.m, q.n);
    }
  }

  lemma {:induction false} ManyLong(g: seq<Inst>, n: nat)
    ensures |Copies(g, n)| == n * |g| && |Options(g, n)| == n * (|g| + 1)
  {
    if n > 0 {
      ManyLong(g, n - 1);
    }
  }

  // How long the quantified code is.
  function QuantLength(q: Quant, n: nat): nat
    requires QuantOk(q)
  {
    match q
    case QStar => n + 2
    case QPlus => n + 1
    case QOpt => n + 1
    case QCount(m, k) => m * n + (k - m) * (n + 1)
  }

  lemma QuantLengthIs(q: Quant, g: seq<Inst>)
    requires QuantOk(q)
    ensures |QuantCode(q, g)| == QuantLength(q, |g|)
  {
    if q.QCount? {
      ManyLong(g, q.m);
      ManyLong(g, q.n - q.m);
    }
  }

  // Longer code grows more.
  lemma CountLength(m: nat, k: nat, x: nat)
    ensures m * x + k * (x + 1) == (m + k) * x + k
  {
  }

  lemma Spread(n: nat, a: nat, d: nat)
    ensures n * (a + d) == n * a + n * d
  {
  }

  lemma QuantGrows(q: Quant, a: nat, b: nat)
    requires QuantOk(q) && a <= b
    ensures QuantLength(q, a) <= QuantLength(q, b) && QuantLength(q, a) - a <= QuantLength(q, b) - b && QuantLength(q, a) >= a
  {
    if q.QCount? {
      var d, m, k := b - a, q.m, q.n - q.m;
      CountLength(m, k, a);
      CountLength(m, k, b);
      Spread(m + k, a, d);
      Ample(m + k, d);
      Ample(m + k, a);
    }
  }

  lemma Ample(n: nat, x: nat)
    requires n > 0
    ensures n * x >= x
  {
    assert n * x == x + (n - 1) * x;
  }

  // A quantifier never makes code shorter.
  lemma QuantCodeLong(q: Quant, g: seq<Inst>)
    requires QuantOk(q)
    ensures |QuantCode(q, g)| >= |g|
  {
    if q.QCount? {
      ManyLong(g, q.m);
      ManyLong(g, q.n - q.m);
    }
  }

  // ----- patterns --------------------------------------------------------------------------------

  // One atom, with c == p[i] already known not to be a quantifier, '|', '(' or ')'.
  function ParseAtom(p: seq<int>, i: nat): (r: Parse)
    requires i < |p|
    ensures r.Ok? ==> i < r.i <= |p|
  {
    var c := p[i];
    if c == '.' as int then
      if Peek(p, i + 1) == '*' as int then Ok(DotStar, i + 2) else Ok(Test(Inst(ANY, 0)), i + 1)
    else if c == '$' as int then Ok(Test(Inst(MATCH, EOF_CHAR)), i + 1)
    else if c == '^' as int then Ok(AtStart, i + 1)
    else if c == '[' as int then ParseClass(p, i + 1)
    else if c == '\\' as int then
      if SpecialOp(Peek(p, i + 1)) != Empty then Ok(SpecialOp(p[i + 1]), i + 2)
      else
        var e := EscChar(p, i + 1);
        if e.known then Ok(Test(Inst(MATCH, e.c)), e.i) else Bad
    else Ok(Test(Inst(MATCH, c)), i + 1)
  }

  predicate IsQuantifier(c: int) {
    c == '*' as int || c == '+' as int || c == '?' as int || c == '{' as int
  }

  datatype Quantifier = Quantifier(q: Quant, i: nat) | BadQuantifier

  // A quantifier at position i.
  function ParseQuantifier(p: seq<int>, i: nat, mx: nat): (r: Quantifier)
    requires i < |p| && IsQuantifier(p[i])
    ensures r.Quantifier? ==> i < r.i <= |p| && QuantOk(r.q)
  {
    if p[i] == '*' as int then Quantifier(QStar, i + 1)
    else if p[i] == '+' as int then Quantifier(QPlus, i + 1)
    else if p[i] == '?' as int then Quantifier(QOpt, i + 1)
    else
      var c := ParseCount(p, i + 1, mx);
      if c.BadCount? then BadQuantifier else Quantifier(QCount(c.m, c.n), c.i)
  }

  predicate LastOk(l: Last) {
    l.Quantified? ==> l.s <= |Gen(l.r)|
  }

  // The last item with one more quantifier.
  function Again(q: Quant, l: Last): (r: Last)
    requires QuantOk(q) && !l.Nothing? && LastOk(l)
    ensures r.Quantified? && LastOk(r)
  {
    match l
    case Atom(r) =>
      QuantCodeLong(q, Gen(r));
      GenQuantify(q, r);
      Quantified(Quantify(q, r), |Gen(r)|)
    case Quantified(r, s) =>
      QuantCodeLong(q, Gen(r)[s..]);
      Quantified(Stacked(Quantify(q, Meant(r)), Requantified(q, Gen(r), s)), |Gen(r)|)
  }

  function Meant(r: Re): Re {
    if r.Stacked? then r.meant else r
  }

  // A sequence of items up to an unmatched ')' or a '|'.
  function ParseString(p: seq<int>, i: nat, acc: Re, last: Last, mx: nat): (r: Parse)
    requires i <= |p| && LastOk(last)
    ensures r.Ok? ==> i <= r.i <= |p|
    ensures r.Ok? && i < |p| && p[i] != '|' as int && p[i] != ')' as int ==> i < r.i
    decreases |p| - i, 0
  {
    if i == |p| || p[i] == '|' as int || p[i] == ')' as int then Ok(Cat(acc, Pending(last)), i)
    else if IsQuantifier(p[i]) then
      if last.Nothing? then Bad
      else
        var q := ParseQuantifier(p, i, mx);
        if q.BadQuantifier? then Bad else ParseString(p, q.i, acc, Again(q.q, last), mx)
    else
      var a := ParseItem(p, i, mx);
      if !a.Ok? then a else ParseString(p, a.i, Cat(acc, Pending(last)), Atom(a.r), mx)
  }

  // A group or an atom.
  function ParseItem(p: seq<int>, i: nat, mx: nat): (r: Parse)
    requires i < |p|
    ensures r.Ok? ==> i < r.i <= |p|
    decreases |p| - i - 1, 4
  {
    if p[i] == '(' as int then
      var g := ParseRe(p, i + 1, mx);
      if !g.Ok? then g
      else if Peek(p, g.i) != ')' as int then Bad
      else Ok(g.r, g.i + 1)
    else ParseAtom(p, i)
  }

  // Alternatives up to an unmatched ')'.
  function ParseRe(p: seq<int>, i: nat, mx: nat): (r: Parse)
    requires i <= |p|
    ensures r.Ok? ==> i <= r.i <= |p|
    decreases |p| - i, 2
  {
    var a := ParseString(p, i, Empty, Nothing, mx);
    if !a.Ok? then a else ParseAlternatives(p, a.i, a.r, mx)
  }

  function ParseAlternatives(p: seq<int>, i: nat, r: Re, mx: nat): (q: Parse)
    requires i <= |p|
    ensures q.Ok? ==> i <= q.i <= |p|
    decreases |p| - i, 1
  {
    if Peek(p, i) != '|' as int then Ok(r, i)
    else
      var a := ParseString(p, i + 1, Empty, Nothing, mx);
      if !a.Ok? then a else ParseAlternatives(p, a.i, Alt(r, a.r), mx)
  }

  // The whole pattern: an optional leading '^' and a regular expression that uses
  // up the text.
  datatype Pattern = Pattern(anchored: bool, r: Re) | BadPattern

  function ParsePattern(z: seq<int>, mx: nat): (q: Pattern)
  {
    var anchored := Peek(z, 0) == '^' as int;
    var p := if anchored then z[1..] else z;
    var r := ParseRe(p, 0, mx);
    match r
    case Bad => BadPattern
    case Ok(e, i) => if i == |p| then Pattern(anchored, e) else BadPattern
  }
}
