// Patterns as they are written, and what they say: the characters of every construct and the
// texts it stands for are spelled out here, apart from the tables of the compiler, and the
// parser is proved to read each pattern as it is meant.

module RegexSurface {
  import opened RegexSpec
  import opened RegexMachine
  import opened RegexMeaning
  import opened RegexSyntax
  import opened RegexCompile
  import opened RegexPrefix
  import opened Regexp
  import opened Utf8
  import opened Ints

  // ----- the written form --------------------------------------------------------------

  // A character: as it is, behind a backslash, by the letter of a control character, or by
  // two or four hexadecimal digits.
  datatype Letter = Plain(c: int) | Quoted(mark: int) | Named(name: char) | Hex(digits: seq<nat>)

  datatype Member = One(l: Letter) | Span(l: Letter, h: Letter)

  // "*", "+", "?", "{m}" and "{m,n}", the numbers in decimal digits.
  datatype Times = Any | Some | Maybe | Exactly(m: seq<nat>) | Between(m: seq<nat>, n: seq<nat>)

  datatype Syntax =
    | Blank
    | Char(l: Letter)
    | Kind(c: char)
    | Edge
    | Dot
    | Rest
    | Start
    | End
    | Set(negated: bool, members: seq<Member>)
    | Group(body: Syntax)
    | Repeated(item: Syntax, times: Times)
    | Sequence(left: Syntax, right: Syntax)
    | Either(left: Syntax, right: Syntax)

  const GLYPHS: string := "0123456789abcdefABCDEF"
  predicate Mark(c: int) {
    c == '$' as int || c == '(' as int || c == ')' as int || c == '*' as int || c == '+' as int || c == '-' as int ||
    c == '.' as int || c == '?' as int || c == '[' as int || c == '\\' as int || c == ']' as int || c == '^' as int ||
    c == '{' as int || c == '|' as int || c == '}' as int
  }

  function Codes(s: string): (r: seq<int>)
    ensures |r| == |s| && forall k :: 0 <= k < |s| ==> r[k] == s[k] as int
  {
    seq(|s|, k requires 0 <= k < |s| => s[k] as int)
  }

  predicate Sayable(l: Letter) {
    match l
    case Plain(c) => c != 0
    case Quoted(c) => Mark(c)
    case Named(c) => c in "afnrtv"
    case Hex(ds) => (|ds| == 2 || |ds| == 4) && forall k :: 0 <= k < |ds| ==> ds[k] < 22
  }

  function Glyph(d: nat): int {
    if d < 22 then GLYPHS[d] as int else 0
  }

  function Digits(ds: seq<nat>): (r: seq<int>)
    ensures |r| == |ds| && forall k :: 0 <= k < |ds| ==> r[k] == Glyph(ds[k])
  {
    seq(|ds|, k requires 0 <= k < |ds| => Glyph(ds[k]))
  }

  function Spelled(l: Letter): seq<int>
    requires Sayable(l)
  {
    match l
    case Plain(c) => [c]
    case Quoted(c) => ['\\' as int, c]
    case Named(c) => ['\\' as int, c as int]
    case Hex(ds) => ['\\' as int, if |ds| == 2 then 'x' as int else 'u' as int] + Digits(ds)
  }

  function HexDigit(d: nat): nat {
    if d < 16 then d else d - 6
  }

  function Stands(l: Letter): int
    requires Sayable(l)
  {
    match l
    case Plain(c) => c
    case Quoted(c) => c
    case Named(c) =>
      if c == 'a' then 7 else if c == 't' then 9 else if c == 'n' then 10
      else if c == 'v' then 11 else if c == 'f' then 12 else 13
    case Hex(ds) =>
      if |ds| == 2 then 16 * HexDigit(ds[0]) + HexDigit(ds[1])
      else 4096 * HexDigit(ds[0]) + 256 * HexDigit(ds[1]) + 16 * HexDigit(ds[2]) + HexDigit(ds[3])
  }

  predicate Numeral(ds: seq<nat>) {
    forall k :: 0 <= k < |ds| ==> ds[k] < 10
  }

  function Decimal(ds: seq<nat>): nat {
    if ds == [] then 0 else 10 * Decimal(ds[..|ds| - 1]) + ds[|ds| - 1]
  }

  // The least and the greatest number of times.
  function Least(q: Times): nat {
    match q
    case Any => 0
    case Some => 1
    case Maybe => 0
    case Exactly(m) => Decimal(m)
    case Between(m, _) => Decimal(m)
  }

  predicate Within(q: Times, n: nat) {
    Least(q) <= n &&
    match q
    case Any => true
    case Some => true
    case Maybe => n <= 1
    case Exactly(m) => n <= Decimal(m)
    case Between(_, m) => n <= Decimal(m)
  }

  // A count may be at most half the limit on the program, and there must be room for one.
  predicate Countable(q: Times, mx: nat) {
    match q
    case Exactly(m) => Numeral(m) && 0 < Decimal(m) && 2 * Decimal(m) <= mx
    case Between(m, n) => Numeral(m) && Numeral(n) && Decimal(m) <= Decimal(n) && 0 < Decimal(n) && 2 * Decimal(n) <= mx
    case _ => true
  }

  function TimesWritten(q: Times): seq<int>
  {
    match q
    case Any => Codes("*")
    case Some => Codes("+")
    case Maybe => Codes("?")
    case Exactly(m) => Codes("{") + Digits(m) + Codes("}")
    case Between(m, n) => Codes("{") + Digits(m) + Codes(",") + Digits(n) + Codes("}")
  }

  // A plain character has no other meaning where it stands.
  predicate Ordinary(l: Letter) {
    Sayable(l) && (l.Plain? && Mark(l.c) ==> l.c == '-' as int || l.c == ']' as int || l.c == '}' as int)
  }

  predicate OrdinaryMember(l: Letter) {
    Sayable(l) && (l.Plain? ==> l.c != '\\' as int)
  }

  function FirstChar(l: Letter): int {
    if l.Plain? then l.c else '\\' as int
  }

  function LastLetter(m: Member): Letter {
    if m.One? then m.l else m.h
  }

  // No member is taken for the end of the class, for a range with the one before it, or for the
  // colon of a form that is not supported.
  predicate Spaced(m: Member, next: Letter) {
    FirstChar(next) != ']' as int && (m.One? ==> FirstChar(next) != '-' as int) && (m == One(Plain('[' as int)) ==> FirstChar(next) != ':' as int)
  }

  predicate Listed(ms: seq<Member>) {
    (forall k :: 0 <= k < |ms| ==> OrdinaryMember(ms[k].l) && OrdinaryMember(LastLetter(ms[k]))) &&
    forall k :: 0 <= k < |ms| - 1 ==> Spaced(ms[k], ms[k + 1].l)
  }

  predicate IsItem(x: Syntax) {
    !x.Blank? && !x.Repeated? && !x.Sequence? && !x.Either?
  }

  // Where the form needs parentheses they are there; ".*" is written as Rest.
  predicate Proper(x: Syntax, mx: nat) {
    match x
    case Char(l) => Ordinary(l)
    case Kind(c) => c in "dDsSwW"
    case Set(neg, ms) => ms != [] && Listed(ms) && Stands(LastLetter(ms[|ms| - 1])) != 0 && (neg || FirstChar(ms[0].l) != '^' as int)
    case Group(y) => Proper(y, mx)
    case Repeated(y, q) => IsItem(y) && Proper(y, mx) && Countable(q, mx) && !(y.Dot? && q.Any?)
    case Sequence(a, b) => !a.Either? && !b.Either? && Proper(a, mx) && Proper(b, mx)
    case Either(a, b) => !b.Either? && Proper(a, mx) && Proper(b, mx)
    case _ => true
  }

  function MemberWritten(m: Member): seq<int>
    requires Sayable(m.l) && Sayable(LastLetter(m))
  {
    if m.One? then Spelled(m.l) else Spelled(m.l) + Codes("-") + Spelled(m.h)
  }

  function MembersWritten(ms: seq<Member>): seq<int>
    requires Listed(ms)
  {
    if ms == [] then [] else MemberWritten(ms[0]) + MembersWritten(ms[1..])
  }

  function Written(x: Syntax, mx: nat): seq<int>
    requires Proper(x, mx)
  {
    match x
    case Blank => []
    case Char(l) => Spelled(l)
    case Kind(c) => ['\\' as int, c as int]
    case Edge => Codes("\\b")
    case Dot => Codes(".")
    case Rest => Codes(".*")
    case Start => Codes("^")
    case End => Codes("$")
    case Set(neg, ms) => (if neg then Codes("[^") else Codes("[")) + MembersWritten(ms) + Codes("]")
    case Group(y) => Codes("(") + Written(y, mx) + Codes(")")
    case Repeated(y, q) => Written(y, mx) + TimesWritten(q)
    case Sequence(a, b) => Written(a, mx) + Written(b, mx)
    case Either(a, b) => Written(a, mx) + Codes("|") + Written(b, mx)
  }

  // ----- what it says ---------------------------------------------------------------------

  predicate WordLetter(c: int) {
    48 <= c <= 57 || 65 <= c <= 90 || c == 95 || 97 <= c <= 122
  }

  predicate OfKind(k: char, c: int) {
    if k == 'd' then 48 <= c <= 57
    else if k == 'D' then c != 0 && !(48 <= c <= 57)
    else if k == 's' then c == 32 || 9 <= c <= 13
    else if k == 'S' then c != 0 && c != 32 && !(9 <= c <= 13)
    else if k == 'w' then WordLetter(c)
    else c != 0 && !WordLetter(c)
  }

  predicate MemberHas(m: Member, c: int)
    requires Sayable(m.l) && Sayable(LastLetter(m))
  {
    Stands(m.l) <= c <= Stands(LastLetter(m))
  }

  // The part of the text from i to j is one of those that x stands for. A character written
  // as zero stands for the end of the text.
  ghost predicate Means(x: Syntax, mx: nat, t: Text, i: nat, j: nat)
    requires Proper(x, mx)
    decreases x, 0
  {
    i <= j <= |t.s| &&
    match x
    case Blank => i == j
    case Char(l) => if Stands(l) == 0 then i == j == |t.s| else j == i + 1 && t.s[i] == Stands(l)
    case Kind(c) => j == i + 1 && OfKind(c, t.s[i])
    case Edge =>
      i == j && (WordLetter(if i == 0 then t.before else t.s[i - 1]) <==> !(i < |t.s| && WordLetter(t.s[i])))
    case Dot => j == i + 1 && t.s[i] != 0
    case Rest => true
    case Start => i == j && (if i == 0 then t.before else t.s[i - 1]) == START_CHAR
    case End => i == j == |t.s|
    case Set(neg, ms) =>
      j == i + 1 && (neg ==> t.s[i] != 0) && (neg <==> forall k :: 0 <= k < |ms| ==> !MemberHas(ms[k], t.s[i]))
    case Group(y) => Means(y, mx, t, i, j)
    case Repeated(y, q) => exists n: nat :: Within(q, n) && MeansTimes(y, mx, n, t, i, j)
    case Sequence(a, b) => exists k: nat :: i <= k <= j && Means(a, mx, t, i, k) && Means(b, mx, t, k, j)
    case Either(a, b) => Means(a, mx, t, i, j) || Means(b, mx, t, i, j)
  }

  // n of them one behind the other.
  ghost predicate MeansTimes(x: Syntax, mx: nat, n: nat, t: Text, i: nat, j: nat)
    requires Proper(x, mx)
    decreases x, n + 1
  {
    i <= j <= |t.s| &&
    if n == 0 then i == j
    else exists k: nat :: i <= k <= j && Means(x, mx, t, i, k) && MeansTimes(x, mx, n - 1, t, k, j)
  }

  // ----- the expression that it is read as ----------------------------------------------

  function Item(m: Member): RegexSpec.Item
    requires Sayable(m.l) && Sayable(LastLetter(m))
  {
    if m.One? then Value(Stands(m.l)) else Range(Stands(m.l), Stands(m.h))
  }

  function Items(ms: seq<Member>): (r: seq<RegexSpec.Item>)
    requires Listed(ms)
    ensures |r| == |ms| && forall k :: 0 <= k < |ms| ==> r[k] == Item(ms[k])
  {
    if ms == [] then [] else [Item(ms[0])] + Items(ms[1..])
  }

  function QuantOf(q: Times): Quant {
    match q
    case Any => QStar
    case Some => QPlus
    case Maybe => QOpt
    case Exactly(m) => QCount(Decimal(m), Decimal(m))
    case Between(m, n) => QCount(Decimal(m), Decimal(n))
  }

  function ItemRe(x: Syntax, mx: nat): Re
    requires Proper(x, mx) && IsItem(x)
    decreases x, 0
  {
    match x
    case Char(l) => Test(Inst(MATCH, Stands(l)))
    case Kind(c) =>
      Test(Inst(if c == 'd' then DIGIT else if c == 'D' then NOTDIGIT else if c == 's' then SPACE
                else if c == 'S' then NOTSPACE else if c == 'w' then WORD else NOTWORD, 0))
    case Edge => Boundary
    case Dot => Test(Inst(ANY, 0))
    case Rest => DotStar
    case Start => AtStart
    case End => Test(Inst(MATCH, EOF_CHAR))
    case Set(neg, ms) => Class(neg, Items(ms))
    case Group(y) => WholeRe(y, mx)
  }

  // What the parser has gathered: the items before the last one, and the last one.
  datatype State = State(acc: Re, last: Last)

  predicate StateOk(s: State) {
    LastOk(s.last)
  }

  function Gathered(s: State): Re {
    Cat(s.acc, Pending(s.last))
  }

  function After(x: Syntax, mx: nat, s: State): (r: State)
    requires Proper(x, mx) && !x.Either? && StateOk(s)
    ensures StateOk(r)
    decreases x, 1
  {
    if x.Blank? then s
    else if x.Repeated? then State(Gathered(s), Again(QuantOf(x.times), Atom(ItemRe(x.item, mx))))
    else if x.Sequence? then After(x.right, mx, After(x.left, mx, s))
    else State(Gathered(s), Atom(ItemRe(x, mx)))
  }

  function WholeRe(x: Syntax, mx: nat): Re
    requires Proper(x, mx)
    decreases x, 3
  {
    if x.Either? then Alt(WholeRe(x.left, mx), StringRe(x.right, mx)) else StringRe(x, mx)
  }

  function StringRe(x: Syntax, mx: nat): Re
    requires Proper(x, mx) && !x.Either?
    decreases x, 2
  {
    Gathered(After(x, mx, State(Empty, Nothing)))
  }

  // ----- reading characters --------------------------------------------------------------

  predicate At(p: seq<int>, i: nat, w: seq<int>) {
    i + |w| <= |p| && p[i..i + |w|] == w
  }

  lemma AtParts(p: seq<int>, i: nat, a: seq<int>, b: seq<int>)
    ensures At(p, i, a + b) <==> At(p, i, a) && At(p, i + |a|, b)
  {
    var j, k := i + |a|, i + |a + b|;
    if k <= |p| {
      assert p[i..k] == p[i..j] + p[j..k];
      if p[i..k] == a + b {
        assert p[i..j] == (a + b)[..|a|] && p[j..k] == (a + b)[|a|..];
      }
    }
  }

  lemma AtFirst(p: seq<int>, i: nat, w: seq<int>)
    requires At(p, i, w) && w != []
    ensures i < |p| && p[i] == w[0]
    ensures |w| > 1 ==> i + 1 < |p| && p[i + 1] == w[1]
  {
    assert p[i] == p[i..i + |w|][0];
    assert |w| > 1 ==> p[i + 1] == p[i..i + |w|][1];
  }

  lemma GlyphIs(d: nat)
    requires d < 22
    ensures IsHex(Glyph(d)) && HexValue(Glyph(d)) == HexDigit(d)
    ensures d < 10 ==> Glyph(d) == 48 + d
  {
  }

  lemma HexRead(p: seq<int>, i: nat, ds: seq<nat>)
    requires (|ds| == 2 || |ds| == 4) && (forall k :: 0 <= k < |ds| ==> ds[k] < 22) && At(p, i, Digits(ds))
    ensures HexAt(p, i, |ds|) && HexNumber(p, i, |ds|) == Stands(Hex(ds))
  {
    hide IsHex, HexValue, Glyph, HexDigit;
    forall k | i <= k < i + |ds| ensures IsHex(p[k]) && HexValue(p[k]) == HexDigit(ds[k - i]) {
      assert p[k] == p[i..i + |ds|][k - i];
      GlyphIs(ds[k - i]);
    }
    assert HexNumber(p, i, 0) == 0;
    assert HexNumber(p, i, 1) == HexDigit(ds[0]);
    assert HexNumber(p, i, 2) == HexNumber(p, i, 1) * 16 + HexDigit(ds[1]);
    if |ds| == 4 {
      assert HexNumber(p, i, 3) == HexNumber(p, i, 2) * 16 + HexDigit(ds[2]);
      assert HexNumber(p, i, 4) == HexNumber(p, i, 3) * 16 + HexDigit(ds[3]);
    }
  }

  lemma MarksKnown(c: int)
    ensures Mark(c) <==> IsPunctuation(c)
  {
    var p := PUNCTUATION;
    assert p[0] == '\\' && p[1] == '(' && p[2] == ')' && p[3] == '*' && p[4] == '.' && p[5] == '+' && p[6] == '?' && p[7] == '[';
    assert p[8] == '$' && p[9] == '^' && p[10] == '{' && p[11] == '|' && p[12] == '}' && p[13] == ']' && p[14] == '-';
    if IsPunctuation(c) {
      var k :| 0 <= k < |PUNCTUATION| && PUNCTUATION[k] as int == c;
    }
  }

  // A character behind a backslash is read as what it stands for.
  lemma EscapeRead(l: Letter, p: seq<int>, i: nat)
    requires Sayable(l) && !l.Plain? && At(p, i, Spelled(l))
    ensures p[i] == '\\' as int && SpecialOp(p[i + 1]) == Empty
    ensures EscChar(p, i + 1) == Escape(Stands(l), i + |Spelled(l)|, true)
  {
    hide IsPunctuation, HexNumber, HexAt;
    var w := Spelled(l);
    AtFirst(p, i, w);
    match l
    case Quoted(c) => MarksKnown(c);
    case Named(c) =>
    case Hex(ds) =>
      AtParts(p, i, w[..2], Digits(ds));
      assert w == w[..2] + Digits(ds);
      HexRead(p, i + 2, ds);
  }

  lemma MemberRead(l: Letter, p: seq<int>, i: nat)
    requires OrdinaryMember(l) && At(p, i, Spelled(l))
    ensures MemberChar(p, i) == Escape(Stands(l), i + |Spelled(l)|, true) && |Spelled(l)| > 0
    ensures p[i] == FirstChar(l) && (l.Plain? ==> |Spelled(l)| == 1)
  {
    AtFirst(p, i, Spelled(l));
    if !l.Plain? {
      EscapeRead(l, p, i);
    }
  }

  // The members of a class are read as they are written.
  lemma {:induction false} MembersRead(ms: seq<Member>, p: seq<int>, i: nat)
    requires Listed(ms) && ms != [] && Stands(LastLetter(ms[|ms| - 1])) != 0
    requires At(p, i, MembersWritten(ms) + Codes("]"))
    ensures ClassMembers(p, i) == Members(Items(ms), i + |MembersWritten(ms)| + 1)
    ensures p[i] == FirstChar(ms[0].l)
  {
    hide Spelled, Stands, MemberChar, At, ClassMembers, Items, MembersWritten, MemberWritten, Sayable, FirstChar;
    var m, rest := ms[0], MembersWritten(ms[1..]) + Codes("]");
    var w := MemberWritten(m);
    SplitMembers(ms);
    AtParts(p, i, w, rest);
    OneMember(m, p, i);
    var j := i + |w|;
    NextIs(ms[1..], p, j);
    if |ms| > 1 {
      assert Spaced(m, ms[1..][0].l);
      MembersRead(ms[1..], p, j);
    }
    MemberStep(ms, p, i, j);
  }

  lemma SplitMembers(ms: seq<Member>)
    requires Listed(ms) && ms != []
    ensures MembersWritten(ms) + Codes("]") == MemberWritten(ms[0]) + (MembersWritten(ms[1..]) + Codes("]"))
    ensures |MembersWritten(ms)| == |MemberWritten(ms[0])| + |MembersWritten(ms[1..])| && (|ms| == 1 ==> MembersWritten(ms[1..]) == [])
  {
  }

  lemma MemberStep(ms: seq<Member>, p: seq<int>, i: nat, j: nat)
    requires Listed(ms) && ms != [] && i < |p| && !(p[i] == '[' as int && Peek(p, i + 1) == ':' as int)
    requires var m, e := ms[0], MemberChar(p, i);
             e.known && e.c == Stands(m.l) &&
             (m.One? ==> e.i == j && Peek(p, j) != '-' as int) &&
             (m.Span? ==> e.i + 1 < |p| && p[e.i] == '-' as int && MemberChar(p, e.i + 1) == Escape(Stands(m.h), j, true))
    requires j < |p| && (p[j] == ']' as int <==> |ms| == 1) && Stands(LastLetter(ms[|ms| - 1])) != 0
    requires |ms| > 1 ==> ClassMembers(p, j).Members? && ClassMembers(p, j).items == Items(ms[1..])
    ensures ClassMembers(p, i) == Members(Items(ms), if |ms| == 1 then j + 1 else ClassMembers(p, j).i)
  {
    hide Stands, MemberChar, Spelled;
    var m := ms[0];
    var last := Escape(Stands(LastLetter(m)), j, true);
    assert ClassMembers(p, i) == MoreMembers(p, Item(m), last);
    assert Items(ms) == [Item(m)] + Items(ms[1..]);
    if |ms| == 1 {
      assert Items(ms) == [Item(m)];
    }
  }

  // What stands behind a member neither makes it a range nor ends the class too early.
  lemma NextIs(ms: seq<Member>, p: seq<int>, j: nat)
    requires Listed(ms) && At(p, j, MembersWritten(ms) + Codes("]"))
    ensures j < |p| && p[j] == if ms == [] then ']' as int else FirstChar(ms[0].l)
  {
    hide Spelled, Stands;
    if ms == [] {
      assert MembersWritten(ms) + Codes("]") == Codes("]");
      AtFirst(p, j, Codes("]"));
    } else {
      var w := MembersWritten(ms) + Codes("]");
      var l := ms[0].l;
      assert w == Spelled(l) + w[|Spelled(l)|..];
      AtParts(p, j, Spelled(l), w[|Spelled(l)|..]);
      MemberRead(l, p, j);
    }
  }

  lemma OneMember(m: Member, p: seq<int>, i: nat)
    requires OrdinaryMember(m.l) && OrdinaryMember(LastLetter(m)) && At(p, i, MemberWritten(m))
    ensures var e := MemberChar(p, i);
            e.known && i < e.i <= |p| && e.c == Stands(m.l) && p[i] == FirstChar(m.l) && (p[i] == '[' as int ==> m.l == Plain('[' as int) && e.i == i + 1) &&
            (m.One? ==> e.i == i + |MemberWritten(m)|) &&
            (m.Span? ==> e.i + 1 < |p| && p[e.i] == '-' as int && MemberChar(p, e.i + 1) == Escape(Stands(m.h), i + |MemberWritten(m)|, true))
  {
    hide Stands, At, Spelled, MemberChar, OrdinaryMember;
    if m.Span? {
      SpanWritten(m);
      var a, b := Spelled(m.l), Spelled(m.h);
      AtParts(p, i, a, Codes("-") + b);
      AtParts(p, i + |a|, Codes("-"), b);
      AtFirst(p, i + |a|, Codes("-"));
      MemberRead(m.h, p, i + |a| + 1);
    }
    MemberRead(m.l, p, i);
  }

  lemma SpanWritten(m: Member)
    requires m.Span? && OrdinaryMember(m.l) && OrdinaryMember(m.h)
    ensures Sayable(m.l) && Sayable(m.h) && MemberWritten(m) == Spelled(m.l) + (Codes("-") + Spelled(m.h))
  {
    hide Spelled, Sayable;
  }

  // ----- reading counts ------------------------------------------------------------------

  lemma {:induction false} DecimalGrows(ds: seq<nat>, k: nat)
    requires k <= |ds|
    ensures Decimal(ds[..k]) <= Decimal(ds)
  {
    if k < |ds| {
      DecimalGrows(ds[..|ds| - 1], k);
      assert ds[..|ds| - 1][..k] == ds[..k];
    } else {
      assert ds[..k] == ds;
    }
  }

  // The digits from the k-th on are read behind the value of those in front.
  lemma {:induction false} NumberRead(p: seq<int>, i: nat, ds: seq<nat>, k: nat, mx: nat)
    requires Numeral(ds) && At(p, i, Digits(ds)) && !IsDecimal(Peek(p, i + |ds|)) && k <= |ds|
    ensures ParseNumber(p, i + k, Decimal(ds[..k]), mx) ==
            if k < |ds| && 2 * Decimal(ds) > mx then TooBigNumber else Number(Decimal(ds), i + |ds|)
    decreases |ds| - k
  {
    hide Decimal, Digits, Numeral;
    if k == |ds| {
      assert ds[..k] == ds;
    } else {
      DigitAt(p, i, ds, k);
      DecimalMore(ds, k);
      DecimalGrows(ds, k + 1);
      NumberRead(p, i, ds, k + 1, mx);
      if k + 1 == |ds| {
        assert ds[..k + 1] == ds;
      }
    }
  }

  lemma DecimalMore(ds: seq<nat>, k: nat)
    requires k < |ds|
    ensures Decimal(ds[..k + 1]) == Decimal(ds[..k]) * 10 + ds[k]
  {
    assert ds[..k + 1][..k] == ds[..k];
  }

  lemma DigitAt(p: seq<int>, i: nat, ds: seq<nat>, k: nat)
    requires Numeral(ds) && At(p, i, Digits(ds)) && k < |ds|
    ensures p[i + k] == 48 + ds[k]
  {
    assert p[i + k] == p[i..i + |ds|][k] == Digits(ds)[k];
    GlyphIs(ds[k]);
  }

  // A numeral is read, unless twice its value is more than the limit.
  lemma NumeralRead(p: seq<int>, i: nat, ds: seq<nat>, mx: nat)
    requires Numeral(ds) && At(p, i, Digits(ds)) && !IsDecimal(Peek(p, i + |ds|))
    ensures ParseNumber(p, i, 0, mx) == if 2 * Decimal(ds) > mx then TooBigNumber else Number(Decimal(ds), i + |ds|)
  {
    NumberRead(p, i, ds, 0, mx);
    if ds == [] {
      assert Decimal(ds) == 0;
    }
  }

  predicate Numbered(q: Times) {
    match q
    case Exactly(m) => Numeral(m)
    case Between(m, n) => Numeral(m) && Numeral(n)
    case _ => true
  }

  lemma OneCount(m: seq<nat>, p: seq<int>, i: nat, mx: nat)
    requires Numeral(m) && At(p, i, Digits(m) + Codes("}"))
    ensures ParseCount(p, i, mx) ==
            if Countable(Exactly(m), mx) then Count(Decimal(m), Decimal(m), i + |m| + 1) else BadCount
  {
    hide ParseNumber, Digits, At, Decimal, Numeral;
    AtParts(p, i, Digits(m), Codes("}"));
    AtFirst(p, i + |m|, Codes("}"));
    NumeralRead(p, i, m, mx);
  }

  lemma TwoCounts(m: seq<nat>, n: seq<nat>, p: seq<int>, i: nat, mx: nat)
    requires Numeral(m) && Numeral(n) && At(p, i, Digits(m) + (Codes(",") + (Digits(n) + Codes("}"))))
    ensures ParseCount(p, i, mx) ==
            if Countable(Between(m, n), mx) then Count(Decimal(m), Decimal(n), i + |m| + |n| + 2) else BadCount
  {
    hide ParseNumber, Digits, At, Decimal, Numeral;
    var tail := Digits(n) + Codes("}");
    AtParts(p, i, Digits(m), Codes(",") + tail);
    AtParts(p, i + |m|, Codes(","), tail);
    AtFirst(p, i + |m|, Codes(","));
    AtParts(p, i + |m| + 1, Digits(n), Codes("}"));
    AtFirst(p, i + |m| + 1 + |n|, Codes("}"));
    NumeralRead(p, i, m, mx);
    NumeralRead(p, i + |m| + 1, n, mx);
  }

  // A quantifier is refused exactly if its count is too large, empty or the wrong way round.
  lemma TimesRead(q: Times, p: seq<int>, i: nat, mx: nat)
    requires Numbered(q) && At(p, i, TimesWritten(q))
    ensures i < |p| && IsQuantifier(p[i]) && (p[i] == '*' as int <==> q.Any?)
    ensures ParseQuantifier(p, i, mx) ==
            if Countable(q, mx) then Quantifier(QuantOf(q), i + |TimesWritten(q)|) else BadQuantifier
  {
    hide ParseCount, Digits, At, Decimal, Numeral;
    var w := TimesWritten(q);
    AtFirst(p, i, w);
    if q.Exactly? {
      var tail := Digits(q.m) + Codes("}");
      assert w == Codes("{") + tail;
      AtParts(p, i, Codes("{"), tail);
      OneCount(q.m, p, i + 1, mx);
    } else if q.Between? {
      var tail := Digits(q.m) + (Codes(",") + (Digits(q.n) + Codes("}")));
      assert w == Codes("{") + tail;
      AtParts(p, i, Codes("{"), tail);
      TwoCounts(q.m, q.n, p, i + 1, mx);
    }
  }

  // ----- reading patterns ----------------------------------------------------------------

  predicate Opens(c: int) {
    !IsQuantifier(c) && c != '|' as int && c != ')' as int
  }

  lemma SetRead(x: Syntax, p: seq<int>, i: nat, mx: nat)
    requires x.Set? && Proper(x, mx) && At(p, i, Written(x, mx))
    ensures p[i] == '[' as int && ParseClass(p, i + 1) == Ok(ItemRe(x, mx), i + |Written(x, mx)|)
  {
    hide At, Listed, MembersWritten, Items, ClassMembers, Stands;
    var tail := MembersWritten(x.members) + Codes("]");
    var head := if x.negated then Codes("[^") else Codes("[");
    assert Written(x, mx) == head + tail;
    AtParts(p, i, head, tail);
    AtFirst(p, i, head);
    AtFirst(p, i + |head|, tail);
    MembersRead(x.members, p, i + |head|);
  }

  lemma AtomRead(x: Syntax, p: seq<int>, i: nat, mx: nat)
    requires IsItem(x) && !x.Group? && Proper(x, mx) && At(p, i, Written(x, mx)) && (x.Dot? ==> Peek(p, i + 1) != '*' as int)
    ensures i < |p| && Opens(p[i]) && p[i] != '(' as int
    ensures ParseAtom(p, i) == Ok(ItemRe(x, mx), i + |Written(x, mx)|)
  {
    hide At, ParseClass, EscChar, MembersWritten, Items, Stands;
    if x.Set? {
      SetRead(x, p, i, mx);
    } else if x.Char? {
      LetterRead(x.l, p, i);
    } else {
      AtFirst(p, i, Written(x, mx));
    }
  }

  lemma LetterRead(l: Letter, p: seq<int>, i: nat)
    requires Ordinary(l) && At(p, i, Spelled(l))
    ensures i < |p| && Opens(p[i]) && p[i] != '(' as int
    ensures ParseAtom(p, i) == Ok(Test(Inst(MATCH, Stands(l))), i + |Spelled(l)|)
  {
    hide At, ParseClass, EscChar;
    AtFirst(p, i, Spelled(l));
    if !l.Plain? {
      EscapeRead(l, p, i);
    }
  }

  lemma {:induction false} FirstOf(x: Syntax, mx: nat)
    requires Proper(x, mx) && !x.Either?
    ensures IsItem(x) ==> Written(x, mx) != []
    ensures Written(x, mx) != [] ==> Written(x, mx)[0] != '*' as int
  {
    if x.Sequence? {
      FirstOf(x.left, mx);
      FirstOf(x.right, mx);
      if Written(x.left, mx) == [] {
        assert Written(x, mx) == Written(x.right, mx);
      }
    } else if x.Repeated? {
      FirstOf(x.item, mx);
    } else if x.Set? {
      assert Written(x, mx)[0] == '[' as int;
    } else if x.Group? {
      assert Written(x, mx)[0] == '(' as int;
    }
  }

  predicate Stops(p: seq<int>, i: nat) {
    i == |p| || (i < |p| && (p[i] == '|' as int || p[i] == ')' as int))
  }

  lemma {:induction false} ItemRead(x: Syntax, p: seq<int>, i: nat, mx: nat)
    requires IsItem(x) && Proper(x, mx) && At(p, i, Written(x, mx)) && (x.Dot? ==> Peek(p, i + 1) != '*' as int)
    ensures i < |p| && Opens(p[i])
    ensures ParseItem(p, i, mx) == Ok(ItemRe(x, mx), i + |Written(x, mx)|)
    decreases x, 0
  {
    hide At, ParseAtom, Written, ItemRe;
    if x.Group? {
      var w := Written(x.body, mx);
      BodyIs(x, mx);
      AtParts(p, i, Codes("("), w + Codes(")"));
      AtParts(p, i + 1, w, Codes(")"));
      AtFirst(p, i, Codes("("));
      AtFirst(p, i + 1 + |w|, Codes(")"));
      WholeRead(x.body, p, i + 1, mx);
    } else {
      AtomRead(x, p, i, mx);
    }
  }

  lemma BodyIs(x: Syntax, mx: nat)
    requires x.Group? && Proper(x, mx)
    ensures Written(x, mx) == Codes("(") + (Written(x.body, mx) + Codes(")")) && ItemRe(x, mx) == WholeRe(x.body, mx)
  {
    assert Written(x, mx) == Codes("(") + Written(x.body, mx) + Codes(")");
  }

  // One item: what was gathered is followed by it.
  lemma OneItem(x: Syntax, p: seq<int>, i: nat, s: State, mx: nat)
    requires IsItem(x) && Proper(x, mx) && StateOk(s) && i < |p| && Opens(p[i])
    requires ParseItem(p, i, mx) == Ok(ItemRe(x, mx), i + |Written(x, mx)|)
    ensures ParseString(p, i, s.acc, s.last, mx) == ParseString(p, i + |Written(x, mx)|, Gathered(s), Atom(ItemRe(x, mx)), mx)
  {
    hide ParseItem, Written, ItemRe, Proper;
  }

  // A string of items is read as they follow one another.
  lemma {:induction false} StringRead(x: Syntax, p: seq<int>, i: nat, s: State, mx: nat)
    requires Proper(x, mx) && !x.Either? && StateOk(s) && At(p, i, Written(x, mx))
    requires Peek(p, i + |Written(x, mx)|) != '*' as int
    ensures var r := After(x, mx, s);
            ParseString(p, i, s.acc, s.last, mx) == ParseString(p, i + |Written(x, mx)|, r.acc, r.last, mx)
    decreases x, 1
  {
    hide At, ParseString, ParseItem, ParseQuantifier, Written, After, ItemRe, Again, Countable, TimesWritten;
    AfterIs(x, s, mx);
    if x.Sequence? {
      var a, b := Written(x.left, mx), Written(x.right, mx);
      AtParts(p, i, a, b);
      FirstOf(x.right, mx);
      if b != [] {
        AtFirst(p, i + |a|, b);
      }
      StringRead(x.left, p, i, s, mx);
      StringRead(x.right, p, i + |a|, After(x.left, mx, s), mx);
    } else if x.Repeated? {
      var a, q := Written(x.item, mx), x.times;
      AtParts(p, i, a, TimesWritten(q));
      TimesRead(q, p, i + |a|, mx);
      ItemRead(x.item, p, i, mx);
      OneItem(x.item, p, i, s, mx);
      OneMore(q, p, i + |a|, Gathered(s), ItemRe(x.item, mx), mx);
    } else if IsItem(x) {
      ItemRead(x, p, i, mx);
      OneItem(x, p, i, s, mx);
    }
  }

  lemma AfterIs(x: Syntax, s: State, mx: nat)
    requires Proper(x, mx) && !x.Either? && StateOk(s)
    ensures x.Blank? ==> Written(x, mx) == [] && After(x, mx, s) == s
    ensures x.Sequence? ==> Written(x, mx) == Written(x.left, mx) + Written(x.right, mx) &&
                            After(x, mx, s) == After(x.right, mx, After(x.left, mx, s))
    ensures x.Repeated? ==> Numbered(x.times) && Countable(x.times, mx) && Written(x, mx) == Written(x.item, mx) + TimesWritten(x.times) &&
                            After(x, mx, s) == State(Gathered(s), Again(QuantOf(x.times), Atom(ItemRe(x.item, mx))))
    ensures IsItem(x) ==> After(x, mx, s) == State(Gathered(s), Atom(ItemRe(x, mx)))
    ensures x.Dot? ==> |Written(x, mx)| == 1
    ensures x.Repeated? && x.item.Dot? ==> |Written(x.item, mx)| == 1
  {
  }

  lemma OneMore(q: Times, p: seq<int>, i: nat, acc: Re, r: Re, mx: nat)
    requires i < |p| && IsQuantifier(p[i]) && Countable(q, mx)
    requires ParseQuantifier(p, i, mx) == Quantifier(QuantOf(q), i + |TimesWritten(q)|)
    ensures ParseString(p, i, acc, Atom(r), mx) == ParseString(p, i + |TimesWritten(q)|, acc, Again(QuantOf(q), Atom(r)), mx)
  {
    hide ParseQuantifier, TimesWritten, Again;
  }

  lemma {:induction false} WholeString(x: Syntax, p: seq<int>, i: nat, mx: nat)
    requires Proper(x, mx) && !x.Either? && At(p, i, Written(x, mx)) && Stops(p, i + |Written(x, mx)|)
    ensures ParseString(p, i, Empty, Nothing, mx) == Ok(StringRe(x, mx), i + |Written(x, mx)|)
    decreases x, 2
  {
    hide At, After;
    StringRead(x, p, i, State(Empty, Nothing), mx);
  }

  lemma {:induction false} WholeRead(x: Syntax, p: seq<int>, i: nat, mx: nat)
    requires Proper(x, mx) && At(p, i, Written(x, mx)) && Stops(p, i + |Written(x, mx)|)
    ensures ParseRe(p, i, mx) == ParseAlternatives(p, i + |Written(x, mx)|, WholeRe(x, mx), mx)
    decreases x, 3
  {
    hide At, ParseString, StringRe, Written, WholeRe;
    WholeIs(x, mx);
    if x.Either? {
      var a, b := Written(x.left, mx), Written(x.right, mx);
      AtParts(p, i, a, Codes("|") + b);
      AtParts(p, i + |a|, Codes("|"), b);
      AtFirst(p, i + |a|, Codes("|"));
      WholeRead(x.left, p, i, mx);
      WholeString(x.right, p, i + |a| + 1, mx);
    } else {
      WholeString(x, p, i, mx);
    }
  }

  lemma WholeIs(x: Syntax, mx: nat)
    requires Proper(x, mx)
    ensures x.Either? ==> Written(x, mx) == Written(x.left, mx) + (Codes("|") + Written(x.right, mx)) &&
                          WholeRe(x, mx) == Alt(WholeRe(x.left, mx), StringRe(x.right, mx))
    ensures !x.Either? ==> WholeRe(x, mx) == StringRe(x, mx)
  {
    hide StringRe, After, Spelled, TimesWritten, MembersWritten;
    if x.Either? {
      assert Written(x, mx) == Written(x.left, mx) + Codes("|") + Written(x.right, mx);
    }
  }

  // ----- the meaning of what is read -----------------------------------------------------

  ghost predicate Alike(r: Re, x: Syntax, mx: nat, t: Text)
    requires Proper(x, mx)
  {
    forall i: nat, j: nat :: Denotes(r, t, i, j) <==> Means(x, mx, t, i, j)
  }

  lemma {:induction false} TimesMeans(r: Re, x: Syntax, mx: nat, n: nat, t: Text, i: nat, j: nat)
    requires Proper(x, mx) && Alike(r, x, mx, t)
    ensures DenotesTimes(r, n, t, i, j) <==> MeansTimes(x, mx, n, t, i, j)
    decreases n
  {
    hide Means, Denotes;
    if i <= j <= |t.s| && n > 0 {
      forall k: nat | i <= k <= j
        ensures Denotes(r, t, i, k) && DenotesTimes(r, n - 1, t, k, j) <==> Means(x, mx, t, i, k) && MeansTimes(x, mx, n - 1, t, k, j)
      {
        TimesMeans(r, x, mx, n - 1, t, k, j);
      }
    }
  }

  ghost predicate DenotesWithin(r: Re, q: Times, t: Text, i: nat, j: nat) {
    exists n: nat :: Within(q, n) && DenotesTimes(r, n, t, i, j)
  }

  lemma OnceIs(r: Re, t: Text, i: nat, j: nat)
    ensures DenotesTimes(r, 1, t, i, j) <==> Denotes(r, t, i, j)
    ensures DenotesTimes(r, 0, t, i, j) <==> i == j <= |t.s|
  {
    hide Denotes;
    EmptyRange(r, t, i, j);
    if Denotes(r, t, i, j) {
      assert DenotesTimes(r, 0, t, j, j);
    }
    forall k: nat | DenotesTimes(r, 0, t, k, j) ensures k == j {
    }
  }

  // A quantified expression denotes as many in a row as the quantifier allows.
  lemma QuantMeans(r: Re, q: Times, mx: nat, t: Text, i: nat, j: nat)
    requires Countable(q, mx)
    ensures Denotes(Quantify(QuantOf(q), r), t, i, j) <==> DenotesWithin(r, q, t, i, j)
  {
    hide Decimal, Numeral, DenotesTimes, Denotes, DenotesWithin;
    if q.Exactly? || q.Between? {
      CountMeans(r, q, mx, t, i, j);
    } else if q.Maybe? {
      MaybeMeans(r, t, i, j);
    } else {
      TimesBound(r, t, i, j);
      StarPlusMeans(r, q, t, i, j);
    }
  }

  lemma StarPlusMeans(r: Re, q: Times, t: Text, i: nat, j: nat)
    requires q.Any? || q.Some?
    requires forall n: nat :: DenotesTimes(r, n, t, i, j) ==> i <= j <= |t.s|
    ensures Denotes(Quantify(QuantOf(q), r), t, i, j) <==> DenotesWithin(r, q, t, i, j)
  {
    hide DenotesTimes;
  }

  lemma MaybeMeans(r: Re, t: Text, i: nat, j: nat)
    ensures Denotes(Opt(r), t, i, j) <==> DenotesWithin(r, Maybe, t, i, j)
  {
    hide DenotesTimes;
    OnceIs(r, t, i, j);
    EmptyRange(r, t, i, j);
    if DenotesTimes(r, 0, t, i, j) {
      assert Within(Maybe, 0);
    }
    if DenotesTimes(r, 1, t, i, j) {
      assert Within(Maybe, 1);
    }
  }

  lemma CountMeans(r: Re, q: Times, mx: nat, t: Text, i: nat, j: nat)
    requires Countable(q, mx) && (q.Exactly? || q.Between?)
    ensures Denotes(Quantify(QuantOf(q), r), t, i, j) <==> DenotesWithin(r, q, t, i, j)
  {
    hide Decimal, Numeral, DenotesTimes, Denotes, Expand;
    ExpandMeans(r, Decimal(q.m), Decimal(if q.Exactly? then q.m else q.n), t, i, j);
  }

  lemma TimesBound(r: Re, t: Text, i: nat, j: nat)
    ensures forall n: nat :: DenotesTimes(r, n, t, i, j) ==> i <= j <= |t.s|
  {
  }

  lemma SetMeans(x: Syntax, mx: nat, t: Text, i: nat, j: nat)
    requires x.Set? && Proper(x, mx)
    ensures Denotes(ItemRe(x, mx), t, i, j) <==> Means(x, mx, t, i, j)
  {
    if i < j <= |t.s| {
      var items, ms, c := Items(x.members), x.members, t.s[i];
      forall k | 0 <= k < |ms| ensures ItemHas(items[k], c) <==> MemberHas(ms[k], c) {
      }
    }
  }

  lemma {:induction false} ItemMeans(x: Syntax, mx: nat, t: Text)
    requires IsItem(x) && Proper(x, mx)
    ensures Alike(ItemRe(x, mx), x, mx, t)
    decreases x, 0
  {
    if x.Group? {
      WholeMeans(x.body, mx, t);
      GroupIs(x, mx, t);
    } else {
      forall i: nat, j: nat ensures Denotes(ItemRe(x, mx), t, i, j) <==> Means(x, mx, t, i, j) {
        if x.Set? {
          SetMeans(x, mx, t, i, j);
        }
      }
    }
  }

  lemma GroupIs(x: Syntax, mx: nat, t: Text)
    requires x.Group? && Proper(x, mx) && Alike(WholeRe(x.body, mx), x.body, mx, t)
    ensures Alike(ItemRe(x, mx), x, mx, t)
  {
    hide Denotes, WholeRe;
    forall i: nat, j: nat ensures Denotes(ItemRe(x, mx), t, i, j) <==> Means(x, mx, t, i, j) {
      EmptyRange(WholeRe(x.body, mx), t, i, j);
      assert Denotes(WholeRe(x.body, mx), t, i, j) <==> Means(x.body, mx, t, i, j);
    }
  }

  lemma EmptyRange(r: Re, t: Text, i: nat, j: nat)
    ensures Denotes(r, t, i, j) ==> i <= j <= |t.s|
  {
  }

  // r followed by x.
  ghost predicate Joined(r: Re, x: Syntax, mx: nat, t: Text, i: nat, j: nat)
    requires Proper(x, mx)
  {
    exists k: nat :: i <= k <= j && Denotes(r, t, i, k) && Means(x, mx, t, k, j)
  }

  lemma CatIsJoined(r: Re, e: Re, x: Syntax, mx: nat, t: Text, i: nat, j: nat)
    requires Proper(x, mx) && Alike(e, x, mx, t)
    ensures Denotes(Cat(r, e), t, i, j) <==> Joined(r, x, mx, t, i, j)
  {
    hide Means;
    if Denotes(Cat(r, e), t, i, j) {
      var k := CatSplit(r, e, t, i, j);
      assert Means(x, mx, t, k, j);
    }
    if Joined(r, x, mx, t, i, j) {
      var k: nat :| i <= k <= j && Denotes(r, t, i, k) && Means(x, mx, t, k, j);
      assert Denotes(e, t, k, j);
      CatJoin(r, e, t, i, k, j);
    }
  }

  lemma CatSplit(a: Re, b: Re, t: Text, i: nat, j: nat) returns (k: nat)
    requires Denotes(Cat(a, b), t, i, j)
    ensures i <= k <= j && Denotes(a, t, i, k) && Denotes(b, t, k, j)
  {
    k :| i <= k <= j && Denotes(a, t, i, k) && Denotes(b, t, k, j);
  }

  lemma RepeatedMeans(x: Syntax, mx: nat, t: Text)
    requires x.Repeated? && Proper(x, mx) && Alike(ItemRe(x.item, mx), x.item, mx, t)
    ensures Alike(Quantify(QuantOf(x.times), ItemRe(x.item, mx)), x, mx, t)
  {
    hide ItemRe, Denotes, Alike, Quantify, DenotesTimes, MeansTimes, Within, Countable, QuantOf;
    var r := ItemRe(x.item, mx);
    RepeatedIs(x, mx);
    forall i: nat, j: nat ensures Denotes(Quantify(QuantOf(x.times), r), t, i, j) <==> Means(x, mx, t, i, j) {
      QuantMeans(r, x.times, mx, t, i, j);
      forall n: nat ensures DenotesTimes(r, n, t, i, j) <==> MeansTimes(x.item, mx, n, t, i, j) {
        TimesMeans(r, x.item, mx, n, t, i, j);
      }
      TimesBound(r, t, i, j);
    }
    AlikeIs(Quantify(QuantOf(x.times), r), x, mx, t);
  }

  lemma RepeatedIs(x: Syntax, mx: nat)
    requires x.Repeated? && Proper(x, mx)
    ensures Countable(x.times, mx) && QuantOk(QuantOf(x.times))
  {
  }

  lemma AlikeIs(r: Re, x: Syntax, mx: nat, t: Text)
    requires Proper(x, mx) && forall i: nat, j: nat :: Denotes(r, t, i, j) <==> Means(x, mx, t, i, j)
    ensures Alike(r, x, mx, t)
  {
  }

  // What is gathered after x denotes what was gathered before, followed by x.
  lemma {:induction false} StringMeans(x: Syntax, mx: nat, s: State, t: Text, i: nat, j: nat)
    requires Proper(x, mx) && !x.Either? && StateOk(s)
    ensures Denotes(Gathered(After(x, mx, s)), t, i, j) <==> Joined(Gathered(s), x, mx, t, i, j)
    decreases x, 1
  {
    hide Denotes, After, Joined, ItemRe, Alike, Again, Gathered, Countable, Quantify;
    AfterIs(x, s, mx);
    if x.Blank? {
      JoinedBlank(Gathered(s), mx, t, i, j);
    } else if x.Sequence? {
      var a := After(x.left, mx, s);
      StringMeans(x.right, mx, a, t, i, j);
      forall k: nat ensures Denotes(Gathered(a), t, i, k) <==> Joined(Gathered(s), x.left, mx, t, i, k) {
        StringMeans(x.left, mx, s, t, i, k);
      }
      JoinedTwice(Gathered(s), Gathered(a), x, mx, t, i, j);
    } else if x.Repeated? {
      ItemMeans(x.item, mx, t);
      RepeatedMeans(x, mx, t);
      var e := Quantify(QuantOf(x.times), ItemRe(x.item, mx));
      AgainIs(Gathered(s), x.times, ItemRe(x.item, mx), mx);
      CatIsJoined(Gathered(s), e, x, mx, t, i, j);
    } else {
      ItemMeans(x, mx, t);
      GatheredIs(Gathered(s), Atom(ItemRe(x, mx)));
      CatIsJoined(Gathered(s), ItemRe(x, mx), x, mx, t, i, j);
    }
  }

  lemma GatheredIs(acc: Re, l: Last)
    ensures Gathered(State(acc, l)) == Cat(acc, Pending(l))
  {
  }

  lemma AgainIs(acc: Re, q: Times, r: Re, mx: nat)
    requires Countable(q, mx)
    ensures Gathered(State(acc, Again(QuantOf(q), Atom(r)))) == Cat(acc, Quantify(QuantOf(q), r))
  {
  }

  lemma JoinedBlank(r: Re, mx: nat, t: Text, i: nat, j: nat)
    ensures Joined(r, Blank, mx, t, i, j) <==> Denotes(r, t, i, j)
  {
    EmptyRange(r, t, i, j);
    if Denotes(r, t, i, j) {
      assert Means(Blank, mx, t, j, j);
    }
  }

  lemma JoinedTwice(r: Re, a: Re, x: Syntax, mx: nat, t: Text, i: nat, j: nat)
    requires x.Sequence? && Proper(x, mx)
    requires forall k: nat :: Denotes(a, t, i, k) <==> Joined(r, x.left, mx, t, i, k)
    ensures Joined(a, x.right, mx, t, i, j) <==> Joined(r, x, mx, t, i, j)
  {
    hide Joined;
    if Joined(a, x.right, mx, t, i, j) {
      JoinedInner(r, a, x, mx, t, i, j);
    }
    if Joined(r, x, mx, t, i, j) {
      JoinedOuter(r, a, x, mx, t, i, j);
    }
  }

  lemma JoinedInner(r: Re, a: Re, x: Syntax, mx: nat, t: Text, i: nat, j: nat)
    requires x.Sequence? && Proper(x, mx) && Joined(a, x.right, mx, t, i, j)
    requires forall k: nat :: Denotes(a, t, i, k) <==> Joined(r, x.left, mx, t, i, k)
    ensures Joined(r, x, mx, t, i, j)
  {
    hide Denotes, Means, Proper;
    SequenceIs(x, mx);
    var k: nat :| i <= k <= j && Denotes(a, t, i, k) && Means(x.right, mx, t, k, j);
    var h: nat :| i <= h <= k && Denotes(r, t, i, h) && Means(x.left, mx, t, h, k);
    SequenceJoin(x, mx, t, h, k, j);
  }

  lemma JoinedOuter(r: Re, a: Re, x: Syntax, mx: nat, t: Text, i: nat, j: nat)
    requires x.Sequence? && Proper(x, mx) && Joined(r, x, mx, t, i, j)
    requires forall k: nat :: Denotes(a, t, i, k) <==> Joined(r, x.left, mx, t, i, k)
    ensures Joined(a, x.right, mx, t, i, j)
  {
    hide Denotes, Means, Proper;
    SequenceIs(x, mx);
    var h: nat :| i <= h <= j && Denotes(r, t, i, h) && Means(x, mx, t, h, j);
    var k := SequenceSplit(x, mx, t, h, j);
    assert Joined(r, x.left, mx, t, i, k);
  }

  lemma SequenceIs(x: Syntax, mx: nat)
    requires x.Sequence? && Proper(x, mx)
    ensures Proper(x.left, mx) && Proper(x.right, mx)
  {
  }

  lemma SequenceJoin(x: Syntax, mx: nat, t: Text, i: nat, k: nat, j: nat)
    requires x.Sequence? && Proper(x, mx) && Means(x.left, mx, t, i, k) && Means(x.right, mx, t, k, j)
    ensures Means(x, mx, t, i, j)
  {
    RangeOf(x.left, mx, t, i, k);
    RangeOf(x.right, mx, t, k, j);
  }

  lemma SequenceSplit(x: Syntax, mx: nat, t: Text, i: nat, j: nat) returns (k: nat)
    requires x.Sequence? && Proper(x, mx) && Means(x, mx, t, i, j)
    ensures i <= k <= j && Means(x.left, mx, t, i, k) && Means(x.right, mx, t, k, j)
  {
    k :| i <= k <= j && Means(x.left, mx, t, i, k) && Means(x.right, mx, t, k, j);
  }

  lemma {:induction false} WholeStringMeans(x: Syntax, mx: nat, t: Text)
    requires Proper(x, mx) && !x.Either?
    ensures Alike(StringRe(x, mx), x, mx, t)
    decreases x, 2
  {
    hide Denotes, After, Gathered, Means, Joined;
    var s := State(Empty, Nothing);
    forall i: nat, j: nat ensures Denotes(StringRe(x, mx), t, i, j) <==> Means(x, mx, t, i, j) {
      StringMeans(x, mx, s, t, i, j);
      NothingJoined(x, mx, t, i, j);
    }
  }

  lemma NothingJoined(x: Syntax, mx: nat, t: Text, i: nat, j: nat)
    requires Proper(x, mx)
    ensures Joined(Gathered(State(Empty, Nothing)), x, mx, t, i, j) <==> Means(x, mx, t, i, j)
  {
    var r := Gathered(State(Empty, Nothing));
    hide Means;
    RangeOf(x, mx, t, i, j);
    forall k: nat ensures Denotes(r, t, i, k) <==> i == k <= |t.s| {
      if i == k <= |t.s| {
        assert Denotes(Empty, t, i, i);
      }
    }
  }

  lemma RangeOf(x: Syntax, mx: nat, t: Text, i: nat, j: nat)
    requires Proper(x, mx)
    ensures Means(x, mx, t, i, j) ==> i <= j <= |t.s|
  {
  }

  lemma {:induction false} WholeMeans(x: Syntax, mx: nat, t: Text)
    requires Proper(x, mx)
    ensures Alike(WholeRe(x, mx), x, mx, t)
    decreases x, 3
  {
    hide Alike, WholeRe, StringRe;
    WholeIs(x, mx);
    if x.Either? {
      WholeMeans(x.left, mx, t);
      WholeStringMeans(x.right, mx, t);
      EitherIs(x, mx, t);
    } else {
      WholeStringMeans(x, mx, t);
    }
  }

  lemma EitherIs(x: Syntax, mx: nat, t: Text)
    requires x.Either? && Proper(x, mx) && Alike(WholeRe(x.left, mx), x.left, mx, t) && Alike(StringRe(x.right, mx), x.right, mx, t)
    ensures Alike(Alt(WholeRe(x.left, mx), StringRe(x.right, mx)), x, mx, t)
  {
    hide WholeRe, StringRe;
    var a, b := WholeRe(x.left, mx), StringRe(x.right, mx);
    forall i: nat, j: nat ensures Denotes(Alt(a, b), t, i, j) <==> Means(x, mx, t, i, j) {
      assert Denotes(a, t, i, j) <==> Means(x.left, mx, t, i, j);
      assert Denotes(b, t, i, j) <==> Means(x.right, mx, t, i, j);
    }
  }

  lemma AgainWell(acc: Re, q: Times, r: Re, mx: nat)
    requires Countable(q, mx) && WellFormed(acc) && WellFormed(r)
    ensures WellFormed(Gathered(State(acc, Again(QuantOf(q), Atom(r)))))
  {
    AgainIs(acc, q, r, mx);
    hide Quantify;
  }

  // No quantifier is stacked on another in what is read.
  lemma {:induction false} StringWell(x: Syntax, mx: nat, s: State)
    requires Proper(x, mx) && !x.Either? && StateOk(s) && WellFormed(Gathered(s))
    ensures WellFormed(Gathered(After(x, mx, s)))
    decreases x, 1
  {
    hide After, Again, Countable;
    AfterIs(x, s, mx);
    if x.Sequence? {
      StringWell(x.left, mx, s);
      StringWell(x.right, mx, After(x.left, mx, s));
    } else if x.Repeated? {
      ItemWell(x.item, mx);
      AgainWell(Gathered(s), x.times, ItemRe(x.item, mx), mx);
    } else if IsItem(x) {
      ItemWell(x, mx);
    }
  }

  lemma {:induction false} ItemWell(x: Syntax, mx: nat)
    requires Proper(x, mx) && IsItem(x)
    ensures WellFormed(ItemRe(x, mx))
    decreases x, 0
  {
    if x.Group? {
      WholeWell(x.body, mx);
    }
  }

  lemma {:induction false} WholeWell(x: Syntax, mx: nat)
    requires Proper(x, mx)
    ensures WellFormed(WholeRe(x, mx))
    decreases x, 2
  {
    WholeIs(x, mx);
    var s := State(Empty, Nothing);
    if x.Either? {
      WholeWell(x.left, mx);
      StringWell(x.right, mx, s);
    } else {
      StringWell(x, mx, s);
    }
  }

  // ----- the main results --------------------------------------------------------------------

  // A pattern that is written out of its parts is read, and what is read means what was
  // written, for every text. A leading '^' anchors it.
  lemma PatternMeans(x: Syntax, anchored: bool, mx: nat, t: Text)
    requires Proper(x, mx) && (!anchored ==> Peek(Written(x, mx), 0) != '^' as int)
    ensures ParsePattern((if anchored then Codes("^") else []) + Written(x, mx), mx) == Pattern(anchored, WholeRe(x, mx))
    ensures WellFormed(WholeRe(x, mx)) && forall i: nat, j: nat :: Denotes(WholeRe(x, mx), t, i, j) <==> Means(x, mx, t, i, j)
  {
    WholeWell(x, mx);
    hide Denotes, Means, WholeRe, ParseRe;
    WholeMeans(x, mx, t);
    var w := Written(x, mx);
    var z := (if anchored then Codes("^") else []) + w;
    assert (if anchored then z[1..] else z) == w;
    assert w[0..|w|] == w;
    WholeRead(x, w, 0, mx);
    assert ParseAlternatives(w, |w|, WholeRe(x, mx), mx) == Ok(WholeRe(x, mx), |w|);
  }

  ghost predicate MeansFrom(x: Syntax, mx: nat, t: Text, i: nat)
    requires Proper(x, mx)
  {
    exists j: nat :: Means(x, mx, t, i, j)
  }

  // Part of the text is meant by x, from the start on if anchored.
  ghost predicate Occurs(anchored: bool, x: Syntax, mx: nat, s: seq<int>)
    requires Proper(x, mx)
  {
    var t := Text(START_CHAR, s);
    if anchored then MeansFrom(x, mx, t, 0) else exists i: nat :: MeansFrom(x, mx, t, i)
  }

  // regexp() looks for what is written.
  lemma FoundIsOccurs(x: Syntax, anchored: bool, mx: nat, s: seq<int>)
    requires Proper(x, mx) && (!anchored ==> Peek(Written(x, mx), 0) != '^' as int)
    ensures ParsePattern((if anchored then Codes("^") else []) + Written(x, mx), mx) == Pattern(anchored, WholeRe(x, mx))
    ensures Found(anchored, WholeRe(x, mx), s) <==> Occurs(anchored, x, mx, s)
  {
    hide ParsePattern, Written, Means, Denotes, WholeRe;
    var r, t := WholeRe(x, mx), Text(START_CHAR, s);
    PatternMeans(x, anchored, mx, t);
    forall i: nat ensures DenotesFrom(r, t, i) <==> MeansFrom(x, mx, t, i) {
      EmptyRange(r, t, i, 0);
    }
    forall i: nat | MeansFrom(x, mx, t, i) ensures i <= |s| {
      var j: nat :| Means(x, mx, t, i, j);
      RangeOf(x, mx, t, i, j);
    }
  }

  // The answer of regexp() for a written pattern that has its '$' last: whether the text has
  // a part that the pattern means.
  lemma AnswerIsOccurrence(x: Syntax, anchored: bool, mx: nat, text: seq<byte>, a: Regexp.Answer)
    requires Proper(x, mx) && (!anchored ==> Peek(Written(x, mx), 0) != '^' as int)
    requires Correct(ParsePattern((if anchored then Codes("^") else []) + Written(x, mx), mx), text, mx, a)
    requires a.Answer? && EndLast(WholeRe(x, mx)) && (ValidUtf8(text) || REPLACEMENT !in Literals(Program(PatternRe(anchored, WholeRe(x, mx)))))
    ensures a.found <==> Occurs(anchored, x, mx, DecodeFrom(text, 0))
  {
    hide ParsePattern, Written, Found, Occurs, WholeRe, Gen, Literals, Reached, Accepting, EndLast, WellFormed;
    FoundIsOccurs(x, anchored, mx, DecodeFrom(text, 0));
    WholeWell(x, mx);
  }

  // ----- what is refused -------------------------------------------------------------------

  predicate KnownEscape(c: int) {
    Mark(c) || exists k :: 0 <= k < |LETTERS| && c == LETTERS[k] as int
  }

  const LETTERS: string := "DSWabdfnrstvw"

  // These and no other single characters may follow a backslash; without one it stands for the
  // end of the text, as '$' does.
  lemma EscapeKnown(p: seq<int>, i: nat)
    requires i < |p| && p[i] == '\\' as int
    ensures i + 2 == |p| ==> (ParseAtom(p, i) == Bad <==> !KnownEscape(p[i + 1]))
    ensures i + 1 == |p| ==> ParseAtom(p, i) == Ok(Test(Inst(MATCH, EOF_CHAR)), |p|)
  {
    hide IsPunctuation;
    if i + 2 == |p| {
      MarksKnown(p[i + 1]);
      var l := LETTERS;
      assert l[0] == 'D' && l[1] == 'S' && l[2] == 'W' && l[3] == 'a' && l[4] == 'b' && l[5] == 'd' && l[6] == 'f';
      assert l[7] == 'n' && l[8] == 'r' && l[9] == 's' && l[10] == 't' && l[11] == 'v' && l[12] == 'w';
    }
  }

  // A parenthesis without its partner, a quantifier with nothing in front of it and a count
  // that is too large, empty or the wrong way round make the pattern bad.
  lemma Unbalanced(x: Syntax, mx: nat)
    requires Proper(x, mx) && Peek(Written(x, mx), 0) != '^' as int
    ensures ParsePattern(Codes("(") + Written(x, mx), mx) == BadPattern
    ensures ParsePattern(Written(x, mx) + Codes(")"), mx) == BadPattern
  {
    hide WholeRe, Written, ParseString;
    var w := Written(x, mx);
    var p, q := Codes("(") + w, w + Codes(")");
    assert At(q, 0, w) && At(p, 1, w) && At(p, 0, p);
    WholeRead(x, q, 0, mx);
    WholeRead(x, p, 1, mx);
    assert q[|w|] == ')' as int;
    assert ParseItem(p, 0, mx) == Bad;
    OnlyItem(p, mx);
  }

  lemma OnlyItem(p: seq<int>, mx: nat)
    requires p != [] && Opens(p[0]) && ParseItem(p, 0, mx) == Bad
    ensures ParseRe(p, 0, mx) == Bad
  {
    hide ParseItem;
  }

  lemma NoOperand(p: seq<int>, mx: nat)
    requires p != [] && IsQuantifier(p[0])
    ensures ParsePattern(p, mx) == BadPattern
  {
    assert ParseString(p, 0, Empty, Nothing, mx) == Bad;
  }

  lemma BadCountRefused(x: Syntax, q: Times, mx: nat)
    requires IsItem(x) && Proper(x, mx) && Peek(Written(x, mx), 0) != '^' as int
    requires (q.Exactly? || q.Between?) && Numbered(q) && !Countable(q, mx)
    ensures ParsePattern(Written(x, mx) + TimesWritten(q), mx) == BadPattern
  {
    hide At, ParseItem, Written, ItemRe, ParseQuantifier, TimesWritten, Countable;
    var a, b := Written(x, mx), TimesWritten(q);
    var p := a + b;
    assert At(p, 0, p) by { WholeAt(p); }
    AtParts(p, 0, a, b);
    TimesRead(q, p, |a|, mx);
    if x.Dot? {
      AfterIs(x, State(Empty, Nothing), mx);
    }
    ItemRead(x, p, 0, mx);
    OneItem(x, p, 0, State(Empty, Nothing), mx);
  }

  // A class needs its bracket, and the forms "[:...:]" are not supported.
  lemma {:induction false} ClassUnclosed(p: seq<int>, i: nat)
    requires i <= |p| && forall k :: i <= k < |p| ==> p[k] != ']' as int
    ensures ClassMembers(p, i) == BadMembers
    decreases |p| - i
  {
    hide MemberChar;
    if i < |p| {
      var e := MemberChar(p, i);
      ClassUnclosed(p, e.i);
      if e.i + 1 < |p| {
        ClassUnclosed(p, MemberChar(p, e.i + 1).i);
      }
    }
  }

  lemma ClassRefused(p: seq<int>, mx: nat)
    requires At(p, 0, Codes("[[:")) || (p != [] && p[0] == '[' as int && forall k :: 0 < k < |p| ==> p[k] != ']' as int)
    ensures ParsePattern(p, mx) == BadPattern
  {
    hide MemberChar;
    if At(p, 0, Codes("[[:")) {
      AtFirst(p, 0, Codes("[[:"));
      AtParts(p, 0, Codes("[["), Codes(":"));
      assert Codes("[[:") == Codes("[[") + Codes(":");
      AtFirst(p, 2, Codes(":"));
    } else {
      ClassUnclosed(p, 1);
      if |p| > 1 {
        ClassUnclosed(p, 2);
      }
    }
    assert ParseClass(p, 1) == Bad;
    OnlyItem(p, mx);
  }

  lemma WholeAt(p: seq<int>)
    ensures At(p, 0, p)
  {
    assert p[0..|p|] == p;
  }
}
