// The regexp() function as a whole: compile, extract the literal prefix, match.

module Regexp {
  import opened Ints
  import opened RegexSpec
  import opened RegexMachine
  import opened RegexMeaning
  import opened RegexProgram
  import opened RegexSyntax
  import opened RegexCompile
  import opened RegexPrefix
  import opened Utf8

  // ----- prefix extraction -----------------------------------------------------------------

  // The literals that re_compile collects from instruction i on, when their encoding has n
  // bytes already.
  function LiteralRun(code: seq<Inst>, i: nat, n: nat): (xs: seq<int>)
    ensures Encodable(xs)
    decreases |code| - i
  {
    if n < 10 && i < |code| && code[i].op.MATCH? && 0 <= code[i].arg <= 0xffff
    then [code[i].arg] + LiteralRun(code, i + 1, n + |Encode1(code[i].arg)|)
    else []
  }

  // The literals of the prefix: a zero at the end is dropped.
  function Literals(code: seq<Inst>): (xs: seq<int>)
    ensures Encodable(xs)
  {
    if code == [] || !code[0].op.ANYSTAR? then []
    else
      var xs := LiteralRun(code, 1, 0);
      if xs != [] && xs[|xs| - 1] == 0 then xs[..|xs| - 1] else xs
  }

  predicate IsLiteralRun(code: seq<Inst>, xs: seq<int>) {
    1 + |xs| < |code| && code[0].op.ANYSTAR? &&
    forall k :: 0 <= k < |xs| ==> code[1 + k] == Inst(MATCH, xs[k]) && 0 <= xs[k] <= 0xffff
  }

  lemma EncodeOne(xs: seq<int>, x: int)
    requires Encodable(xs) && 0 <= x <= 0x10ffff
    ensures Encodable(xs + [x]) && Encode(xs + [x]) == Encode(xs) + Encode1(x)
  {
    EncodeConcat(xs, [x]);
    assert Encode([x]) == Encode1(x) + Encode([]);
  }

  lemma LastByte(x: int)
    requires 0 <= x <= 0x10ffff
    ensures var e := Encode1(x); e[|e| - 1] == 0 <==> x == 0
    ensures x == 0 ==> |Encode1(x)| == 1
  {
  }

  // Dropping a final zero byte drops the last literal.
  lemma TrimZero(xs: seq<int>)
    requires Encodable(xs) && xs != []
    ensures var z := Encode(xs);
            |z| > 0 && (z[|z| - 1] == 0 <==> xs[|xs| - 1] == 0) &&
            (z[|z| - 1] == 0 ==> z[..|z| - 1] == Encode(xs[..|xs| - 1]))
  {
    hide Encode1, Encode;
    var last, front := xs[|xs| - 1], xs[..|xs| - 1];
    assert front + [last] == xs;
    EncodeOne(front, last);
    LastByte(last);
    var z, a, e := Encode(xs), Encode(front), Encode1(last);
    assert z == a + e && |e| > 0 by { SomeByte(last); }
    assert z[|z| - 1] == e[|e| - 1];
  }

  lemma SomeByte(x: int)
    requires 0 <= x <= 0x10ffff
    ensures |Encode1(x)| > 0
  {
  }

  lemma RunStarts(code: seq<Inst>, xs: seq<int>, n: nat)
    requires IsLiteralRun(code, xs) && n <= |xs| && (n < |xs| || (n > 0 ==> xs[n - 1] != EOF_CHAR))
    ensures StartsWith(code, xs[..n]) && Encodable(xs[..n])
  {
    forall k | 0 <= k < n && xs[..n][k] == EOF_CHAR ensures code[2 + k].op.MATCH? {
      assert code[1 + (k + 1)] == Inst(MATCH, xs[k + 1]);
    }
  }

  // The final part of re_compile. At most ten bytes are collected before the last
  // character, so the twelve bytes of zInit suffice.
  method ExtractPrefix(re: ReCompiled)
    requires re.Valid() && re.zInit == [] && re.code != [] && re.code[|re.code| - 1].op.ACCEPT?
    modifies re`zInit
    ensures re.zInit == Encode(Literals(re.code)) && |re.zInit| <= 12
    ensures re.zInit != [] ==> StartsWith(re.code, Literals(re.code))
  {
    hide Encode1, Encode, LiteralRun, StartsWith;
    NothingEncoded();
    if re.aOp[0] != ANYSTAR {
      return;
    }
    var z: seq<byte> := [];
    var i := 1;
    ghost var xs: seq<int> := [];
    while |z| < 10 && re.aOp[i] == MATCH
      invariant 1 <= i < re.nState && i == |xs| + 1 && |z| <= 12
      invariant IsLiteralRun(re.code, xs) && Encodable(xs) && z == Encode(xs)
      invariant LiteralRun(re.code, 1, 0) == xs + LiteralRun(re.code, i, |z|)
      decreases re.nState - i
    {
      var x := re.aArg[i];
      if x < 0 || x > 0xffff {
        break;
      }
      EncodeOne(xs, x);
      FewBytes(x);
      assert re.code[i] == Inst(MATCH, x);
      OneLiteral(re.code, i, |z|, xs);
      z := z + Encode1(x);
      xs := xs + [x];
      i := i + 1;
    }
    assert re.code[i] == Inst(re.aOp[i], re.aArg[i]);
    NoLiteral(re.code, i, |z|);
    re.zInit := z;
    TrimPrefix(re, xs);
  }

  lemma OneLiteral(code: seq<Inst>, i: nat, n: nat, xs: seq<int>)
    requires n < 10 && i < |code| && code[i].op.MATCH? && 0 <= code[i].arg <= 0xffff
    ensures xs + LiteralRun(code, i, n) == (xs + [code[i].arg]) + LiteralRun(code, i + 1, n + |Encode1(code[i].arg)|)
  {
    hide Encode1;
  }

  lemma NoLiteral(code: seq<Inst>, i: nat, n: nat)
    requires i < |code| && (n >= 10 || !code[i].op.MATCH? || !(0 <= code[i].arg <= 0xffff))
    ensures LiteralRun(code, i, n) == []
  {
  }

  lemma FewBytes(x: int)
    requires 0 <= x <= 0xffff
    ensures 1 <= |Encode1(x)| <= 3
  {
  }

  // The last step: a zero byte at the end is dropped.
  method TrimPrefix(re: ReCompiled, ghost xs: seq<int>)
    requires IsLiteralRun(re.code, xs) && Encodable(xs) && re.zInit == Encode(xs) && LiteralRun(re.code, 1, 0) == xs && |re.zInit| <= 12
    modifies re`zInit
    ensures re.zInit == Encode(Literals(re.code)) && |re.zInit| <= 12
    ensures re.zInit != [] ==> StartsWith(re.code, Literals(re.code))
  {
    hide Encode1, Encode, LiteralRun;
    NothingEncoded();
    if |re.zInit| > 0 {
      TrimZero(xs);
      if re.zInit[|re.zInit| - 1] == 0 {
        re.zInit := re.zInit[..|re.zInit| - 1];
        RunStarts(re.code, xs, |xs| - 1);
      } else {
        RunStarts(re.code, xs, |xs|);
        assert xs[..|xs|] == xs;
      }
    } else {
      NoBytes(xs);
    }
  }

  lemma NothingEncoded()
    ensures Encode([]) == []
  {
  }

  lemma NoBytes(xs: seq<int>)
    requires Encodable(xs)
    ensures Encode(xs) == [] ==> xs == []
  {
    if xs != [] {
      SomeByte(xs[0]);
    }
  }

  // re_compile
  method Compile(z: seq<int>, mxRe: nat) returns (re: ReCompiled, err: Error)
    requires 30 <= mxRe
    ensures fresh(re) && fresh(re.aOp) && fresh(re.aArg) && re.Valid() && re.mxAlloc == mxRe
    ensures Compiled(ParsePattern(z, mxRe), err, re.code, mxRe)
    ensures err == NoError ==> Safe(re.code) && re.code != [] && re.zInit == Encode(Literals(re.code))
    ensures err == NoError && re.zInit != [] ==> StartsWith(re.code, Literals(re.code))
  {
    hide Literals, Encode, ParsePattern, Compiled;
    re, err := CompileText(z, mxRe);
    if err == NoError {
      ExtractPrefix(re);
    }
  }

  // ----- the main theorem ---------------------------------------------------------------------

  // The pattern is found in the text: at its start if anchored, else anywhere.
  ghost predicate Found(anchored: bool, r: Re, s: seq<int>) {
    var t := Text(START_CHAR, s);
    if anchored then DenotesFrom(r, t, 0) else exists i: nat :: i <= |s| && DenotesFrom(r, t, i)
  }

  // The same in the matcher's own terms.
  ghost predicate Reached(anchored: bool, r: Re, s: seq<int>) {
    var t := Text(START_CHAR, s);
    if anchored then RunsFrom(r, t, 0) else exists i: nat :: i <= |s| && RunsFrom(r, t, i)
  }

  lemma ReachedMeaning(anchored: bool, r: Re, s: seq<int>)
    requires WellFormed(r)
    ensures Accepting(Program(PatternRe(anchored, r)), Text(START_CHAR, s), 0, 0) <==> Reached(anchored, r, s)
  {
    ProgramMeaning(PatternRe(anchored, r), Text(START_CHAR, s));
    if !anchored {
      FloatingMeaning(r, Text(START_CHAR, s));
    }
  }

  lemma FoundIsReached(anchored: bool, r: Re, s: seq<int>)
    requires WellFormed(r) && EndLast(r) && NoNul(s)
    ensures Found(anchored, r, s) <==> Reached(anchored, r, s)
  {
    forall i: nat | i <= |s| ensures RunsFrom(r, Text(START_CHAR, s), i) <==> DenotesFrom(r, Text(START_CHAR, s), i) {
      EndLastMeaning(r, Text(START_CHAR, s), i);
    }
  }

  datatype Answer = Failed(error: Error) | Answer(found: bool)

  // The prefix search cannot change the answer: no literal of the prefix is U+FFFD, or the
  // text is well formed.
  ghost predicate SearchIsSafe(code: seq<Inst>, text: seq<byte>) {
    REPLACEMENT !in Literals(code) || ValidUtf8(text)
  }

  // What regexp(pattern, text) returns. A good pattern is refused only if its program is too
  // long for the limit. Otherwise the program decides, and that
  // reads the pattern as Reached says wherever no quantifier is stacked on another, and as
  // Found says if also '$' is last.
  ghost predicate Correct(q: Pattern, text: seq<byte>, mx: nat, a: Answer) {
    match q
    case BadPattern => a.Failed?
    case Pattern(anchored, r) =>
      var code, s := Program(PatternRe(anchored, r)), DecodeFrom(text, 0);
      (a.Failed? ==> a.error == TooBig && 5 * |code| + 2 > mx) &&
      (a.Answer? && SearchIsSafe(code, text) ==>
         (a.found <==> Accepting(code, Text(START_CHAR, s), 0, 0)) &&
         (WellFormed(r) ==> (a.found <==> Reached(anchored, r, s))) &&
         (WellFormed(r) && EndLast(r) ==> (a.found <==> Found(anchored, r, s))))
  }

  method RegexpFunction(pattern: seq<int>, text: seq<byte>, mxRe: nat) returns (a: Answer)
    requires 30 <= mxRe <= 0x10000
    requires NoZero(text)
    ensures Correct(ParsePattern(pattern, mxRe), text, mxRe, a)
  {
    hide Gen, ReCompiled.Mirrors, Reached, Found, ParsePattern, Safe, Literals, Encode, StartsWith, Skipped, Accepting, EndLast;
    var re, err := Compile(pattern, mxRe);
    if err != NoError {
      return Failed(err);
    }
    ghost var q := ParsePattern(pattern, mxRe);
    if q.Pattern? {
      if WellFormed(q.r) {
        ReachedMeaning(q.anchored, q.r, DecodeFrom(text, 0));
        if EndLast(q.r) {
          FoundIsReached(q.anchored, q.r, DecodeFrom(text, 0));
        }
      }
      if re.zInit != [] && SearchIsSafe(re.code, text) {
        SafeSearch(re.code, text);
      }
    }
    var found := Match(re, text);
    return Answer(found);
  }

  lemma SafeSearch(code: seq<Inst>, text: seq<byte>)
    requires StartsWith(code, Literals(code)) && Encode(Literals(code)) != [] && NoZero(text) && SearchIsSafe(code, text)
    ensures RegexPrefix.Answer(code, text) <==> Skipped(code, Encode(Literals(code)), text)
  {
    NothingEncoded();
    hide Literals, Encode, StartsWith, Skipped, Accepting, ValidUtf8;
    SkipInvisible(code, Literals(code), text);
  }

  // The pattern U+FFFD has a program that accepts the text of the one byte 0xff, which reads
  // as U+FFFD, but regexp() does not find it there.
  method ReplacementMissed() returns (re: ReCompiled, found: bool)
    ensures re.Valid() && ParsePattern([REPLACEMENT], 30).Pattern? && re.code == Program(PatternRe(false, ParsePattern([REPLACEMENT], 30).r))
    ensures RegexPrefix.Answer(re.code, [0xff]) && !found
  {
    hide Encode1, Encode, Skipped, Accepting, Safe, RegexPrefix.Answer;
    ReplacementCode();
    var err;
    re, err := Compile([REPLACEMENT], 30);
    ReplacementPrefix();
    ReplacementSkipped();
    found := Match(re, [0xff]);
  }

  const REPLACEMENT_CODE: seq<Inst> := [Inst(ANYSTAR, 0), Inst(MATCH, REPLACEMENT), Inst(ACCEPT, 0)]

  lemma ReplacementCode()
    ensures ParsePattern([REPLACEMENT], 30) == Pattern(false, Cat(Cat(Empty, Empty), Test(Inst(MATCH, REPLACEMENT))))
    ensures Program(PatternRe(false, Cat(Cat(Empty, Empty), Test(Inst(MATCH, REPLACEMENT))))) == REPLACEMENT_CODE
  {
    var p := [REPLACEMENT];
    var x := Test(Inst(MATCH, REPLACEMENT));
    assert ParseString(p, 1, Cat(Empty, Empty), Atom(x), 30) == Ok(Cat(Cat(Empty, Empty), x), 1);
    assert ParseItem(p, 0, 30) == Ok(x, 1);
    assert ParseString(p, 0, Empty, Nothing, 30) == Ok(Cat(Cat(Empty, Empty), x), 1);
    assert ParseRe(p, 0, 30) == Ok(Cat(Cat(Empty, Empty), x), 1);
    assert Gen(Cat(Cat(Empty, Empty), x)) == [Inst(MATCH, REPLACEMENT)];
  }

  lemma ReplacementPrefix()
    ensures Literals(REPLACEMENT_CODE) == [REPLACEMENT] && Encode([REPLACEMENT]) != []
  {
    var code := REPLACEMENT_CODE;
    assert LiteralRun(code, 2, 3) == [];
    assert LiteralRun(code, 1, 0) == [REPLACEMENT] + LiteralRun(code, 2, |Encode1(REPLACEMENT)|);
  }

  lemma ReplacementSkipped()
    ensures RegexPrefix.Answer(REPLACEMENT_CODE, [0xff]) && !Skipped(REPLACEMENT_CODE, Encode([REPLACEMENT]), [0xff])
  {
    var code, t := REPLACEMENT_CODE, Text(START_CHAR, DecodeFrom([0xff], 0));
    assert t.s == [REPLACEMENT];
    assert Accepts(code, t, 0, 2, 1);
    assert Accepts(code, t, 1, 1, 0);
    assert Accepts(code, t, 2, 0, 0);
    ThreeLong();
    assert |Encode([REPLACEMENT])| >= |Encode1(REPLACEMENT)| == 3;
  }
}
