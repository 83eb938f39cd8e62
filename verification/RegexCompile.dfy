// The one-pass compiler of src/regexp.c: it emits instructions while it reads the
// pattern, inserting and copying relative jumps.

module RegexCompile {
  import opened RegexSpec
  import opened RegexMachine
  import opened RegexProgram
  import opened RegexSyntax

  // What a compile step owes to the specification of the parser. z0 and z are the
  // sticky error before and after: a failed resize leaves the reading of the
  // pattern as it is and spoils only the code.
  ghost predicate Outcome(r: Parse, base: seq<Inst>, z0: Error, err: Error, z: Error, pos: nat, code: seq<Inst>) {
    match r
    case Ok(e, i) =>
      err == NoError && pos == i && (z == z0 || z == TooBig) && (z == NoError ==> code == base + Gen(e)) && |code| <= |base| + |Gen(e)|
    case Bad => err != NoError || z != NoError
  }

  // The code grown onto base jumps nowhere outside itself.
  ghost predicate Sealed(base: seq<Inst>, code: seq<Inst>) {
    base <= code && Ends(code[|base|..], |base|, |base|)
  }

  lemma SealedStart(base: seq<Inst>)
    ensures Sealed(base, base)
  {
    assert base[|base|..] == [];
  }

  lemma SealedMore(base: seq<Inst>, code: seq<Inst>, g: seq<Inst>)
    requires Sealed(base, code) && Ends(g, |code|, |code|)
    ensures Sealed(base, code + g)
  {
    hide Ends;
    EndsLower(g, |code|, |code|, |base|);
    CatEnds(code[|base|..], g, |base|, |base|);
    assert (code + g)[|base|..] == code[|base|..] + g;
  }

  lemma SealedTransitive(base: seq<Inst>, code: seq<Inst>, more: seq<Inst>)
    requires Sealed(base, code) && Sealed(code, more)
    ensures Sealed(base, more)
  {
    SealedMore(base, code, more[|code|..]);
    assert code + more[|code|..] == more;
  }

  lemma {:induction false} CopiesEnd(g: seq<Inst>, n: nat, o: nat, at: nat, lo: nat)
    requires Ends(g, o, lo) && o <= at
    ensures Ends(Copies(g, n), at, lo) && Ends(Options(g, n), at, lo)
  {
    hide Ends, OptCode;
    if n == 0 {
      EmptyEnds(at, lo, o, g);
    } else {
      CopiesEnd(g, n - 1, o, at, lo);
      EndsShift(g, o, lo, at + |Copies(g, n - 1)| - o);
      CatEnds(Copies(g, n - 1), g, at, lo);
      EndsShift(g, o, lo, at + |Options(g, n - 1)| - o);
      OptEnds(g, at + |Options(g, n - 1)|, lo);
      CatEnds(Options(g, n - 1), OptCode(g), at, lo);
    }
  }

  lemma EmptyEnds(at: nat, lo: nat, o: nat, g: seq<Inst>)
    requires Ends(g, o, lo) && o <= at
    ensures Ends([], at, lo)
  {
  }

  lemma SplitEnds(u: seq<Inst>, g: seq<Inst>, q: seq<Inst>, o: int)
    requires Ends(u + g, o, o) && |g| <= |q| && (Ends(g, o + |u|, o) ==> Ends(q, o + |u|, o))
    ensures Ends(u + q, o, o)
  {
    assert AllSafe(g, o + |u|, o, o + |u| + |g|) by {
      forall k | 0 <= k < |g| ensures StepSafe(g[k], o + |u| + k, o, o + |u| + |g|) {
        assert (u + g)[|u| + k] == g[k];
        assert StepSafe((u + g)[|u| + k], o + (|u| + k), o, o + |u + g|);
      }
    }
    assert AllSafe(u, o, o, o + |u| + |q|) by {
      forall k | 0 <= k < |u| ensures StepSafe(u[k], o + k, o, o + |u| + |q|) {
        assert (u + g)[k] == u[k];
        assert StepSafe((u + g)[k], o + k, o, o + |u + g|);
      }
    }
    AllSafeJoin(u, q, o, o, o + |u| + |q|);
  }

  // Quantifying the tail of sealed code leaves it sealed, wherever the tail starts.
  lemma QuantifiedSealed(base: seq<Inst>, pre: seq<Inst>, g: seq<Inst>, q: Quant, code: seq<Inst>)
    requires base <= pre && Sealed(base, pre + g) && QuantOk(q) && code == pre + QuantCode(q, g)
    ensures Sealed(base, code)
  {
    hide Ends, StarCode, PlusCode, OptCode, Copies, Options;
    var o, u, h := |base|, pre[|base|..], QuantCode(q, g);
    assert (pre + g)[o..] == u + g && code[o..] == u + h;
    QuantCodeLong(q, g);
    if Ends(g, o + |u|, o) {
      StarEnds(g, o + |u|, o);
      PlusEnds(g, o + |u|, o);
      OptEnds(g, o + |u|, o);
      if q.QCount? {
        CopiesEnd(g, q.m, o + |u|, o + |u|, o);
        CopiesEnd(g, q.n - q.m, o + |u|, o + |u| + |Copies(g, q.m)|, o);
        CatEnds(Copies(g, q.m), Options(g, q.n - q.m), o + |u|, o);
      }
    }
    SplitEnds(u, g, h, o);
  }

  // The reading of the pattern still follows the specification.
  ghost predicate Live(spec: Parse, z: Error) {
    spec.Ok? || z == NoError
  }

  // ----- repetition ---------------------------------------------------------------------

  // The loop over decimal digits.
  method ReadNumber(p: ReCompiled) returns (n: nat, ok: bool)
    requires p.pos <= |p.sIn|
    modifies p`pos
    ensures old(p.pos) <= p.pos <= |p.sIn|
    ensures var r := ParseNumber(p.sIn, old(p.pos), 0, p.mxAlloc);
            if ok then r == Number(n, p.pos) else r == TooBigNumber
  {
    n := 0;
    while IsDecimal(Peek(p.sIn, p.pos))
      invariant old(p.pos) <= p.pos <= |p.sIn|
      invariant ParseNumber(p.sIn, old(p.pos), 0, p.mxAlloc) == ParseNumber(p.sIn, p.pos, n, p.mxAlloc)
      decreases |p.sIn| - p.pos
    {
      n := n * 10 + p.sIn[p.pos] - '0' as int;
      if n * 2 > p.mxAlloc {
        return n, false;
      }
      p.pos := p.pos + 1;
    }
    return n, true;
  }

  // "m,n}" after the opening brace.
  method ReadCount(p: ReCompiled) returns (m: nat, n: nat, err: Error)
    requires p.pos <= |p.sIn|
    modifies p`pos
    ensures old(p.pos) <= p.pos <= |p.sIn|
    ensures var r := ParseCount(p.sIn, old(p.pos), p.mxAlloc);
            if err == NoError then r == Count(m, n, p.pos) else r == BadCount
  {
    var ok;
    m, ok := ReadNumber(p);
    n := m;
    if !ok {
      return m, n, TooBig;
    }
    if Peek(p.sIn, p.pos) == ',' as int {
      p.pos := p.pos + 1;
      n, ok := ReadNumber(p);
      if !ok {
        return m, n, TooBig;
      }
    }
    if Peek(p.sIn, p.pos) != '}' as int {
      return m, n, UnmatchedBrace;
    }
    if n < m {
      return m, n, CountOrder;
    }
    if m == 0 && n == 0 {
      return m, n, CountZero;
    }
    p.pos := p.pos + 1;
    return m, n, NoError;
  }

  // ----- the loops of the {m,n} expansion ----------------------------------------------

  lemma SliceOf(a: seq<Inst>, g: seq<Inst>, b: seq<Inst>)
    ensures (a + g + b)[|a|..|a| + |g|] == g
  {
  }

  lemma PrefixSlice(base: seq<Inst>, more: seq<Inst>, i: nat, n: nat)
    requires i + n <= |base|
    ensures (base + more)[i..i + n] == base[i..i + n]
  {
  }

  lemma OneCopy(g: seq<Inst>)
    ensures Copies(g, 1) == g
  {
  }

  // k further copies of the sz instructions at iPrev.
  method CopyMany(p: ReCompiled, iPrev: nat, sz: nat, k: nat, ghost pre: seq<Inst>, ghost g: seq<Inst>)
    requires p.Valid() && iPrev + sz <= p.nState
    modifies p`aOp, p`aArg, p`nState, p`nAlloc, p`zErr, p`code, p.aOp, p.aArg
    ensures p.Valid() && (p.aOp == old(p.aOp) || fresh(p.aOp)) && (p.aArg == old(p.aArg) || fresh(p.aArg))
    ensures (p.zErr == old(p.zErr) || p.zErr == TooBig) && p.Progress(old(p.zErr)) && |old(p.code)| <= |p.code| <= |old(p.code)| + k * sz
    ensures p.zErr == NoError && old(p.code) == pre + g && iPrev == |pre| && sz == |g| ==>
      p.code == pre + Copies(g, k + 1)
  {
    hide Copies, ReCompiled.Mirrors, ReCompiled.Full;
    ghost var good := p.code == pre + g && iPrev == |pre| && sz == |g|;
    OneCopy(g);
    for j := 0 to k
      invariant p.Valid() && (p.aOp == old(p.aOp) || fresh(p.aOp)) && (p.aArg == old(p.aArg) || fresh(p.aArg))
      invariant (p.zErr == old(p.zErr) || p.zErr == TooBig) && p.Progress(old(p.zErr)) && |old(p.code)| <= |p.code| <= |old(p.code)| + j * sz
      invariant good && p.zErr == NoError ==> p.code == pre + Copies(g, j + 1)
    {
      OneMoreTime(j, sz);
      p.Copy(iPrev, sz);
      if good && p.zErr == NoError {
        CopyStep(pre, g, j + 1);
      }
    }
  }

  lemma OneMoreTime(j: nat, x: nat)
    ensures (j + 1) * x == j * x + x
  {
  }

  lemma CopyStep(pre: seq<Inst>, g: seq<Inst>, j: nat)
    requires j > 0
    ensures (pre + Copies(g, j))[|pre|..|pre| + |g|] == g
    ensures pre + Copies(g, j) + g == pre + Copies(g, j + 1)
  {
    CopiesFront(g, j);
    SliceOf(pre, g, Copies(g, j - 1));
    assert pre + Copies(g, j) == pre + g + Copies(g, j - 1);
    assert pre + Copies(g, j) + g == pre + (Copies(g, j) + g);
  }

  // k optional copies: a FORK over the copy, then the copy.
  method OptionMany(p: ReCompiled, iPrev: nat, sz: nat, k: nat, ghost base: seq<Inst>, ghost g: seq<Inst>)
    requires p.Valid() && (iPrev + sz <= p.nState || p.Full()) && sz <= p.nState
    modifies p`aOp, p`aArg, p`nState, p`nAlloc, p`zErr, p`code, p.aOp, p.aArg
    ensures p.Valid() && (p.aOp == old(p.aOp) || fresh(p.aOp)) && (p.aArg == old(p.aArg) || fresh(p.aArg))
    ensures (p.zErr == old(p.zErr) || p.zErr == TooBig) && p.Progress(old(p.zErr))
    ensures |old(p.code)| <= |p.code| <= |old(p.code)| + k * (sz + 1)
    ensures p.zErr == NoError && old(p.code) == base && iPrev + sz <= |base| && base[iPrev..iPrev + sz] == g ==>
      p.code == base + Options(g, k)
  {
    hide Options, ReCompiled.Valid, ReCompiled.Full;
    ghost var good := p.code == base && iPrev + sz <= |base| && base[iPrev..iPrev + sz] == g;
    NoOptions(base, g);
    ValidCount(p);
    for j := 0 to k
      invariant p.Valid() && (p.aOp == old(p.aOp) || fresh(p.aOp)) && (p.aArg == old(p.aArg) || fresh(p.aArg))
      invariant (p.zErr == old(p.zErr) || p.zErr == TooBig) && p.Progress(old(p.zErr))
      invariant |old(p.code)| <= |p.code| <= |old(p.code)| + j * (sz + 1)
      invariant sz <= p.nState && (iPrev + sz <= p.nState || p.Full())
      invariant good && p.zErr == NoError ==> p.code == base + Options(g, j)
    {
      OneMoreTime(j, sz + 1);
      OneOption(p, iPrev, sz, j, base, g);
    }
  }

  // One of them.
  method OneOption(p: ReCompiled, iPrev: nat, sz: nat, ghost j: nat, ghost base: seq<Inst>, ghost g: seq<Inst>)
    requires p.Valid() && (iPrev + sz <= p.nState || p.Full()) && sz <= p.nState
    modifies p`aOp, p`aArg, p`nState, p`nAlloc, p`zErr, p`code, p.aOp, p.aArg
    ensures p.Valid() && (p.aOp == old(p.aOp) || fresh(p.aOp)) && (p.aArg == old(p.aArg) || fresh(p.aArg))
    ensures (p.zErr == old(p.zErr) || p.zErr == TooBig) && p.Progress(old(p.zErr))
    ensures |old(p.code)| <= |p.code| <= |old(p.code)| + sz + 1 && sz <= p.nState && (iPrev + sz <= p.nState || p.Full())
    ensures p.zErr == NoError && iPrev + sz <= |base| && base[iPrev..iPrev + sz] == g && old(p.code) == base + Options(g, j) ==>
      p.code == base + Options(g, j + 1)
  {
    hide Options, ReCompiled.Mirrors;
    var i := p.Append(FORK, sz + 1);
    p.Copy(iPrev, sz);
    if p.zErr == NoError && iPrev + sz <= |base| && base[iPrev..iPrev + sz] == g && old(p.code) == base + Options(g, j) {
      OptionStep(base, g, j, iPrev);
    }
  }

  lemma ValidCount(p: ReCompiled)
    requires p.Valid()
    ensures p.nState == |p.code|
  {
    hide ReCompiled.Mirrors;
  }

  lemma NoOptions(base: seq<Inst>, g: seq<Inst>)
    ensures base == base + Options(g, 0)
  {
  }

  lemma OptionStep(base: seq<Inst>, g: seq<Inst>, j: nat, i: nat)
    requires i + |g| <= |base| && base[i..i + |g|] == g
    ensures (base + Options(g, j) + [Inst(FORK, |g| + 1)])[i..i + |g|] == g
    ensures base + Options(g, j) + [Inst(FORK, |g| + 1)] + g == base + Options(g, j + 1)
  {
    var o, f := Options(g, j), [Inst(FORK, |g| + 1)];
    assert base + o + f == base + (o + f);
    PrefixSlice(base, o + f, i, |g|);
    assert base + o + f + g == base + (o + (f + g));
  }

  // The expansion of X{m,n}: copies of X, then copies of X?.
  method Repeat(p: ReCompiled, iPrev: nat, m: nat, n: nat, ghost pre: seq<Inst>, ghost g: seq<Inst>)
    requires p.Valid() && iPrev <= p.nState && m <= n && n > 0
    modifies p`aOp, p`aArg, p`nState, p`nAlloc, p`zErr, p`code, p.aOp, p.aArg
    ensures p.Valid() && (p.aOp == old(p.aOp) || fresh(p.aOp)) && (p.aArg == old(p.aArg) || fresh(p.aArg))
    ensures (p.zErr == old(p.zErr) || p.zErr == TooBig) && p.Progress(old(p.zErr))
    ensures |old(p.code)| <= |p.code| <= iPrev + QuantLength(QCount(m, n), |old(p.code)| - iPrev)
    ensures p.zErr == NoError && old(p.code) == pre + g && iPrev == |pre| ==>
      p.code == pre + (Copies(g, m) + Options(g, n - m))
  {
    hide OptCode, Copies, Options, ReCompiled.Mirrors;
    var sz := p.nState - iPrev;
    OneMoreTime(n - 1, sz + 1);
    if m == 0 {
      var i := p.Insert(iPrev, FORK, sz + 1);
      InsertOption(pre, g);
      OptionMany(p, iPrev + 1, sz, n - 1, pre + OptCode(g), g);
      OptionsTotal(pre, g, n);
    } else {
      OneMoreTime(m - 1, sz);
      CopyMany(p, iPrev, sz, m - 1, pre, g);
      CopyStep(pre, g, m);
      OptionMany(p, iPrev, sz, n - m, pre + Copies(g, m), g);
      assert pre + Copies(g, m) + Options(g, n - m) == pre + (Copies(g, m) + Options(g, n - m));
    }
  }

  lemma InsertOption(pre: seq<Inst>, g: seq<Inst>)
    ensures (pre + g)[..|pre|] + [Inst(FORK, |g| + 1)] + (pre + g)[|pre|..] == pre + OptCode(g)
    ensures |pre + OptCode(g)| == |pre| + 1 + |g|
    ensures (pre + OptCode(g))[|pre| + 1..|pre| + 1 + |g|] == g
  {
    assert (pre + g)[..|pre|] == pre && (pre + g)[|pre|..] == g;
    var f := [Inst(FORK, |g| + 1)];
    assert pre + (f + g) == (pre + f) + g;
    SliceOf(pre + f, g, []);
    assert pre + f + g + [] == pre + f + g;
  }

  lemma OptionsTotal(pre: seq<Inst>, g: seq<Inst>, n: nat)
    requires n > 0
    ensures pre + OptCode(g) + Options(g, n - 1) == pre + (Copies(g, 0) + Options(g, n))
  {
    hide OptCode;
    OptionsFront(g, n);
    assert pre + OptCode(g) + Options(g, n - 1) == pre + (OptCode(g) + Options(g, n - 1));
    assert Copies(g, 0) + Options(g, n) == Options(g, n);
  }

  // ----- escapes and classes -------------------------------------------------------------

  const ESCAPES: string := "afnrtv\\()*.+?[$^{|}]-" // zEsc
  const TRANSLATED: seq<int> := [7, 12, 10, 13, 9, 11] // zTrans

  // re_hex
  method ReadHexDigit(c: int, v: int) returns (w: int, ok: bool)
    ensures ok <==> IsHex(c)
    ensures w == if ok then v * 16 + HexValue(c) else v
  {
    var d;
    if '0' as int <= c <= '9' as int {
      d := c - '0' as int;
    } else if 'a' as int <= c <= 'f' as int {
      d := c - ('a' as int - 10);
    } else if 'A' as int <= c <= 'F' as int {
      d := c - ('A' as int - 10);
    } else {
      return v, false;
    }
    return v * 16 + d, true;
  }

  method ReadHexPair(z: seq<int>, i: nat, v: int) returns (w: int, ok: bool)
    requires i + 2 <= |z|
    ensures ok <==> HexAt(z, i, 2)
    ensures ok ==> w == (v * 16 + HexValue(z[i])) * 16 + HexValue(z[i + 1])
  {
    w, ok := ReadHexDigit(z[i], v);
    if ok {
      w, ok := ReadHexDigit(z[i + 1], w);
    }
  }

  // Where the character stands among those that re_esc_char knows.
  method FindEscape(c: int) returns (k: nat)
    ensures k <= |ESCAPES| && (k < |ESCAPES| ==> ESCAPES[k] as int == c)
    ensures forall j :: 0 <= j < k ==> ESCAPES[j] as int != c
  {
    k := 0;
    while k < |ESCAPES| && ESCAPES[k] as int != c
      invariant k <= |ESCAPES|
      invariant forall j :: 0 <= j < k ==> ESCAPES[j] as int != c
    {
      k := k + 1;
    }
  }

  // The table gives what the specification says of a character after a backslash.
  lemma EscapeTable(z: seq<int>, i: nat, k: nat)
    requires i < |z| && k <= |ESCAPES| && (k < |ESCAPES| ==> ESCAPES[k] as int == z[i])
    requires forall j :: 0 <= j < k ==> ESCAPES[j] as int != z[i]
    requires !(z[i] == 'u' as int && i + 4 < |z| && HexAt(z, i + 1, 4)) && !(z[i] == 'x' as int && i + 2 < |z| && HexAt(z, i + 1, 2))
    ensures EscChar(z, i) == if k == |ESCAPES| then Escape(z[i], i, false) else Escape(if k < 6 then TRANSLATED[k] else z[i], i + 1, true)
  {
    assert |ESCAPES| == |PUNCTUATION| + 6;
    assert forall j :: 0 <= j < |PUNCTUATION| ==> PUNCTUATION[j] == ESCAPES[j + 6];
    if k < |ESCAPES| {
      if k >= 6 {
        assert PUNCTUATION[k - 6] as int == z[i];
      }
    } else {
      assert ESCAPES[0] == 'a' && ESCAPES[1] == 'f' && ESCAPES[2] == 'n' && ESCAPES[3] == 'r' && ESCAPES[4] == 't' && ESCAPES[5] == 'v';
    }
  }

  lemma FourDigits(z: seq<int>, i: nat)
    requires i + 4 <= |z|
    ensures HexAt(z, i, 4) <==> HexAt(z, i, 2) && HexAt(z, i + 2, 2)
    ensures HexAt(z, i, 2) ==> HexNumber(z, i, 2) == HexValue(z[i]) * 16 + HexValue(z[i + 1])
    ensures HexAt(z, i, 4) ==> HexNumber(z, i, 4) == (HexNumber(z, i, 2) * 16 + HexValue(z[i + 2])) * 16 + HexValue(z[i + 3])
  {
    if HexAt(z, i, 2) {
      TwoDigits(z, i);
    }
    if HexAt(z, i, 4) {
      assert HexNumber(z, i, 4) == HexNumber(z, i, 3) * 16 + HexValue(z[i + 3]);
      assert HexNumber(z, i, 3) == HexNumber(z, i, 2) * 16 + HexValue(z[i + 2]);
    }
  }

  lemma TwoDigits(z: seq<int>, i: nat)
    requires HexAt(z, i, 2)
    ensures HexNumber(z, i, 2) == HexValue(z[i]) * 16 + HexValue(z[i + 1])
  {
    assert HexNumber(z, i, 0) == 0;
    assert HexNumber(z, i, 1) == HexValue(z[i]);
  }

  // re_esc_char; an unknown escape is remembered in zErr and compilation goes on.
  method ReadEscape(p: ReCompiled) returns (c: int)
    requires p.pos <= |p.sIn|
    modifies p`pos, p`zErr
    ensures old(p.pos) <= p.pos <= |p.sIn|
    ensures var e := EscChar(p.sIn, old(p.pos));
            c == e.c && p.pos == e.i && p.zErr == if e.known then old(p.zErr) else UnknownEscape
  {
    hide HexNumber;
    var z, i := p.sIn, p.pos;
    if i >= |z| {
      return 0;
    }
    c := z[i];
    if c == 'u' as int && i + 4 < |z| {
      FourDigits(z, i + 1);
      var v, ok := ReadHexPair(z, i + 1, 0);
      if ok {
        v, ok := ReadHexPair(z, i + 3, v);
      }
      if ok {
        p.pos := i + 5;
        return v;
      }
    }
    if c == 'x' as int && i + 2 < |z| {
      var v, ok := ReadHexPair(z, i + 1, 0);
      if ok {
        TwoDigits(z, i + 1);
        p.pos := i + 3;
        return v;
      }
    }
    var k := FindEscape(c);
    EscapeTable(z, i, k);
    if k < |ESCAPES| {
      if k < 6 {
        c := TRANSLATED[k];
      }
      p.pos := i + 1;
    } else {
      p.zErr := UnknownEscape;
    }
  }

  method ReadMember(p: ReCompiled) returns (c: int)
    requires p.pos < |p.sIn|
    modifies p`pos, p`zErr
    ensures old(p.pos) < p.pos <= |p.sIn|
    ensures var e := MemberChar(p.sIn, old(p.pos));
            c == e.c && p.pos == e.i && p.zErr == if e.known then old(p.zErr) else UnknownEscape
  {
    c := p.sIn[p.pos];
    p.pos := p.pos + 1;
    if c == '\\' as int {
      c := ReadEscape(p);
    }
  }

  // The members read so far, followed by those still to come.
  function Total(done: seq<Item>, rest: Members): Members {
    if rest.BadMembers? then BadMembers else Members(done + rest.items, rest.i)
  }

  lemma {:induction false} GenItemsAppend(a: seq<Item>, b: seq<Item>)
    ensures GenItems(a + b) == GenItems(a) + GenItems(b)
  {
    if a == [] {
      assert a + b == b;
    } else {
      assert (a + b)[1..] == a[1..] + b && (a + b)[0] == a[0];
      GenItemsAppend(a[1..], b);
    }
  }

  lemma GenItemsStep(pre: seq<Inst>, done: seq<Item>, item: Item)
    ensures item.Value? ==> pre + GenItems(done) + [Inst(CC_VALUE, item.c)] == pre + GenItems(done + [item])
    ensures item.Range? ==>
      pre + GenItems(done) + [Inst(CC_RANGE, item.lo)] + [Inst(CC_RANGE, item.hi)] == pre + GenItems(done + [item])
  {
    GenItemsAppend(done, [item]);
    var g := GenItems([item]);
    assert g == match item case Value(c) => [Inst(CC_VALUE, c)] case Range(l, h) => [Inst(CC_RANGE, l)] + [Inst(CC_RANGE, h)];
    assert pre + GenItems(done) + g == pre + (GenItems(done) + g);
    if item.Range? {
      assert pre + GenItems(done) + [Inst(CC_RANGE, item.lo)] + [Inst(CC_RANGE, item.hi)]
          == pre + GenItems(done) + ([Inst(CC_RANGE, item.lo)] + [Inst(CC_RANGE, item.hi)]);
    }
  }

  // One member and its instructions; the last character read is returned.
  method CompileMember(p: ReCompiled, ghost pre: seq<Inst>, ghost done: seq<Item>)
    returns (c: int, err: Error, ghost item: Item)
    requires p.Valid() && p.pos < |p.sIn|
    modifies p`aOp, p`aArg, p`nState, p`nAlloc, p`zErr, p`code, p`pos, p.aOp, p.aArg
    ensures p.Valid() && (p.aOp == old(p.aOp) || fresh(p.aOp)) && (p.aArg == old(p.aArg) || fresh(p.aArg))
    ensures p.Progress(old(p.zErr)) && old(p.pos) < p.pos <= |p.sIn|
    ensures |old(p.code)| <= |p.code| <= |old(p.code)| + if item.Range? then 2 else 1
    ensures var m := ClassMembers(p.sIn, old(p.pos));
            (err != NoError ==> m == BadMembers) &&
            (m.Members? ==> p.zErr == old(p.zErr) || p.zErr == TooBig) &&
            (err == NoError && (m.Members? || p.zErr == NoError) ==>
              m == if p.pos < |p.sIn| then MoreMembers(p.sIn, item, Escape(c, p.pos, true)) else BadMembers)
    ensures p.zErr == NoError && err == NoError && old(p.code) == pre + GenItems(done) ==>
      p.code == pre + GenItems(done + [item])
  {
    hide GenItems, ReCompiled.Valid, ReCompiled.Full, EscChar, MemberChar, MoreMembers;
    item := Value(0);
    ghost var i0 := p.pos;
    if p.sIn[p.pos] == '[' as int && Peek(p.sIn, p.pos + 1) == ':' as int {
      p.pos := p.pos + 1;
      return 0, PosixClass, item;
    }
    c := ReadMember(p);
    var i;
    if Peek(p.sIn, p.pos) == '-' as int {
      i := p.Append(CC_RANGE, c);
      var lo := c;
      p.pos := p.pos + 1;
      if p.pos == |p.sIn| {
        c := 0;
      } else {
        c := ReadMember(p);
      }
      i := p.Append(CC_RANGE, c);
      item := Range(lo, c);
    } else {
      i := p.Append(CC_VALUE, c);
      item := Value(c);
    }
    GenItemsStep(pre, done, item);
    return c, NoError, item;
  }

  // The loop over the members, up to and including the closing bracket.
  method CompileMembers(p: ReCompiled, ghost pre: seq<Inst>) returns (err: Error)
    requires p.Valid() && p.pos <= |p.sIn| && (p.zErr == NoError ==> p.code == pre) && |p.code| <= |pre|
    modifies p`aOp, p`aArg, p`nState, p`nAlloc, p`zErr, p`code, p`pos, p.aOp, p.aArg
    ensures p.Valid() && (p.aOp == old(p.aOp) || fresh(p.aOp)) && (p.aArg == old(p.aArg) || fresh(p.aArg))
    ensures p.Progress(old(p.zErr)) && |old(p.code)| <= |p.code| && old(p.pos) <= p.pos <= |p.sIn|
    ensures MembersOutcome(ClassMembers(p.sIn, old(p.pos)), pre, old(p.zErr), err, p.zErr, p.pos, p.code)
  {
    hide GenItems, ClassMembers, MoreMembers, ReCompiled.Valid, ReCompiled.Full, MembersSoFar, MembersOutcome;
    ghost var spec, done: seq<Item> := ClassMembers(p.sIn, p.pos), [];
    NoMembersYet(p.sIn, p.pos, pre, p.zErr, p.code);
    while p.pos < |p.sIn|
      invariant p.Valid() && (p.aOp == old(p.aOp) || fresh(p.aOp)) && (p.aArg == old(p.aArg) || fresh(p.aArg))
      invariant p.Progress(old(p.zErr)) && |old(p.code)| <= |p.code| && old(p.pos) <= p.pos <= |p.sIn|
      invariant MembersSoFar(spec, p.sIn, p.pos, pre, done, old(p.zErr), p.zErr, p.code)
      decreases |p.sIn| - p.pos
    {
      ghost var was, z, code := p.pos, p.zErr, p.code;
      var c;
      ghost var item;
      c, err, item := CompileMember(p, pre, done);
      if err != NoError {
        MembersFail(spec, p.sIn, was, pre, done, old(p.zErr), z, code, err, p.zErr, p.pos, p.code);
        return err;
      }
      if Peek(p.sIn, p.pos) == ']' as int {
        MembersEnd(spec, p.sIn, was, pre, done, old(p.zErr), z, code, item, Escape(c, p.pos, true), p.zErr, p.code);
        p.pos := p.pos + 1;
        return if c == 0 then UnclosedClass else NoError;
      }
      MembersMore(spec, p.sIn, was, pre, done, old(p.zErr), z, code, item, Escape(c, p.pos, true), p.zErr, p.code);
      done := done + [item];
    }
    MembersOpen(spec, p.sIn, pre, done, old(p.zErr), p.zErr, p.code);
    return UnclosedClass;
  }

  // What is known in front of position pos: with done read, the rest decides.
  ghost predicate MembersSoFar(spec: Members, s: seq<int>, pos: nat, pre: seq<Inst>, done: seq<Item>, z0: Error, z: Error, code: seq<Inst>) {
    pos <= |s| && (spec.Members? ==> z == z0 || z == TooBig) &&
    (spec.Members? || z == NoError ==> spec == Total(done, ClassMembers(s, pos))) && (z == NoError ==> code == pre + GenItems(done)) &&
    |code| <= |pre| + |GenItems(done)|
  }

  lemma NoMembersYet(s: seq<int>, pos: nat, pre: seq<Inst>, z: Error, code: seq<Inst>)
    requires pos <= |s| && (z == NoError ==> code == pre) && |code| <= |pre|
    ensures MembersSoFar(ClassMembers(s, pos), s, pos, pre, [], z, z, code)
  {
    hide ClassMembers;
    NoItemsNoCode();
    assert pre + [] == pre;
    var m := ClassMembers(s, pos);
    assert m.Members? ==> [] + m.items == m.items;
  }

  // What CompileMember says of one member read from position was to e.i.
  ghost predicate OneRead(spec: Members, s: seq<int>, was: nat, pre: seq<Inst>, done: seq<Item>, z0: Error, z: Error, code: seq<Inst>, item: Item, e: Escape,
                          z': Error, code': seq<Inst>) {
    var m := if was <= |s| then ClassMembers(s, was) else BadMembers;
    MembersSoFar(spec, s, was, pre, done, z0, z, code) && was < e.i <= |s| && (z != NoError ==> z' != NoError) &&
    (m.Members? ==> z' == z || z' == TooBig) &&
    (m.Members? || z' == NoError ==> m == if e.i < |s| then MoreMembers(s, item, e) else BadMembers) &&
    (z' == NoError ==> (code == pre + GenItems(done) ==> code' == pre + GenItems(done + [item]))) &&
    |code'| <= |code| + if item.Range? then 2 else 1
  }

  lemma MembersFail(spec: Members, s: seq<int>, was: nat, pre: seq<Inst>, done: seq<Item>, z0: Error, z: Error, code: seq<Inst>, err: Error,
                    z': Error, pos: nat, code': seq<Inst>)
    requires MembersSoFar(spec, s, was, pre, done, z0, z, code) && err != NoError && ClassMembers(s, was) == BadMembers
    ensures MembersOutcome(spec, pre, z0, err, z', pos, code')
  {
  }

  lemma MembersEnd(spec: Members, s: seq<int>, was: nat, pre: seq<Inst>, done: seq<Item>, z0: Error, z: Error, code: seq<Inst>, item: Item, e: Escape,
                   z': Error, code': seq<Inst>)
    requires OneRead(spec, s, was, pre, done, z0, z, code, item, e, z', code') && Peek(s, e.i) == ']' as int
    ensures MembersOutcome(spec, pre, z0, if e.c == 0 then UnclosedClass else NoError, z', e.i + 1, code')
  {
    hide ClassMembers, MoreMembers, GenItems;
    if spec.Members? || z' == NoError {
      LastMember(s, was, item, e, done);
    }
    OneItemLong(done, item);
  }

  lemma MembersMore(spec: Members, s: seq<int>, was: nat, pre: seq<Inst>, done: seq<Item>, z0: Error, z: Error, code: seq<Inst>, item: Item, e: Escape,
                    z': Error, code': seq<Inst>)
    requires OneRead(spec, s, was, pre, done, z0, z, code, item, e, z', code') && Peek(s, e.i) != ']' as int
    ensures MembersSoFar(spec, s, e.i, pre, done + [item], z0, z', code')
  {
    hide ClassMembers, MoreMembers, GenItems;
    if spec.Members? || z' == NoError {
      NextMember(s, was, item, e, done, e.i);
    }
    OneItemLong(done, item);
  }

  lemma MembersOpen(spec: Members, s: seq<int>, pre: seq<Inst>, done: seq<Item>, z0: Error, z: Error, code: seq<Inst>)
    requires MembersSoFar(spec, s, |s|, pre, done, z0, z, code)
    ensures MembersOutcome(spec, pre, z0, UnclosedClass, z, |s|, code)
  {
    NoMembers(s);
  }

  lemma OneItemLong(done: seq<Item>, item: Item)
    ensures |GenItems(done + [item])| == |GenItems(done)| + if item.Range? then 2 else 1
  {
    GenItemsStep([], done, item);
  }

  ghost predicate MembersOutcome(m: Members, pre: seq<Inst>, z0: Error, err: Error, z: Error, pos: nat, code: seq<Inst>) {
    match m
    case BadMembers => err != NoError || z != NoError
    case Members(items, i) =>
      err == NoError && pos == i && (z == z0 || z == TooBig) && (z == NoError ==> code == pre + GenItems(items)) &&
      |code| <= |pre| + |GenItems(items)|
  }

  lemma NoMembers(s: seq<int>)
    ensures ClassMembers(s, |s|) == BadMembers
  {
  }

  // "[...]" after the opening bracket.
  method CompileClass(p: ReCompiled) returns (err: Error)
    requires p.Valid() && p.pos <= |p.sIn|
    modifies p`aOp, p`aArg, p`nState, p`nAlloc, p`zErr, p`code, p`pos, p.aOp, p.aArg
    ensures p.Valid() && (p.aOp == old(p.aOp) || fresh(p.aOp)) && (p.aArg == old(p.aArg) || fresh(p.aArg))
    ensures p.Progress(old(p.zErr)) && |old(p.code)| <= |p.code| && old(p.pos) <= p.pos <= |p.sIn|
    ensures err == NoError && p.zErr == NoError ==> Sealed(old(p.code), p.code)
    ensures Outcome(ParseClass(p.sIn, old(p.pos)), old(p.code), old(p.zErr), err, p.zErr, p.pos, p.code)
  {
    hide GenItems, ClassMembers, MoreMembers, ReCompiled.Mirrors, ReCompiled.Full, Gen, Ends, ClassCode, Sealed;
    ghost var base := p.code;
    var iFirst := p.nState;
    var neg := Peek(p.sIn, p.pos) == '^' as int;
    var op := if neg then CC_EXC else CC_INC;
    var i := p.Append(op, 0);
    if neg {
      p.pos := p.pos + 1;
    }
    ghost var m := ClassMembers(p.sIn, p.pos);
    err := CompileMembers(p, base + [Inst(op, 0)]);
    if err != NoError {
      return;
    }
    if p.nState > iFirst {
      p.SetArg(iFirst, p.nState - iFirst);
    }
    if m.Members? {
      ClassLong(neg, m.items);
    }
    if p.zErr == NoError {
      ClassPatched(base, op, m.items);
      ClassSealed(base, neg, m.items);
    }
  }

  lemma ClassSealed(base: seq<Inst>, neg: bool, items: seq<Item>)
    ensures Sealed(base, base + ClassCode(neg, items))
  {
    hide Sealed, ClassCode, Ends;
    ClassEnds(neg, items, |base|);
    SealedStart(base);
    SealedMore(base, base, ClassCode(neg, items));
  }

  lemma ClassLong(neg: bool, items: seq<Item>)
    ensures |Gen(Class(neg, items))| == 1 + |GenItems(items)|
  {
  }

  lemma NoItemsNoCode()
    ensures GenItems([]) == []
  {
  }

  lemma ClassPatched(base: seq<Inst>, op: Op, items: seq<Item>)
    requires op == CC_EXC || op == CC_INC
    ensures var g := base + [Inst(op, 0)] + GenItems(items);
            g[|base| := Inst(op, |g| - |base|)] == base + ClassCode(op == CC_EXC, items)
    ensures Gen(Class(op == CC_EXC, items)) == ClassCode(op == CC_EXC, items)
  {
    hide GenItems;
    Replaced(base, Inst(op, 0), Inst(op, |GenItems(items)| + 1), GenItems(items));
  }

  lemma Replaced(base: seq<Inst>, x: Inst, y: Inst, t: seq<Inst>)
    ensures (base + [x] + t)[|base| := y] == base + ([y] + t)
  {
  }

  lemma LastMember(s: seq<int>, i: nat, item: Item, e: Escape, done: seq<Item>)
    requires i < |s| && e.i < |s| && s[e.i] == ']' as int && ClassMembers(s, i) == MoreMembers(s, item, e)
    ensures Total(done, ClassMembers(s, i)) == if e.c == 0 then BadMembers else Members(done + [item], e.i + 1)
  {
  }

  lemma NextMember(s: seq<int>, i: nat, item: Item, e: Escape, done: seq<Item>, pos: nat)
    requires i < |s| && i < e.i == pos <= |s| && Peek(s, e.i) != ']' as int
    requires pos < |s| ==> ClassMembers(s, i) == MoreMembers(s, item, e)
    requires pos == |s| ==> ClassMembers(s, i) == BadMembers
    ensures Total(done, ClassMembers(s, i)) == Total(done + [item], ClassMembers(s, pos))
    ensures pos == |s| ==> Total(done, ClassMembers(s, i)) == BadMembers
  {
    var rest := ClassMembers(s, pos);
    if rest.Members? && pos < |s| {
      assert done + ([item] + rest.items) == done + [item] + rest.items;
    }
  }

  // ----- atoms and quantifiers -------------------------------------------------------------

  // Everything that is neither a quantifier, a group, '|' nor ')'.
  method CompileAtom(p: ReCompiled) returns (err: Error)
    requires p.Valid() && p.pos < |p.sIn|
    modifies p`aOp, p`aArg, p`nState, p`nAlloc, p`zErr, p`code, p`pos, p.aOp, p.aArg
    ensures p.Valid() && (p.aOp == old(p.aOp) || fresh(p.aOp)) && (p.aArg == old(p.aArg) || fresh(p.aArg))
    ensures p.Progress(old(p.zErr)) && |old(p.code)| <= |p.code| && old(p.pos) < p.pos <= |p.sIn|
    ensures err == NoError && p.zErr == NoError ==> Sealed(old(p.code), p.code)
    ensures Outcome(ParseAtom(p.sIn, old(p.pos)), old(p.code), old(p.zErr), err, p.zErr, p.pos, p.code)
  {
    hide ReCompiled.Valid, ParseClass, ParseAtom, EscChar;
    ghost var base, at := p.code, p.pos;
    if p.sIn[p.pos] == '[' as int {
      assert ParseAtom(p.sIn, p.pos) == ParseClass(p.sIn, p.pos + 1) by { AtomIsClass(p.sIn, p.pos); }
      p.pos := p.pos + 1;
      err := CompileClass(p);
      return;
    }
    var op, arg := ReadAtom(p);
    var i := p.Append(op, arg);
    if p.zErr == NoError {
      OneSealed(base, Inst(op, arg));
    }
    return NoError;
  }

  datatype Special = None | Some(op: Op)

  // The escapes that stand for a class of characters or for a word boundary.
  method ReadSpecial(c: int) returns (o: Special)
    ensures match o
            case None => SpecialOp(c) == Empty
            case Some(op) => SpecialOp(c) != Empty && Gen(SpecialOp(c)) == [Inst(op, 0)] && (IsTest(op) || op.BOUNDARY?)
  {
    if c == 'b' as int {
      return Some(BOUNDARY);
    } else if c == 'd' as int {
      return Some(DIGIT);
    } else if c == 'D' as int {
      return Some(NOTDIGIT);
    } else if c == 's' as int {
      return Some(SPACE);
    } else if c == 'S' as int {
      return Some(NOTSPACE);
    } else if c == 'w' as int {
      return Some(WORD);
    } else if c == 'W' as int {
      return Some(NOTWORD);
    }
    return None;
  }

  // The instruction for a single test, and what of the pattern it takes.
  method ReadAtom(p: ReCompiled) returns (op: Op, arg: int)
    requires p.pos < |p.sIn| && p.sIn[p.pos] != '[' as int
    modifies p`pos, p`zErr
    ensures old(p.pos) < p.pos <= |p.sIn| && !op.FORK? && !op.GOTO? && !op.CC_INC? && !op.CC_EXC?
    ensures match ParseAtom(p.sIn, old(p.pos))
            case Ok(r, i) => Gen(r) == [Inst(op, arg)] && p.pos == i && p.zErr == old(p.zErr)
            case Bad => p.zErr == UnknownEscape
  {
    hide ParseClass, EscChar;
    var c := p.sIn[p.pos];
    p.pos := p.pos + 1;
    if c == '.' as int {
      if Peek(p.sIn, p.pos) == '*' as int {
        p.pos := p.pos + 1;
        return ANYSTAR, 0;
      }
      return ANY, 0;
    } else if c == '$' as int {
      return MATCH, EOF_CHAR;
    } else if c == '^' as int {
      return ATSTART, 0;
    } else if c == '\\' as int {
      var special := ReadSpecial(Peek(p.sIn, p.pos));
      if special.Some? {
        p.pos := p.pos + 1;
        return special.op, 0;
      }
      c := ReadEscape(p);
    }
    return MATCH, c;
  }

  lemma AtomIsClass(s: seq<int>, i: nat)
    requires i < |s| && s[i] == '[' as int
    ensures ParseAtom(s, i) == ParseClass(s, i + 1)
  {
  }

  lemma OneSealed(base: seq<Inst>, x: Inst)
    requires !x.op.FORK? && !x.op.GOTO? && !x.op.CC_INC? && !x.op.CC_EXC?
    ensures Sealed(base, base + [x])
  {
    assert (base + [x])[|base|..] == [x];
  }

  lemma InsertStar(pre: seq<Inst>, g: seq<Inst>)
    ensures (pre + g)[..|pre|] + [Inst(GOTO, |g| + 1)] + (pre + g)[|pre|..] + [Inst(FORK, -|g|)] == pre + StarCode(g)
  {
    assert (pre + g)[..|pre|] == pre && (pre + g)[|pre|..] == g;
    var x, y := [Inst(GOTO, |g| + 1)], [Inst(FORK, -|g|)];
    assert pre + x + g + y == pre + (x + g + y);
  }

  lemma AppendPlus(pre: seq<Inst>, g: seq<Inst>)
    ensures pre + g + [Inst(FORK, -|g|)] == pre + PlusCode(g)
  {
    assert pre + g + [Inst(FORK, -|g|)] == pre + (g + [Inst(FORK, -|g|)]);
  }

  method CompileStar(p: ReCompiled, iPrev: nat, ghost pre: seq<Inst>, ghost g: seq<Inst>)
    requires p.Valid() && iPrev <= p.nState
    modifies p`aOp, p`aArg, p`nState, p`nAlloc, p`zErr, p`code, p.aOp, p.aArg
    ensures p.Valid() && (p.aOp == old(p.aOp) || fresh(p.aOp)) && (p.aArg == old(p.aArg) || fresh(p.aArg))
    ensures p.Progress(old(p.zErr)) && (p.zErr == old(p.zErr) || p.zErr == TooBig) && |old(p.code)| <= |p.code| <= |old(p.code)| + 2
    ensures p.zErr == NoError && old(p.code) == pre + g && iPrev == |pre| ==> p.code == pre + StarCode(g)
  {
    hide StarCode, ReCompiled.Mirrors;
    var i := p.Insert(iPrev, GOTO, p.nState - iPrev + 1);
    i := p.Append(FORK, iPrev - p.nState + 1);
    InsertStar(pre, g);
  }

  // '*', '+', '?' or '{' applied to the instructions from iPrev on.
  method CompileQuantifier(p: ReCompiled, iPrev: nat) returns (err: Error)
    requires p.Valid() && p.pos < |p.sIn| && IsQuantifier(p.sIn[p.pos]) && iPrev <= p.nState
    modifies p`aOp, p`aArg, p`nState, p`nAlloc, p`zErr, p`code, p`pos, p.aOp, p.aArg
    ensures p.Valid() && (p.aOp == old(p.aOp) || fresh(p.aOp)) && (p.aArg == old(p.aArg) || fresh(p.aArg))
    ensures p.Progress(old(p.zErr)) && |old(p.code)| <= |p.code| && old(p.pos) < p.pos <= |p.sIn|
    ensures match ParseQuantifier(p.sIn, old(p.pos), p.mxAlloc)
            case BadQuantifier => err != NoError
            case Quantifier(q, i) =>
              err == NoError && p.pos == i && (p.zErr == old(p.zErr) || p.zErr == TooBig) &&
              (p.zErr == NoError ==> p.code == Requantified(q, old(p.code), iPrev)) &&
              |p.code| <= iPrev + QuantLength(q, |old(p.code)| - iPrev)
  {
    hide StarCode, PlusCode, OptCode, ParseCount, Copies, Options, ReCompiled.Mirrors;
    ghost var pre, g := p.code[..iPrev], p.code[iPrev..];
    assert p.code == pre + g;
    var c := p.sIn[p.pos];
    p.pos := p.pos + 1;
    var i;
    if c == '*' as int {
      CompileStar(p, iPrev, pre, g);
    } else if c == '+' as int {
      i := p.Append(FORK, iPrev - p.nState);
      AppendPlus(pre, g);
    } else if c == '?' as int {
      i := p.Insert(iPrev, FORK, p.nState - iPrev + 1);
      InsertOption(pre, g);
    } else {
      var m, n;
      m, n, err := ReadCount(p);
      if err != NoError {
        return;
      }
      Repeat(p, iPrev, m, n, pre, g);
    }
    return NoError;
  }

  // ----- strings and alternatives ------------------------------------------------------------

  lemma GenCat(a: Re, b: Re)
    ensures Gen(Cat(a, b)) == Gen(a) + Gen(b)
  {
  }

  lemma StringEnd(base: seq<Inst>, acc: Re, last: Re)
    ensures base + Gen(acc) + Gen(last) == base + Gen(Cat(acc, last))
  {
    hide Gen;
    GenCat(acc, last);
    assert base + Gen(acc) + Gen(last) == base + (Gen(acc) + Gen(last));
  }

  // One group or atom.
  method CompileItem(p: ReCompiled) returns (err: Error)
    requires p.Valid() && p.pos < |p.sIn|
    modifies p`aOp, p`aArg, p`nState, p`nAlloc, p`zErr, p`code, p`pos, p.aOp, p.aArg
    ensures p.Valid() && (p.aOp == old(p.aOp) || fresh(p.aOp)) && (p.aArg == old(p.aArg) || fresh(p.aArg))
    ensures p.Progress(old(p.zErr)) && |old(p.code)| <= |p.code| && old(p.pos) < p.pos <= |p.sIn|
    ensures err == NoError && p.zErr == NoError ==> Sealed(old(p.code), p.code)
    ensures Outcome(ParseItem(p.sIn, old(p.pos), p.mxAlloc), old(p.code), old(p.zErr), err, p.zErr, p.pos, p.code)
    decreases |p.sIn| - p.pos - 1, 4
  {
    hide ReCompiled.Valid, ParseRe, ParseAtom, Gen;
    if p.sIn[p.pos] == '(' as int {
      p.pos := p.pos + 1;
      err := SubcompileRe(p);
      if err != NoError {
        return;
      }
      if Peek(p.sIn, p.pos) != ')' as int {
        return UnmatchedParen;
      }
      p.pos := p.pos + 1;
      return NoError;
    }
    err := CompileAtom(p);
  }

  // re_subcompile_string
  method SubcompileString(p: ReCompiled) returns (err: Error)
    requires p.Valid() && p.pos <= |p.sIn|
    modifies p`aOp, p`aArg, p`nState, p`nAlloc, p`zErr, p`code, p`pos, p.aOp, p.aArg
    ensures p.Valid() && (p.aOp == old(p.aOp) || fresh(p.aOp)) && (p.aArg == old(p.aArg) || fresh(p.aArg))
    ensures p.Progress(old(p.zErr)) && |old(p.code)| <= |p.code| && old(p.pos) <= p.pos <= |p.sIn|
    ensures err == NoError && p.zErr == NoError ==> Sealed(old(p.code), p.code)
    ensures Outcome(ParseString(p.sIn, old(p.pos), Empty, Nothing, p.mxAlloc), old(p.code), old(p.zErr), err, p.zErr, p.pos, p.code)
    decreases |p.sIn| - p.pos, 0
  {
    hide Gen, ParseItem, ParseQuantifier, ReCompiled.Mirrors, ReCompiled.Full, Ends, Sealed, Requantified, Again, QuantCode, QuantLength, Built, Pending;
    ghost var base, mx := p.code, p.mxAlloc;
    ghost var spec := ParseString(p.sIn, p.pos, Empty, Nothing, mx);
    ghost var acc, last: Last := Empty, Nothing;
    BuiltStart(base, p.zErr);
    SealedStart(base);
    var iPrev := -1;
    while p.pos < |p.sIn| && p.sIn[p.pos] != '|' as int && p.sIn[p.pos] != ')' as int
      invariant p.Valid() && (p.aOp == old(p.aOp) || fresh(p.aOp)) && (p.aArg == old(p.aArg) || fresh(p.aArg))
      invariant p.Progress(old(p.zErr)) && |base| <= |p.code| && old(p.pos) <= p.pos <= |p.sIn|
      invariant p.zErr == NoError ==> Sealed(base, p.code)
      invariant -1 <= iPrev <= p.nState && (iPrev < 0 || |base| <= iPrev) && LastOk(last)
      invariant spec.Ok? ==> p.zErr == old(p.zErr) || p.zErr == TooBig
      invariant Live(spec, p.zErr) ==> spec == ParseString(p.sIn, p.pos, acc, last, mx) && Built(base, acc, last, p.code, p.zErr, iPrev)
      decreases |p.sIn| - p.pos
    {
      var iStart := p.nState;
      ghost var was, at, z := p.code, p.pos, p.zErr;
      if IsQuantifier(p.sIn[p.pos]) {
        if iPrev < 0 {
          if Live(spec, z) {
            BuiltSays(base, acc, last, was, z, iPrev);
          }
          return StarOperand;
        }
        err := CompileQuantifier(p, iPrev);
        if err != NoError {
          return;
        }
        ghost var q := ParseQuantifier(p.sIn, at, mx);
        if p.zErr == NoError {
          RequantifiedSealed(base, was, iPrev, q.q, p.code);
        }
        if Live(spec, p.zErr) {
          BuiltQuantifier(base, acc, last, was, z, iPrev, q.q, p.code, p.zErr);
          last := Again(q.q, last);
        }
      } else {
        err := CompileItem(p);
        if err != NoError {
          return;
        }
        if p.zErr == NoError {
          SealedTransitive(base, was, p.code);
        }
        if Live(spec, p.zErr) {
          ghost var a := ParseItem(p.sIn, at, mx).r;
          BuiltItem(base, acc, last, was, z, iPrev, a, p.code, p.zErr);
          acc, last := Cat(acc, Pending(last)), Atom(a);
        }
      }
      iPrev := iStart;
    }
    if Live(spec, p.zErr) {
      BuiltEnd(base, acc, last, p.code, p.zErr, iPrev);
    }
    return NoError;
  }

  // The code of the items read so far: exactly theirs while there is room, and never longer.
  ghost predicate Built(base: seq<Inst>, acc: Re, last: Last, code: seq<Inst>, z: Error, iPrev: int) {
    LastOk(last) && (last.Nothing? <==> iPrev < 0) && iPrev <= |code| &&
    (z == NoError ==> code == base + Gen(acc) + Gen(Pending(last)) && (!last.Nothing? ==> iPrev == |base + Gen(acc)| + From(last))) &&
    |code| <= |base + Gen(acc)| + |Gen(Pending(last))| &&
    (!last.Nothing? ==> iPrev <= |base + Gen(acc)| + From(last) && |code| - iPrev <= |Gen(last.r)| - From(last))
  }

  lemma BuiltStart(base: seq<Inst>, z: Error)
    ensures Built(base, Empty, Nothing, base, z, -1)
  {
    NothingYet(base);
  }

  lemma BuiltSays(base: seq<Inst>, acc: Re, last: Last, code: seq<Inst>, z: Error, iPrev: int)
    requires Built(base, acc, last, code, z, iPrev)
    ensures LastOk(last) && (last.Nothing? <==> iPrev < 0)
  {
  }

  lemma BuiltQuantifier(base: seq<Inst>, acc: Re, last: Last, was: seq<Inst>, z0: Error, iPrev: nat, q: Quant, code: seq<Inst>, z: Error)
    requires Built(base, acc, last, was, z0, iPrev) && QuantOk(q) && iPrev <= |was| <= |code| && (z == NoError ==> z0 == NoError)
    requires (z == NoError ==> code == Requantified(q, was, iPrev)) && |code| <= iPrev + QuantLength(q, |was| - iPrev)
    ensures LastOk(last) && !last.Nothing? && LastOk(Again(q, last)) && Built(base, acc, Again(q, last), code, z, |was|)
  {
    hide Gen, Again, Requantified, QuantCode, QuantLength, LastOk;
    AgainOk(q, last);
    if z == NoError {
      RequantifiedLast(base + Gen(acc), last, q, was, iPrev);
    }
    AgainLong(q, last);
    QuantGrows(q, |was| - iPrev, |Gen(last.r)| - From(last));
  }

  lemma AgainOk(q: Quant, l: Last)
    requires QuantOk(q) && !l.Nothing? && LastOk(l)
    ensures LastOk(Again(q, l)) && Again(q, l).Quantified?
  {
    hide Gen, Requantified, QuantCode;
  }

  lemma BuiltItem(base: seq<Inst>, acc: Re, last: Last, was: seq<Inst>, z0: Error, iPrev: int, a: Re, code: seq<Inst>, z: Error)
    requires Built(base, acc, last, was, z0, iPrev) && |was| <= |code| <= |was| + |Gen(a)| && (z == NoError ==> z0 == NoError && code == was + Gen(a))
    ensures Built(base, Cat(acc, Pending(last)), Atom(a), code, z, |was|)
  {
    hide Gen;
    StringEnd(base, acc, Pending(last));
    CatLong(base, acc, Pending(last));
  }

  lemma BuiltEnd(base: seq<Inst>, acc: Re, last: Last, code: seq<Inst>, z: Error, iPrev: int)
    requires Built(base, acc, last, code, z, iPrev)
    ensures var e := Cat(acc, Pending(last)); (z == NoError ==> code == base + Gen(e)) && |code| <= |base| + |Gen(e)|
  {
    hide Gen;
    StringEnd(base, acc, Pending(last));
    CatLong(base, acc, Pending(last));
  }

  lemma CatLong(base: seq<Inst>, a: Re, b: Re)
    ensures |base + Gen(Cat(a, b))| == |base + Gen(a)| + |Gen(b)|
  {
    GenCat(a, b);
  }

  lemma AgainLong(q: Quant, l: Last)
    requires QuantOk(q) && !l.Nothing? && LastOk(l)
    ensures Again(q, l).s == |Gen(l.r)| && |Gen(Again(q, l).r)| == From(l) + QuantLength(q, |Gen(l.r)| - From(l))
  {
    QuantLengthIs(q, Gen(l.r)[From(l)..]);
    GenQuantify(q, l.r);
    hide Gen, QuantCode;
    assert Gen(l.r)[0..] == Gen(l.r);
  }

  // Where in the code of the last item the next quantifier begins.
  ghost function From(l: Last): nat {
    if l.Quantified? then l.s else 0
  }

  lemma RequantifiedSealed(base: seq<Inst>, was: seq<Inst>, iPrev: nat, q: Quant, code: seq<Inst>)
    requires |base| <= iPrev <= |was| && Sealed(base, was) && QuantOk(q) && code == Requantified(q, was, iPrev)
    ensures Sealed(base, code)
  {
    hide QuantCode, Sealed;
    assert base <= was[..iPrev] && was[..iPrev] + was[iPrev..] == was by { SealedBase(base, was); }
    QuantifiedSealed(base, was[..iPrev], was[iPrev..], q, code);
  }

  lemma SealedBase(base: seq<Inst>, code: seq<Inst>)
    requires Sealed(base, code)
    ensures base <= code
  {
  }

  // A quantifier behind the last item makes the code of that item with the quantifier, and
  // the place for a further one is where the code ended before.
  lemma RequantifiedLast(pre: seq<Inst>, l: Last, q: Quant, was: seq<Inst>, iPrev: nat)
    requires QuantOk(q) && !l.Nothing? && LastOk(l) && was == pre + Gen(l.r) && iPrev == |pre| + From(l)
    ensures Requantified(q, was, iPrev) == pre + Gen(Again(q, l).r) && |was| == |pre| + Again(q, l).s
  {
    hide QuantCode, Gen, Again, From, Requantified;
    AgainCode(l, q);
    CodeBehind(pre, Gen(l.r), From(l), q, was, iPrev);
  }

  lemma AgainCode(l: Last, q: Quant)
    requires QuantOk(q) && !l.Nothing? && LastOk(l)
    ensures From(l) <= |Gen(l.r)| && Gen(Again(q, l).r) == Requantified(q, Gen(l.r), From(l)) && Again(q, l).s == |Gen(l.r)|
  {
    hide QuantCode;
    if l.Atom? {
      hide Gen;
      GenQuantify(q, l.r);
      assert Gen(l.r)[..0] == [] && Gen(l.r)[0..] == Gen(l.r);
    }
  }

  lemma CodeBehind(pre: seq<Inst>, c: seq<Inst>, s: nat, q: Quant, was: seq<Inst>, iPrev: nat)
    requires QuantOk(q) && s <= |c| && was == pre + c && iPrev == |pre| + s
    ensures Requantified(q, was, iPrev) == pre + Requantified(q, c, s)
  {
    hide QuantCode;
    assert was[..iPrev] == pre + c[..s] && was[iPrev..] == c[s..];
    assert (pre + c[..s]) + QuantCode(q, c[s..]) == pre + (c[..s] + QuantCode(q, c[s..]));
  }

  // re_subcompile_re
  method SubcompileRe(p: ReCompiled) returns (err: Error)
    requires p.Valid() && p.pos <= |p.sIn|
    modifies p`aOp, p`aArg, p`nState, p`nAlloc, p`zErr, p`code, p`pos, p.aOp, p.aArg
    ensures p.Valid() && (p.aOp == old(p.aOp) || fresh(p.aOp)) && (p.aArg == old(p.aArg) || fresh(p.aArg))
    ensures p.Progress(old(p.zErr)) && |old(p.code)| <= |p.code| && old(p.pos) <= p.pos <= |p.sIn|
    ensures err == NoError && p.zErr == NoError ==> Sealed(old(p.code), p.code)
    ensures Outcome(ParseRe(p.sIn, old(p.pos), p.mxAlloc), old(p.code), old(p.zErr), err, p.zErr, p.pos, p.code)
    decreases |p.sIn| - p.pos, 2
  {
    hide Gen, ParseString, ReCompiled.Mirrors, AltCode, Ends;
    ghost var base, mx := p.code, p.mxAlloc;
    ghost var spec := ParseRe(p.sIn, p.pos, mx);
    var iStart := p.nState;
    ghost var first := ParseString(p.sIn, p.pos, Empty, Nothing, mx);
    err := SubcompileString(p);
    if err != NoError {
      return;
    }
    ghost var r := if first.Ok? then first.r else Empty;
    while Peek(p.sIn, p.pos) == '|' as int
      invariant p.Valid() && (p.aOp == old(p.aOp) || fresh(p.aOp)) && (p.aArg == old(p.aArg) || fresh(p.aArg))
      invariant p.Progress(old(p.zErr)) && |base| == iStart <= |p.code| && old(p.pos) <= p.pos <= |p.sIn|
      invariant spec.Ok? ==> p.zErr == old(p.zErr) || p.zErr == TooBig
      invariant Live(spec, p.zErr) ==> spec == ParseAlternatives(p.sIn, p.pos, r, mx)
      invariant Live(spec, p.zErr) && p.zErr == NoError ==> p.code == base + Gen(r)
      invariant Live(spec, p.zErr) ==> |p.code| <= |base| + |Gen(r)|
      invariant p.zErr == NoError ==> Sealed(base, p.code)
      decreases |p.sIn| - p.pos
    {
      ghost var next := ParseString(p.sIn, p.pos + 1, Empty, Nothing, mx);
      assert p.zErr == NoError ==> p.code[..iStart] == base;
      err := AddAlternative(p, iStart, base, r, Live(spec, p.zErr));
      if err != NoError {
        return;
      }
      if Live(spec, p.zErr) {
        AltLong(r, next.r);
        r := Alt(r, next.r);
      }
    }
    return NoError;
  }

  // The FORK before the alternatives read so far, and the GOTO after them.
  method OpenAlternative(p: ReCompiled, iStart: nat, ghost base: seq<Inst>, ghost g: seq<Inst>) returns (iGoto: nat)
    requires p.Valid() && iStart <= p.nState
    modifies p`aOp, p`aArg, p`nState, p`nAlloc, p`zErr, p`code, p.aOp, p.aArg
    ensures p.Valid() && (p.aOp == old(p.aOp) || fresh(p.aOp)) && (p.aArg == old(p.aArg) || fresh(p.aArg))
    ensures p.Progress(old(p.zErr)) && (p.zErr == old(p.zErr) || p.zErr == TooBig) && |old(p.code)| <= |p.code| <= |old(p.code)| + 2
    ensures iGoto < |p.code|
    ensures p.zErr == NoError && old(p.code) == base + g && iStart == |base| ==>
      p.code == Opened(base, g) && iGoto == |p.code| - 1
  {
    hide ReCompiled.Mirrors;
    var iEnd := p.nState;
    var i := p.Insert(iStart, FORK, iEnd + 2 - iStart);
    iGoto := p.Append(GOTO, 0);
  }

  ghost function Opened(base: seq<Inst>, g: seq<Inst>): seq<Inst> {
    (base + g)[..|base|] + [Inst(FORK, |g| + 2)] + (base + g)[|base|..] + [Inst(GOTO, 0)]
  }

  // One turn of the loop over '|'.
  method AddAlternative(p: ReCompiled, iStart: nat, ghost base: seq<Inst>, ghost r: Re, ghost good: bool) returns (err: Error)
    requires p.Valid() && p.pos < |p.sIn| && iStart <= p.nState
    requires good && p.zErr == NoError ==> p.code == base + Gen(r) && iStart == |base|
    modifies p`aOp, p`aArg, p`nState, p`nAlloc, p`zErr, p`code, p`pos, p.aOp, p.aArg
    ensures p.Valid() && (p.aOp == old(p.aOp) || fresh(p.aOp)) && (p.aArg == old(p.aArg) || fresh(p.aArg))
    ensures p.Progress(old(p.zErr)) && |old(p.code)| <= |p.code| && old(p.pos) < p.pos <= |p.sIn|
    ensures err == NoError && p.zErr == NoError && Sealed(old(p.code)[..iStart], old(p.code)) ==>
      Sealed(old(p.code)[..iStart], p.code)
    ensures var next := ParseString(p.sIn, old(p.pos) + 1, Empty, Nothing, p.mxAlloc);
            if next.Ok? then
              err == NoError && p.pos == next.i && (p.zErr == old(p.zErr) || p.zErr == TooBig) &&
              (good && p.zErr == NoError ==> p.code == base + Gen(Alt(r, next.r))) && |p.code| <= |old(p.code)| + 2 + |Gen(next.r)|
            else next.Bad? ==> err != NoError || p.zErr != NoError
    decreases |p.sIn| - p.pos, 1
  {
    hide Gen, ParseString, ReCompiled.Mirrors, ReCompiled.Full, AltCode, Opened, Sealed, Ends, GenItems;
    ghost var next := ParseString(p.sIn, p.pos + 1, Empty, Nothing, p.mxAlloc);
    ghost var pre, g := p.code[..iStart], p.code[iStart..];
    assert p.code == pre + g;
    assert good && p.zErr == NoError ==> pre == base && g == Gen(r);
    var iGoto := OpenAlternative(p, iStart, pre, g);
    p.pos := p.pos + 1;
    err := SubcompileString(p);
    if err != NoError {
      return;
    }
    ghost var h := if p.zErr == NoError then SealedTail(Opened(pre, g), p.code) else [];
    CloseAlternative(p, iGoto, pre, g, h);
    if next.Ok? {
      assert p.zErr == NoError ==> h == Gen(next.r) by { TailOf(Opened(pre, g), h, Gen(next.r)); }
      GenAlt(r, next.r);
    }
  }

  // The GOTO gets its target.
  method CloseAlternative(p: ReCompiled, iGoto: nat, ghost pre: seq<Inst>, ghost g: seq<Inst>, ghost h: seq<Inst>)
    requires p.Valid() && iGoto < |p.code|
    requires p.zErr == NoError ==> p.code == Opened(pre, g) + h && iGoto == |Opened(pre, g)| - 1 && Ends(h, |Opened(pre, g)|, |Opened(pre, g)|)
    modifies p`code, p.aArg
    ensures p.Valid() && |p.code| == |old(p.code)|
    ensures p.zErr == NoError ==> p.code == pre + AltCode(g, h) && (Sealed(pre, pre + g) ==> Sealed(pre, p.code))
  {
    hide ReCompiled.Mirrors, ReCompiled.Full, AltCode, Sealed, Ends, Opened;
    p.SetArg(iGoto, p.nState - iGoto);
    Alternative(pre, g, h);
    if p.zErr == NoError {
      AlternativeSealed(pre, g, h);
    }
  }

  ghost function SealedTail(base: seq<Inst>, code: seq<Inst>): (h: seq<Inst>)
    requires Sealed(base, code)
    ensures code == base + h && Ends(h, |base|, |base|)
  {
    code[|base|..]
  }

  lemma TailOf(base: seq<Inst>, h: seq<Inst>, k: seq<Inst>)
    ensures base + h == base + k ==> h == k
  {
    if base + h == base + k {
      assert h == (base + h)[|base|..] && k == (base + k)[|base|..];
    }
  }

  lemma AlternativeSealed(pre: seq<Inst>, g: seq<Inst>, h: seq<Inst>)
    requires Ends(h, |pre| + |g| + 2, |pre| + |g| + 2)
    ensures Sealed(pre, pre + g) ==> Sealed(pre, pre + AltCode(g, h))
  {
    hide AltCode, Ends;
    if Sealed(pre, pre + g) {
      assert (pre + g)[|pre|..] == g && (pre + AltCode(g, h))[|pre|..] == AltCode(g, h);
      EndsLower(h, |pre| + |g| + 2, |pre| + |g| + 2, |pre|);
      AltEnds(g, h, |pre|, |pre|);
    }
  }

  lemma AltLong(a: Re, b: Re)
    ensures |Gen(Alt(a, b))| == |Gen(a)| + |Gen(b)| + 2
  {
  }

  lemma GenAlt(a: Re, b: Re)
    ensures Gen(Alt(a, b)) == AltCode(Gen(a), Gen(b))
  {
  }

  // The FORK inserted before the first alternative, the GOTO appended after it and
  // patched once the second one is complete.
  lemma Alternative(base: seq<Inst>, g: seq<Inst>, h: seq<Inst>)
    ensures var c := Opened(base, g);
            |c| == |base| + |g| + 2 && c[|c| - 1].op == GOTO &&
            (c + h)[|c| - 1 := Inst(GOTO, |h| + 1)] == base + AltCode(g, h)
  {
    assert (base + g)[..|base|] == base && (base + g)[|base|..] == g;
    var x, y, z := [Inst(FORK, |g| + 2)], [Inst(GOTO, 0)], [Inst(GOTO, |h| + 1)];
    var c := base + x + g + y;
    assert (c + h)[|c| - 1 := Inst(GOTO, |h| + 1)] == base + x + g + z + h;
    assert base + x + g + z + h == base + (x + g + z + h);
  }

  lemma NothingYet(base: seq<Inst>)
    ensures base == base + Gen(Empty) + Gen(Empty)
  {
  }

  // ----- the whole pattern ---------------------------------------------------------------

  // The program of a pattern: without a leading '^' it may start anywhere.
  function PatternRe(anchored: bool, r: Re): Re {
    if anchored then r else Cat(DotStar, r)
  }

  // The code for an ordinary pattern, or an error that only the complexity limit
  // excuses.
  ghost predicate Compiled(q: Pattern, err: Error, code: seq<Inst>, mx: nat) {
    match q
    case Pattern(anchored, r) =>
      if err == NoError then code == Program(PatternRe(anchored, r)) else err == TooBig && 5 * |Program(PatternRe(anchored, r))| + 2 > mx
    case BadPattern => err != NoError
  }

  // re_compile up to the prefix extraction.
  method CompileText(z: seq<int>, mxRe: nat) returns (re: ReCompiled, err: Error)
    requires 30 <= mxRe
    ensures fresh(re) && fresh(re.aOp) && fresh(re.aArg) && re.Valid() && re.zInit == [] && re.mxAlloc == mxRe
    ensures Compiled(ParsePattern(z, mxRe), err, re.code, mxRe)
    ensures err == NoError ==> re.code != [] && re.code[|re.code| - 1] == Inst(ACCEPT, 0) && Safe(re.code)
  {
    hide Gen, ReCompiled.Mirrors, ParseRe, Ends, Safe, Sealed;
    var anchored := Peek(z, 0) == '^' as int;
    var text := if anchored then z[1..] else z;
    re := new ReCompiled(mxRe, text);
    var i;
    if !anchored {
      i := re.Append(ANYSTAR, 0);
    }
    ghost var start := re.code;
    ghost var spec := ParseRe(text, 0, mxRe);
    err := SubcompileRe(re);
    if err != NoError {
      return;
    }
    if re.pos < |text| {
      err := Trailing;
      return;
    }
    ghost var body := re.code;
    i := re.Append(ACCEPT, 0);
    err := re.zErr;
    if err == NoError {
      TextSafe(anchored, start, body);
    }
    if spec.Ok? {
      ProgramText(anchored, spec.r);
      assert |re.code| <= |Program(PatternRe(anchored, spec.r))|;
    }
  }

  lemma TextSafe(anchored: bool, start: seq<Inst>, body: seq<Inst>)
    requires start == (if anchored then [] else [Inst(ANYSTAR, 0)]) && Sealed(start, body)
    ensures Safe(body + [Inst(ACCEPT, 0)])
  {
    assert Ends(start, 0, 0);
    EndsLower(body[|start|..], |start|, |start|, 0);
    CatEnds(start, body[|start|..], 0, 0);
    assert start + body[|start|..] == body;
    EndedIsSafe(body);
  }

  lemma ProgramText(anchored: bool, r: Re)
    ensures (if anchored then [] else [Inst(ANYSTAR, 0)]) + Gen(r) + [Inst(ACCEPT, 0)] == Program(PatternRe(anchored, r))
  {
    hide Gen;
    if anchored {
      assert [] + Gen(r) == Gen(r);
    } else {
      GenCat(DotStar, r);
      GenDotStar();
    }
  }

  lemma GenDotStar()
    ensures Gen(DotStar) == [Inst(ANYSTAR, 0)]
  {
  }
}
