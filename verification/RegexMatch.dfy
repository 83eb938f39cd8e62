// re_match: simulating the NFA by a pair of state sets.

module RegexMatch {
  import opened Ints
  import opened RegexSpec
  import opened RegexMachine
  import opened RegexProgram
  import opened Utf8

  // ----- one instruction ------------------------------------------------------------

  // States entered from x without consuming a character, and those entered by
  // consuming character c.
  function Eps(code: seq<Inst>, x: int, c: int, cPrev: int): seq<int>
    requires 0 <= x < |code|
  {
    var inst := code[x];
    match inst.op
    case FORK => [x + inst.arg, x + 1]
    case GOTO => [x + inst.arg]
    case ANYSTAR => [x + 1]
    case ATSTART => if cPrev == START_CHAR then [x + 1] else []
    case BOUNDARY => if IsWordChar(c) != IsWordChar(cPrev) then [x + 1] else []
    case _ => []
  }

  function Takes(code: seq<Inst>, x: int, c: int): seq<int>
    requires 0 <= x < |code|
  {
    var inst := code[x];
    if inst.op.ANYSTAR? then [x]
    else if inst.op.CC_INC? || inst.op.CC_EXC? then (if ClassTest(code, x, c) then [x + inst.arg] else [])
    else if IsTest(inst.op) && Passes(inst, c) then [x + 1]
    else []
  }

  // Adding up to two states, each if it is not there already.
  function AddOne(s: seq<int>, x: int): seq<int> {
    if x in s then s else s + [x]
  }

  function Added(s: seq<int>, xs: seq<int>): seq<int> {
    if |xs| == 0 then s
    else if |xs| == 1 then AddOne(s, xs[0])
    else AddOne(AddOne(s, xs[0]), xs[1])
  }

  lemma AddedHas(s: seq<int>, xs: seq<int>)
    requires |xs| <= 2
    ensures s <= Added(s, xs)
    ensures forall y :: y in Added(s, xs) <==> y in s || y in xs
  {
  }

  lemma Successor(code: seq<Inst>, t: Text, n: nat, x: int, k: nat) returns (y: int, taken: bool)
    requires 0 <= x < |code| && t.Live(k) && !code[x].op.ACCEPT? && Accepts(code, t, n, x, k)
    ensures n > 0
    ensures !taken ==> y in Eps(code, x, t.Char(k), t.Previous(k)) && Accepts(code, t, n - 1, y, k)
    ensures taken ==> y in Takes(code, x, t.Char(k)) && Accepts(code, t, n - 1, y, k + 1)
  {
    y, taken := x + 1, IsTest(code[x].op);
    match code[x].op
    case FORK => if Accepts(code, t, n - 1, x + code[x].arg, k) { y := x + code[x].arg; }
    case GOTO => y := x + code[x].arg;
    case ANYSTAR => if !Accepts(code, t, n - 1, x + 1, k) { y, taken := x, true; }
    case CC_INC => y, taken := x + code[x].arg, true;
    case CC_EXC => y, taken := x + code[x].arg, true;
    case _ =>
  }

  lemma Predecessor(code: seq<Inst>, t: Text, n: nat, x: int, k: nat, y: int, taken: bool)
    requires 0 <= x < |code| && t.Live(k)
    requires !taken ==> y in Eps(code, x, t.Char(k), t.Previous(k)) && Accepts(code, t, n, y, k)
    requires taken ==> y in Takes(code, x, t.Char(k)) && Accepts(code, t, n, y, k + 1)
    ensures Accepts(code, t, n + 1, x, k)
  {
  }

  lemma StepIsSafe(code: seq<Inst>, x: int)
    requires Safe(code) && 0 <= x < |code|
    ensures StepSafe(code[x], x, 0, |code| - 1)
  {
    assert StepSafe(code[x], 0 + x, 0, |code| - 1);
  }

  // ----- state sets ---------------------------------------------------------------------

  predicate Distinct(s: seq<int>) {
    forall j, k :: 0 <= j < k < |s| ==> s[j] != s[k]
  }

  predicate Within(s: seq<int>, n: int) {
    forall k :: 0 <= k < |s| ==> 0 <= s[k] < n
  }

  // n different states below n are all of them.
  lemma {:induction false} Pigeonhole(s: seq<int>, n: nat)
    requires Distinct(s) && Within(s, n)
    ensures |s| <= n
    decreases n
  {
    if s != [] {
      assert 0 <= s[0] < n;
      if k :| 0 <= k < |s| && s[k] == n - 1 {
        var rest := s[..k] + s[k + 1..];
        assert Within(rest, n - 1) by {
          forall q | 0 <= q < |rest| ensures 0 <= rest[q] < n - 1 {
            assert rest[q] == if q < k then s[q] else s[q + 1];
          }
        }
        Pigeonhole(rest, n - 1);
      } else {
        Pigeonhole(s, n - 1);
      }
    }
  }

  class ReStateSet {
    const aState: array<int>
    var nState: nat
    ghost var states: seq<int>

    ghost predicate Valid()
      reads this, aState
    {
      aState.Length <= 0x10000 && nState == |states| <= aState.Length &&
      aState[..nState] == states && Distinct(states) && Within(states, aState.Length)
    }

    constructor (capacity: nat)
      requires capacity <= 0x10000
      ensures Valid() && states == [] && fresh(aState) && aState.Length == capacity
    {
      aState := new int[capacity](_ => 0);
      nState := 0;
      states := [];
    }

    // re_add_state; state numbers are stored in 16 bits.
    method Add(newState: int)
      requires Valid() && 0 <= newState < aState.Length
      modifies this, aState
      ensures Valid()
      ensures states == AddOne(old(states), newState)
    {
      for i := 0 to nState
        invariant forall k :: 0 <= k < i ==> states[k] != newState
      {
        assert aState[i] == states[i];
        if aState[i] == newState {
          return;
        }
      }
      assert Distinct(states + [newState]) && Within(states + [newState], aState.Length);
      Pigeonhole(states + [newState], aState.Length);
      aState[nState] := newState % 0x10000;
      nState := nState + 1;
      states := states + [newState];
    }

    method Clear()
      requires Valid()
      modifies this
      ensures Valid() && states == []
    {
      nState := 0;
      states := [];
    }
  }

  // The scan of one character class.
  method ScanClass(re: ReCompiled, x: nat, c: int) returns (hit: bool)
    requires re.Valid() && x < |re.code| && (re.code[x].op.CC_INC? || re.code[x].op.CC_EXC?)
    requires x + re.code[x].arg < |re.code|
    ensures hit <==> ClassScan(re.code, x, 1, re.code[x].arg, c)
  {
    var j := 1;
    var n := re.aArg[x];
    hit := false;
    while j > 0 && j < n
      invariant hit ==> j <= 0
      invariant !hit ==> j >= 1
      invariant ClassScan(re.code, x, 1, n, c) <==> hit || (j >= 1 && ClassScan(re.code, x, j, n, c))
      decreases if j > 0 then n - j + 1 else 0
    {
      if re.aOp[x + j] == CC_VALUE {
        if re.aArg[x + j] == c {
          hit := true;
          j := -1;
        }
      } else {
        if re.aArg[x + j] <= c && re.aArg[x + j + 1] >= c {
          hit := true;
          j := -1;
        } else {
          j := j + 1;
        }
      }
      j := j + 1;
    }
  }

  // The character tests of the switch.
  predicate TestHolds(op: Op, arg: int, c: int)
    requires IsTest(op)
    ensures TestHolds(op, arg, c) == Passes(Inst(op, arg), c)
  {
    match op
    case MATCH => arg == c
    case ANY => c != 0
    case WORD => IsWordChar(c)
    case NOTWORD => !IsWordChar(c) && c != 0
    case DIGIT => IsDigitChar(c)
    case NOTDIGIT => !IsDigitChar(c) && c != 0
    case SPACE => IsSpaceChar(c)
    case NOTSPACE => !IsSpaceChar(c) && c != 0
  }

  // One pass of the switch: what instruction x adds to the current set
  // and to the next one.
  method Step(re: ReCompiled, x: nat, c: int, cPrev: int, pThis: ReStateSet, pNext: ReStateSet) returns (accept: bool)
    requires re.Valid() && Safe(re.code) && x < |re.code|
    requires pThis.Valid() && pNext.Valid() && pThis != pNext && pThis.aState != pNext.aState
    requires pThis.aState.Length == pNext.aState.Length == |re.code|
    requires re.aArg != pThis.aState && re.aArg != pNext.aState
    modifies pThis, pThis.aState, pNext, pNext.aState
    ensures re.Valid() && pThis.Valid() && pNext.Valid()
    ensures accept <==> re.code[x].op.ACCEPT?
    ensures pThis.states == Added(old(pThis.states), Eps(re.code, x, c, cPrev))
    ensures pNext.states == Added(old(pNext.states), Takes(re.code, x, c))
  {
    hide AddOne, Distinct, Within, ClassScan, Safe, AllSafe, ReStateSet.Valid, ReCompiled.Full, ReCompiled.Progress, Passes;
    StepIsSafe(re.code, x);
    var op, arg := re.aOp[x], re.aArg[x];
    accept := false;
    assert op == re.code[x].op && arg == re.code[x].arg;
    if IsTest(op) {
      if TestHolds(op, arg, c) { pNext.Add(x + 1); }
      return;
    }
    if op == ACCEPT {
      accept := true;
    } else if op == CC_INC || op == CC_EXC {
      StepClass(re, x, c, op, arg, pNext);
    } else if op == ATSTART {
      if cPrev == START_CHAR { pThis.Add(x + 1); }
    } else if op == BOUNDARY {
      if IsWordChar(c) != IsWordChar(cPrev) { pThis.Add(x + 1); }
    } else if op == ANYSTAR {
      pNext.Add(x);
      pThis.Add(x + 1);
    } else if op == FORK {
      pThis.Add(x + arg);
      pThis.Add(x + 1);
    } else if op == GOTO {
      pThis.Add(x + arg);
    }
  }

  // A character class: RE_OP_CC_EXC takes no end of text.
  method StepClass(re: ReCompiled, x: nat, c: int, op: Op, arg: int, pNext: ReStateSet)
    requires re.Valid() && Safe(re.code) && x < |re.code| && pNext.Valid() && pNext.aState.Length == |re.code| && re.aArg != pNext.aState
    requires op == re.code[x].op && arg == re.code[x].arg && (op.CC_INC? || op.CC_EXC?)
    modifies pNext, pNext.aState
    ensures re.Valid() && pNext.Valid()
    ensures pNext.states == Added(old(pNext.states), Takes(re.code, x, c))
  {
    hide AddOne, Distinct, Within, ClassScan, Safe, AllSafe, ReStateSet.Valid, ReCompiled.Full, ReCompiled.Progress, Passes;
    StepIsSafe(re.code, x);
    if op == CC_INC || c != 0 {
      var hit := ScanClass(re, x, c);
      if op == CC_EXC { hit := !hit; }
      if hit { pNext.Add(x + arg); }
    }
  }

  // ----- the simulation -------------------------------------------------------------------

  // State x of the current set has had all its consequences recorded.
  ghost predicate Processed(code: seq<Inst>, x: int, c: int, cPrev: int, this_: seq<int>, next: seq<int>) {
    0 <= x < |code| && !code[x].op.ACCEPT? &&
    (forall y :: y in Eps(code, x, c, cPrev) ==> y in this_) &&
    (forall y :: y in Takes(code, x, c) ==> y in next)
  }

  // If a fully processed set contains a state from which ACCEPT is reachable, so
  // does the set for the next position.
  lemma {:induction false} Handover(code: seq<Inst>, t: Text, n: nat, x: int, k: nat, this_: seq<int>, next: seq<int>)
    returns (y: int)
    requires t.Live(k) && x in this_ && Accepts(code, t, n, x, k)
    requires forall q :: q in this_ ==> Processed(code, q, t.Char(k), t.Previous(k), this_, next)
    ensures y in next && Accepting(code, t, y, k + 1)
  {
    assert Processed(code, x, t.Char(k), t.Previous(k), this_, next);
    var taken;
    y, taken := Successor(code, t, n, x, k);
    if !taken {
      y := Handover(code, t, n - 1, y, k, this_, next);
    }
  }

  // Every state of the set that leads to ACCEPT shows that the start does.
  ghost predicate Justified(code: seq<Inst>, t: Text, s: seq<int>, k: nat) {
    forall x :: x in s && Accepting(code, t, x, k) ==> Accepting(code, t, 0, 0)
  }

  ghost predicate Promising(code: seq<Inst>, t: Text, s: seq<int>, k: nat) {
    exists x :: x in s && Accepting(code, t, x, k)
  }

  // The successors of a justified state are justified.
  lemma StepJustified(code: seq<Inst>, t: Text, x: int, k: nat, this_: seq<int>, next: seq<int>)
    requires 0 <= x < |code| && t.Live(k) && x in this_
    requires Justified(code, t, this_, k) && Justified(code, t, next, k + 1)
    ensures Justified(code, t, Added(this_, Eps(code, x, t.Char(k), t.Previous(k))), k)
    ensures Justified(code, t, Added(next, Takes(code, x, t.Char(k))), k + 1)
  {
    hide Eps, Takes, Accepts;
    EpsSmall(code, x, t.Char(k), t.Previous(k));
    AddedHas(this_, Eps(code, x, t.Char(k), t.Previous(k)));
    AddedHas(next, Takes(code, x, t.Char(k)));
    forall y | y in Eps(code, x, t.Char(k), t.Previous(k)) && Accepting(code, t, y, k)
      ensures Accepting(code, t, 0, 0)
    {
      var n: nat :| Accepts(code, t, n, y, k);
      Predecessor(code, t, n, x, k, y, false);
      assert Accepting(code, t, x, k);
    }
    forall y | y in Takes(code, x, t.Char(k)) && Accepting(code, t, y, k + 1)
      ensures Accepting(code, t, 0, 0)
    {
      var n: nat :| Accepts(code, t, n, y, k + 1);
      Predecessor(code, t, n, x, k, y, true);
      assert Accepting(code, t, x, k);
    }
  }

  lemma EpsSmall(code: seq<Inst>, x: int, c: int, cPrev: int)
    requires 0 <= x < |code|
    ensures |Eps(code, x, c, cPrev)| <= 2 && |Takes(code, x, c)| <= 1
  {
  }

  ghost predicate AllProcessed(code: seq<Inst>, t: Text, k: nat, i: nat, this_: seq<int>, next: seq<int>)
    requires t.Live(k)
  {
    i <= |this_| &&
    forall q :: 0 <= q < i ==> Processed(code, this_[q], t.Char(k), t.Previous(k), this_, next)
  }

  lemma StepProcessed(code: seq<Inst>, t: Text, k: nat, i: nat, this_: seq<int>, next: seq<int>)
    requires t.Live(k) && AllProcessed(code, t, k, i, this_, next) && i < |this_|
    requires 0 <= this_[i] < |code| && !code[this_[i]].op.ACCEPT?
    ensures AllProcessed(code, t, k, i + 1, Added(this_, Eps(code, this_[i], t.Char(k), t.Previous(k))),
                         Added(next, Takes(code, this_[i], t.Char(k))))
  {
    hide Eps, Takes, Accepts, Added;
    var this', next' := Added(this_, Eps(code, this_[i], t.Char(k), t.Previous(k))), Added(next, Takes(code, this_[i], t.Char(k)));
    EpsSmall(code, this_[i], t.Char(k), t.Previous(k));
    AddedHas(this_, Eps(code, this_[i], t.Char(k), t.Previous(k)));
    AddedHas(next, Takes(code, this_[i], t.Char(k)));
    forall q | 0 <= q < i + 1 ensures Processed(code, this'[q], t.Char(k), t.Previous(k), this', next') {
      assert this'[q] == this_[q];
      if q < i {
        assert Processed(code, this_[q], t.Char(k), t.Previous(k), this_, next);
      }
    }
  }

  // The inner loop: works off the current set, which grows meanwhile.
  method Sweep(re: ReCompiled, pThis: ReStateSet, pNext: ReStateSet, c: int, cPrev: int, ghost t: Text, ghost k: nat)
    returns (accept: bool)
    requires re.Valid() && Safe(re.code) && |re.code| > 0
    requires pThis.Valid() && pNext.Valid() && pThis != pNext && pThis.aState != pNext.aState
    requires pThis.aState.Length == pNext.aState.Length == |re.code|
    requires re.aArg != pThis.aState && re.aArg != pNext.aState
    requires t.Live(k) && c == t.Char(k) && cPrev == t.Previous(k)
    requires pNext.states == [] && Justified(re.code, t, pThis.states, k)
    requires Accepting(re.code, t, 0, 0) ==> Promising(re.code, t, pThis.states, k)
    modifies pThis, pThis.aState, pNext, pNext.aState
    ensures re.Valid() && pThis.Valid() && pNext.Valid()
    ensures accept ==> Accepting(re.code, t, 0, 0)
    ensures !accept ==> Justified(re.code, t, pNext.states, k + 1)
    ensures !accept && Accepting(re.code, t, 0, 0) ==> Promising(re.code, t, pNext.states, k + 1)
  {
    hide Added, Justified, Promising, AllProcessed, Safe, Accepts;
    ghost var code, first := re.code, pThis.states;
    var i := 0;
    assert AllProcessed(code, t, k, 0, pThis.states, pNext.states) by { NoneProcessed(code, t, k, pThis.states, pNext.states); }
    assert Justified(code, t, pNext.states, k + 1) by { NoneJustified(code, t, k + 1); }
    while i < pThis.nState
      invariant re.Valid() && pThis.Valid() && pNext.Valid() && i <= pThis.nState
      invariant first <= pThis.states
      invariant Justified(code, t, pThis.states, k) && Justified(code, t, pNext.states, k + 1)
      invariant AllProcessed(code, t, k, i, pThis.states, pNext.states)
      decreases |code| - i
    {
      var x := pThis.aState[i];
      assert x == pThis.states[i];
      ghost var this_, next := pThis.states, pNext.states;
      accept := Step(re, x, c, cPrev, pThis, pNext);
      if accept {
        AcceptHere(code, t, x, k, this_);
        return;
      }
      StepJustified(code, t, x, k, this_, next);
      StepProcessed(code, t, k, i, this_, next);
      EpsSmall(code, x, c, cPrev);
      AddedHas(this_, Eps(code, x, c, cPrev));
      i := i + 1;
    }
    if Accepting(code, t, 0, 0) {
      SweepHandsOver(code, t, k, first, pThis.states, pNext.states);
    }
    return false;
  }

  lemma NoneProcessed(code: seq<Inst>, t: Text, k: nat, this_: seq<int>, next: seq<int>)
    requires t.Live(k)
    ensures AllProcessed(code, t, k, 0, this_, next)
  {
  }

  lemma NoneJustified(code: seq<Inst>, t: Text, k: nat)
    ensures Justified(code, t, [], k)
  {
  }

  lemma AcceptHere(code: seq<Inst>, t: Text, x: int, k: nat, s: seq<int>)
    requires 0 <= x < |code| && code[x].op.ACCEPT? && x in s && Justified(code, t, s, k)
    ensures Accepting(code, t, 0, 0)
  {
    assert Accepts(code, t, 0, x, k);
  }

  lemma SweepHandsOver(code: seq<Inst>, t: Text, k: nat, first: seq<int>, this_: seq<int>, next: seq<int>)
    requires t.Live(k) && first <= this_ && Promising(code, t, first, k)
    requires AllProcessed(code, t, k, |this_|, this_, next)
    ensures Promising(code, t, next, k + 1)
  {
    var x :| x in first && Accepting(code, t, x, k);
    var n: nat :| Accepts(code, t, n, x, k);
    var y := Handover(code, t, n, x, k, this_, next);
  }

  // ----- after the end of the input ----------------------------------------------------------

  lemma DeadEnd(code: seq<Inst>, t: Text, x: int, k: nat)
    requires !t.Live(k) && 0 <= x < |code|
    ensures code[x].op.ACCEPT? ==> Accepting(code, t, x, k)
    ensures code[x].op.GOTO? ==> (Accepting(code, t, x, k) <==> Accepting(code, t, x + code[x].arg, k))
    ensures !code[x].op.ACCEPT? && !code[x].op.GOTO? ==> !Accepting(code, t, x, k)
  {
    if code[x].op.ACCEPT? {
      assert Accepts(code, t, 0, x, k);
    }
    if code[x].op.GOTO? {
      if Accepting(code, t, x, k) {
        var n: nat :| Accepts(code, t, n, x, k);
        assert Accepts(code, t, n - 1, x + code[x].arg, k);
      }
      if Accepting(code, t, x + code[x].arg, k) {
        var n: nat :| Accepts(code, t, n, x + code[x].arg, k);
        assert Accepts(code, t, n + 1, x, k);
      }
    }
  }

  // Follows GOTOs only.
  method Chase(re: ReCompiled, start: nat, ghost t: Text, ghost k: nat) returns (accept: bool)
    requires re.Valid() && Safe(re.code) && start < |re.code| && !t.Live(k)
    ensures accept <==> Accepting(re.code, t, start, k)
  {
    hide Accepting;
    var x := start;
    DeadEnd(re.code, t, x, k);
    StepIsSafe(re.code, x);
    while re.aOp[x] == GOTO
      invariant x < |re.code| && StepSafe(re.code[x], x, 0, |re.code| - 1)
      invariant Accepting(re.code, t, start, k) <==> Accepting(re.code, t, x, k)
      decreases |re.code| - x
    {
      DeadEnd(re.code, t, x, k);
      x := x + re.aArg[x];
      StepIsSafe(re.code, x);
    }
    DeadEnd(re.code, t, x, k);
    return re.aOp[x] == ACCEPT;
  }

  // The simulation loop of re_match, from byte index start on, with c0 standing for
  // the character before the text.
  method Simulate(re: ReCompiled, z: seq<byte>, start: nat, c0: int) returns (rc: bool)
    requires re.Valid() && Safe(re.code) && 0 < |re.code| <= 0x10000
    requires start <= |z| && (forall k :: 0 <= k < |z| ==> z[k] != 0) && c0 > 0
    ensures rc <==> Accepting(re.code, Text(c0, DecodeFrom(z, start)), 0, 0)
  {
    hide Justified, Promising, Accepting, Safe, NextChar, DecodeFrom, ReStateSet.Valid;
    ghost var code, t := re.code, Text(c0, DecodeFrom(z, start));
    var pThis := new ReStateSet(re.nState);
    var pNext := new ReStateSet(re.nState);
    pNext.Add(0);
    assert pNext.states == [0];
    StartState(code, t);
    var c, cPrev := c0, 0;
    var i: nat := start;
    ghost var k: nat := 0;
    while c != EOF_CHAR && pNext.nState > 0
      invariant re.Valid() && pThis.Valid() && pNext.Valid() && pThis != pNext && pThis.aState != pNext.aState
      invariant pThis.aState.Length == pNext.aState.Length == |code| && fresh(pThis) && fresh(pNext)
      invariant fresh(pThis.aState) && fresh(pNext.aState)
      invariant re.code == code && i <= |z| && k <= |t.s| + 1
      invariant c != EOF_CHAR ==> k <= |t.s| && c == t.Previous(k) && DecodeFrom(z, i) == t.s[k..]
      invariant c == EOF_CHAR ==> k == |t.s| + 1
      invariant Justified(code, t, pNext.states, k)
      invariant Accepting(code, t, 0, 0) ==> Promising(code, t, pNext.states, k)
      decreases |t.s| + 1 - k
    {
      cPrev := c;
      c, i := ReadChar(z, i, t, k);
      pThis, pNext := pNext, pThis;
      pNext.Clear();
      var accept := Sweep(re, pThis, pNext, c, cPrev, t, k);
      if accept {
        return true;
      }
      k := k + 1;
    }
    rc := Finish(re, pNext, t, k);
  }

  // The final loop of re_match over the states left after the end of the input.
  method Finish(re: ReCompiled, pNext: ReStateSet, ghost t: Text, ghost k: nat) returns (rc: bool)
    requires re.Valid() && Safe(re.code) && pNext.Valid() && pNext.aState.Length == |re.code|
    requires pNext.nState > 0 ==> !t.Live(k)
    requires Justified(re.code, t, pNext.states, k)
    requires Accepting(re.code, t, 0, 0) ==> Promising(re.code, t, pNext.states, k)
    ensures rc <==> Accepting(re.code, t, 0, 0)
  {
    hide Justified, Promising, Accepting, Safe;
    ghost var code := re.code;
    var q := 0;
    while q < pNext.nState
      invariant q <= pNext.nState
      invariant forall p :: 0 <= p < q ==> !Accepting(code, t, pNext.states[p], k)
    {
      assert pNext.aState[q] == pNext.states[q];
      var accept := Chase(re, pNext.aState[q], t, k);
      if accept {
        UseJustified(code, t, pNext.states, k, pNext.states[q]);
        return true;
      }
      q := q + 1;
    }
    NotPromising(code, t, pNext.states, k);
    return false;
  }

  // xNextChar on the text, related to the decoded text.
  method ReadChar(z: seq<byte>, i: nat, ghost t: Text, ghost k: nat) returns (c: int, i': nat)
    requires i <= |z| && (forall q :: 0 <= q < |z| ==> z[q] != 0)
    requires k <= |t.s| && DecodeFrom(z, i) == t.s[k..]
    ensures i' <= |z| && c == t.Char(k)
    ensures c == EOF_CHAR <==> k == |t.s|
    ensures c != EOF_CHAR ==> DecodeFrom(z, i') == t.s[k + 1..]
  {
    var r := NextChar(z, i);
    c, i' := r.0, r.1;
    assert i < |z| ==> t.s[k..][0] == c && t.s[k..][1..] == t.s[k + 1..];
  }

  lemma StartState(code: seq<Inst>, t: Text)
    ensures Justified(code, t, [0], 0)
    ensures Accepting(code, t, 0, 0) ==> Promising(code, t, [0], 0)
  {
    if Accepting(code, t, 0, 0) {
      assert 0 in [0];
    }
  }

  lemma UseJustified(code: seq<Inst>, t: Text, s: seq<int>, k: nat, x: int)
    requires Justified(code, t, s, k) && x in s && Accepting(code, t, x, k)
    ensures Accepting(code, t, 0, 0)
  {
  }

  lemma NotPromising(code: seq<Inst>, t: Text, s: seq<int>, k: nat)
    requires forall p :: 0 <= p < |s| ==> !Accepting(code, t, s[p], k)
    ensures !Promising(code, t, s, k)
  {
  }
}
