// The compiled regular expression of src/regexp.c: an opcode array and an
// argument array that grow together and are edited in place.

module RegexProgram {
  import opened Ints
  import opened RegexSpec

  datatype Error = NoError | TooBig | UnknownEscape | StarOperand | PlusOperand | OptOperand | CountOperand
    | UnmatchedBrace | CountOrder | CountZero | UnmatchedParen | PosixClass | UnclosedClass | Trailing

  lemma InsertedAt(s: seq<Inst>, i: nat, x: Inst)
    requires i <= |s|
    ensures var t := s[..i] + [x] + s[i..];
            |t| == |s| + 1 && t[i] == x && (forall k :: 0 <= k < i ==> t[k] == s[k]) && forall k :: i < k < |t| ==> t[k] == s[k - 1]
  {
  }

  class ReCompiled {
    var aOp: array<Op>
    var aArg: array<int>
    var nState: nat
    var nAlloc: nat
    const mxAlloc: nat
    var zErr: Error
    var sIn: seq<int>          // the pattern text
    var pos: nat               // next character of it
    var zInit: seq<byte>       // literal prefix; zInit[..nInit] of the source
    ghost var code: seq<Inst>  // the instructions in use

    ghost predicate Valid()
      reads `aOp, `aArg, `nState, `nAlloc, `code, aOp, aArg
    {
      aOp.Length == aArg.Length == nAlloc && nState == |code| <= nAlloc <= mxAlloc && 30 <= nAlloc &&
      Mirrors(nState, code)
    }

    // The first m slots hold the first m instructions of c.
    ghost predicate Mirrors(m: nat, c: seq<Inst>)
      reads `aOp, `aArg, aOp, aArg
    {
      m <= |c| && m <= aOp.Length && m <= aArg.Length &&
      forall k :: 0 <= k < m ==> aOp[k] == c[k].op && aArg[k] == c[k].arg
    }

    constructor (mxAlloc: nat, pattern: seq<int>)
      requires 30 <= mxAlloc
      ensures Valid() && code == [] && sIn == pattern && pos == 0 && zErr == NoError && zInit == [] && this.mxAlloc == mxAlloc
      ensures fresh(aOp) && fresh(aArg)
    {
      aOp := new Op[30](_ => MATCH);
      aArg := new int[30](_ => 0);
      nState, nAlloc := 0, 30;
      this.mxAlloc := mxAlloc;
      zErr, zInit, sIn, pos := NoError, [], pattern, 0;
      code := [];
    }

    // re_resize. Allocation failures other than the complexity limit are not modelled.
    method Resize(n: nat) returns (failed: bool)
      requires Valid() && nState <= n && 30 <= n
      modifies `aOp, `aArg, `nAlloc, `zErr
      ensures Valid() && code == old(code) && zInit == old(zInit)
      ensures failed <==> n > mxAlloc
      ensures failed ==> zErr == TooBig && aOp == old(aOp) && aArg == old(aArg) && nAlloc == old(nAlloc)
      ensures !failed ==> zErr == old(zErr) && nAlloc == n && fresh(aOp) && fresh(aArg)
    {
      if n > mxAlloc {
        zErr := TooBig;
        return true;
      }
      var op := new Op[n](_ => MATCH);
      var arg := new int[n](_ => 0);
      for k := 0 to nState
        invariant Valid() && code == old(code) && nState == old(nState) && aOp == old(aOp) && aArg == old(aArg)
        invariant zErr == old(zErr) && zInit == old(zInit) && op.Length == arg.Length == n
        invariant forall q :: 0 <= q < k ==> op[q] == code[q].op && arg[q] == code[q].arg
      {
        op[k], arg[k] := aOp[k], aArg[k];
      }
      aOp, aArg, nAlloc := op, arg, n;
      return false;
    }

    // The loop of re_insert: every instruction from iBefore on moves up by one slot.
    method ShiftUp(iBefore: nat)
      requires Valid() && iBefore <= nState < nAlloc
      modifies aOp, aArg
      ensures forall q :: 0 <= q < iBefore ==> aOp[q] == code[q].op && aArg[q] == code[q].arg
      ensures forall q :: iBefore < q <= nState ==> aOp[q] == code[q - 1].op && aArg[q] == code[q - 1].arg
    {
      var k := nState;
      while k > iBefore
        invariant iBefore <= k <= nState
        invariant forall q :: 0 <= q < k ==> aOp[q] == code[q].op && aArg[q] == code[q].arg
        invariant forall q :: k < q <= nState ==> aOp[q] == code[q - 1].op && aArg[q] == code[q - 1].arg
      {
        aOp[k] := aOp[k - 1];
        aArg[k] := aArg[k - 1];
        k := k - 1;
      }
    }

    // A failed resize is reported only once the program fills a fifth of the limit.
    ghost predicate Progress(was: Error)
      reads `zErr, `code
    {
      (was != NoError ==> zErr != NoError) &&
      (was != TooBig && zErr == TooBig ==> 5 * |code| + 2 > mxAlloc)
    }

    // No instruction can be added any more.
    ghost predicate Full()
      reads `nAlloc, `nState
    {
      nAlloc <= nState && nAlloc * 2 > mxAlloc
    }

    // re_insert: shift everything from iBefore up by one and store the new
    // instruction there. A failed resize leaves the program as it was.
    method Insert(iBefore: nat, op: Op, arg: int) returns (i: nat)
      requires Valid() && iBefore <= nState
      modifies `aOp, `aArg, `nState, `nAlloc, `zErr, `code, aOp, aArg
      ensures Valid() && (aOp == old(aOp) || fresh(aOp)) && (aArg == old(aArg) || fresh(aArg))
      ensures (zErr == old(zErr) || zErr == TooBig) && Progress(old(zErr))
      ensures zErr == NoError ==> i == iBefore
      ensures zErr == NoError ==> code == old(code)[..iBefore] + [Inst(op, arg)] + old(code)[iBefore..]
      ensures |old(code)| <= |code| && i <= iBefore && i < nState
      ensures |code| == |old(code)| ==> Full()
      ensures old(Full()) ==> Full()
      ensures |code| == |old(code)| || |code| == |old(code)| + 1
    {
      if nAlloc <= nState {
        var failed := Resize(nAlloc * 2);
        if failed {
          return 0;
        }
      }
      InsertedAt(code, iBefore, Inst(op, arg));
      ShiftUp(iBefore);
      nState := nState + 1;
      aOp[iBefore] := op;
      aArg[iBefore] := arg;
      code := code[..iBefore] + [Inst(op, arg)] + code[iBefore..];
      return iBefore;
    }

    // re_append
    method Append(op: Op, arg: int) returns (i: nat)
      requires Valid()
      modifies `aOp, `aArg, `nState, `nAlloc, `zErr, `code, aOp, aArg
      ensures Valid() && (aOp == old(aOp) || fresh(aOp)) && (aArg == old(aArg) || fresh(aArg))
      ensures (zErr == old(zErr) || zErr == TooBig) && Progress(old(zErr))
      ensures zErr == NoError ==> i == |old(code)| && code == old(code) + [Inst(op, arg)]
      ensures |old(code)| <= |code| <= |old(code)| + 1 && i < nState
      ensures old(Full()) ==> Full()
    {
      i := Insert(nState, op, arg);
      assert zErr == NoError ==> code == old(code) + [Inst(op, arg)];
    }

    // re_copy: append a copy of the n instructions from iStart on.
    method Copy(iStart: nat, n: nat)
      requires Valid() && n <= nState
      requires iStart + n <= nState || Full() || n == 0
      modifies `aOp, `aArg, `nState, `nAlloc, `zErr, `code, aOp, aArg
      ensures Valid() && (aOp == old(aOp) || fresh(aOp)) && (aArg == old(aArg) || fresh(aArg))
      ensures (zErr == old(zErr) || zErr == TooBig) && Progress(old(zErr))
      ensures zErr == NoError && n > 0 ==> iStart + n <= |old(code)| && code == old(code) + old(code)[iStart..iStart + n]
      ensures n == 0 ==> code == old(code)
      ensures |old(code)| <= |code| <= |old(code)| + n
      ensures old(Full()) ==> Full()
    {
      if nState + n >= nAlloc {
        var failed := Resize(nAlloc * 2 + n);
        if failed {
          return;
        }
      }
      if n > 0 {
        ghost var whole := code + code[iStart..iStart + n];
        CopyUp(iStart, n, whole);
        nState := nState + n;
        code := whole;
      }
    }

    // The two memcpy calls of re_copy.
    method CopyUp(iStart: nat, n: nat, ghost whole: seq<Inst>)
      requires Valid() && iStart + n <= nState && nState + n <= nAlloc
      requires whole == code + code[iStart..iStart + n]
      modifies aOp, aArg
      ensures Mirrors(nState + n, whole)
    {
      var m, k := nState, 0;
      while k < n
        invariant k <= n && m == nState + k && Mirrors(m, whole)
      {
        assert whole[m] == whole[iStart + k];
        aOp[m] := aOp[iStart + k];
        aArg[m] := aArg[iStart + k];
        k, m := k + 1, m + 1;
      }
    }

    // Patch the argument of an instruction.
    method SetArg(i: nat, arg: int)
      requires Valid() && i < nState
      modifies `code, aArg
      ensures Valid() && code == old(code)[i := Inst(old(code)[i].op, arg)]
    {
      aArg[i] := arg;
      code := code[i := Inst(code[i].op, arg)];
    }
  }
}
