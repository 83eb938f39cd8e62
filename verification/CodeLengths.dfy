// Run lengths of code lengths (section 3.2.7 of RFC 1951): what the compressor packs, the
// decompressor expands again.

module CodeLengths {
  datatype Expanded = Bad | Lengths(s: seq<nat>)

  // n times x.
  function Times(x: nat, n: nat): (s: seq<nat>)
    ensures |s| == n && forall i :: 0 <= i < n ==> s[i] == x
  {
    if n == 0 then [] else Times(x, n - 1) + [x]
  }

  // The meaning of a packed list after out: lengths for themselves, 16 for three to six
  // times the last one, 17 and 18 for runs of zeros; the latter three take a second entry.
  function Expand(packed: seq<nat>, out: seq<nat>): Expanded
    decreases |packed|
  {
    if packed == [] then Lengths(out)
    else if packed[0] < 16 then Expand(packed[1..], out + [packed[0]])
    else if |packed| == 1 || packed[0] > 18 then Bad
    else if packed[0] == 16 then if out == [] then Bad else Expand(packed[2..], out + Times(out[|out| - 1], packed[1] + 3))
    else Expand(packed[2..], out + Times(0, packed[1] + if packed[0] == 17 then 3 else 11))
  }

  lemma {:induction false} ExpandMore(p: seq<nat>, q: seq<nat>, out: seq<nat>)
    requires Expand(p, out).Lengths?
    ensures Expand(p + q, out) == Expand(q, Expand(p, out).s)
    decreases |p|
  {
    if p == [] {
      assert p + q == q;
    } else if p[0] < 16 {
      assert (p + q)[1..] == p[1..] + q;
      ExpandMore(p[1..], q, out + [p[0]]);
    } else {
      assert (p + q)[2..] == p[2..] + q;
      ExpandMore(p[2..], q, out + Times(if p[0] == 16 then out[|out| - 1] else 0, p[1] + if p[0] == 18 then 11 else 3));
    }
  }

  lemma {:induction false} ExpandKeeps(p: seq<nat>, out: seq<nat>)
    requires Expand(p, out).Lengths?
    ensures out <= Expand(p, out).s && (p != [] ==> |out| < |Expand(p, out).s|)
    decreases |p|
  {
    if p == [] {
    } else if p[0] < 16 {
      ExpandKeeps(p[1..], out + [p[0]]);
    } else {
      ExpandKeeps(p[2..], out + Times(if p[0] == 16 then out[|out| - 1] else 0, p[1] + if p[0] == 18 then 11 else 3));
    }
  }

  // The second entries fit into their two, three and seven bits.
  predicate Fits(packed: seq<nat>)
    decreases |packed|
  {
    if packed == [] || packed[0] > 18 then true
    else if packed[0] < 16 then Fits(packed[1..])
    else if |packed| == 1 then true
    else packed[1] < (if packed[0] == 16 then 4 else if packed[0] == 17 then 8 else 128) && Fits(packed[2..])
  }

  lemma {:induction false} FitsMore(p: seq<nat>, q: seq<nat>, out: seq<nat>)
    requires Expand(p, out).Lengths? && Fits(p)
    ensures Fits(p + q) <==> Fits(q)
    decreases |p|
  {
    if p == [] {
      assert p + q == q;
    } else if p[0] < 16 {
      assert (p + q)[1..] == p[1..] + q;
      FitsMore(p[1..], q, out + [p[0]]);
    } else {
      assert (p + q)[2..] == p[2..] + q;
      FitsMore(p[2..], q, out + Times(if p[0] == 16 then out[|out| - 1] else 0, p[1] + if p[0] == 18 then 11 else 3));
    }
  }

  // A list of lengths put off: the packed part, and n times x that it does not hold yet.
  ghost predicate PutOff(packed: seq<nat>, s: seq<nat>, x: nat, n: nat) {
    n <= |s| && |packed| <= |s| - n && Fits(packed) && Expand(packed, []) == Lengths(s[..|s| - n]) && forall k :: |s| - n <= k < |s| ==> s[k] == x
  }

  lemma TimesIs(s: seq<nat>, x: nat, n: nat)
    requires n <= |s| && forall k :: |s| - n <= k < |s| ==> s[k] == x
    ensures s[..|s| - n] + Times(x, n) == s
  {
  }

  // Entries that stand for themselves.
  lemma {:induction false} ExpandPlain(x: nat, n: nat, out: seq<nat>)
    requires x < 16
    ensures Expand(Times(x, n), out) == Lengths(out + Times(x, n)) && Fits(Times(x, n))
    decreases n
  {
    if n == 0 {
      assert out + [] == out;
    } else {
      ExpandPlain(x, n - 1, out);
      ExpandMore(Times(x, n - 1), [x], out);
      FitsMore(Times(x, n - 1), [x], out);
      assert Expand([x], out + Times(x, n - 1)) == Expand([x][1..], out + Times(x, n - 1) + [x]);
      assert [x][1..] == [] && out + Times(x, n - 1) + [x] == out + Times(x, n);
    }
  }

  lemma SendPlain(packed: seq<nat>, s: seq<nat>, x: nat, n: nat)
    requires PutOff(packed, s, x, n) && x < 16
    ensures PutOff(packed + Times(x, n), s, x, 0)
  {
    ExpandMore(packed, Times(x, n), []);
    FitsMore(packed, Times(x, n), []);
    ExpandPlain(x, n, s[..|s| - n]);
    TimesIs(s, x, n);
    assert s[..|s| - 0] == s;
  }

  lemma SendRun(packed: seq<nat>, s: seq<nat>, x: nat, n: nat, code: nat)
    requires PutOff(packed, s, x, n)
    requires (code == 16 && 3 <= n <= 6 && n < |s| && s[|s| - n - 1] == x) || (x == 0 && code == 17 && 3 <= n <= 10) || (x == 0 && code == 18 && 11 <= n <= 138)
    ensures PutOff(packed + [code, n - if code == 18 then 11 else 3], s, x, 0)
  {
    var q, out := [code, n - if code == 18 then 11 else 3], s[..|s| - n];
    ExpandMore(packed, q, []);
    FitsMore(packed, q, []);
    assert q[2..] == [];
    assert Expand(q, out) == Lengths(out + Times(x, n));
    TimesIs(s, x, n);
    assert s[..|s| - 0] == s;
  }

  // TDEFL_RLE_PREV_CODE_SIZE
  method FlushRepeat(packed: seq<nat>, prev: nat, count: nat, ghost s: seq<nat>) returns (packed': seq<nat>)
    requires PutOff(packed, s, prev, count) && prev < 16 && count <= 6 && (count > 0 ==> count < |s| && s[|s| - count - 1] == prev)
    ensures PutOff(packed', s, prev, 0)
    ensures packed' == packed + if count < 3 then Times(prev, count) else [16, count - 3]
  {
    packed' := packed;
    if count > 0 {
      if count < 3 {
        SendPlain(packed, s, prev, count);
        var n := count;
        while n > 0
          invariant n <= count && packed' == packed + Times(prev, count - n)
        {
          packed' := packed' + [prev];
          n := n - 1;
        }
      } else {
        SendRun(packed, s, prev, count, 16);
        packed' := packed + [16, count - 3];
      }
    }
  }

  // TDEFL_RLE_ZERO_CODE_SIZE
  method FlushZeros(packed: seq<nat>, count: nat, ghost s: seq<nat>) returns (packed': seq<nat>)
    requires PutOff(packed, s, 0, count) && count <= 138
    ensures PutOff(packed', s, 0, 0)
    ensures packed' == packed + if count < 3 then Times(0, count) else if count <= 10 then [17, count - 3] else [18, count - 11]
  {
    packed' := packed;
    if count > 0 {
      if count < 3 {
        SendPlain(packed, s, 0, count);
        var n := count;
        while n > 0
          invariant n <= count && packed' == packed + Times(0, count - n)
        {
          packed' := packed' + [0];
          n := n - 1;
        }
      } else if count <= 10 {
        SendRun(packed, s, 0, count, 17);
        packed' := packed + [17, count - 3];
      } else {
        SendRun(packed, s, 0, count, 18);
        packed' := packed + [18, count - 11];
      }
    }
  }

  // One turn of the packing loop.
  method PackOne(packed: seq<nat>, codeSize: nat, prev: nat, zCount: nat, repeatCount: nat, ghost s: seq<nat>)
    returns (packed': seq<nat>, zCount': nat, repeatCount': nat)
    requires codeSize < 16 && Pending(packed, s, prev, zCount, repeatCount)
    ensures Pending(packed', s + [codeSize], codeSize, zCount', repeatCount')
  {
    hide PutOff;
    packed', zCount', repeatCount' := packed, zCount, repeatCount;
    ghost var s' := s + [codeSize];
    if codeSize == 0 {
      if repeatCount' > 0 {
        packed' := FlushRepeat(packed', prev, repeatCount', s);
        repeatCount' := 0;
      }
      OneMore(packed', s, prev, 0, zCount');
      zCount' := zCount' + 1;
      if zCount' == 138 {
        packed' := FlushZeros(packed', zCount', s');
        zCount' := 0;
      }
    } else {
      if zCount' > 0 {
        packed' := FlushZeros(packed', zCount', s);
        zCount' := 0;
      }
      if codeSize != prev {
        if repeatCount' > 0 {
          packed' := FlushRepeat(packed', prev, repeatCount', s);
          repeatCount' := 0;
        }
        OneMore(packed', s, prev, codeSize, 0);
        SendPlain(packed', s', codeSize, 1);
        OneTime(codeSize);
        packed' := packed' + [codeSize];
      } else {
        OneMore(packed', s, prev, codeSize, repeatCount');
        repeatCount' := repeatCount' + 1;
        if repeatCount' == 6 {
          packed' := FlushRepeat(packed', prev, repeatCount', s');
          repeatCount' := 0;
        }
      }
    }
  }

  // What the loop keeps: at most one kind of run is put off, and a repeat has its length
  // before it.
  ghost predicate Pending(packed: seq<nat>, s: seq<nat>, prev: nat, zCount: nat, repeatCount: nat) {
    zCount < 138 && repeatCount < 6 && (zCount == 0 || (repeatCount == 0 && prev == 0)) && PutOff(packed, s, prev, zCount + repeatCount) &&
    (if s == [] then prev == 0xFF && zCount == 0 && repeatCount == 0 else prev == s[|s| - 1] < 16) &&
    (repeatCount > 0 ==> repeatCount < |s| && prev != 0 && s[|s| - repeatCount - 1] == prev)
  }

  lemma OneTime(x: nat)
    ensures Times(x, 1) == [x]
  {
    assert Times(x, 0) == [];
  }

  // The packing loop of tdefl_start_dynamic_block: the packed form means the same list and
  // is never longer.
  method Pack(sizes: seq<nat>) returns (packed: seq<nat>)
    requires forall i :: 0 <= i < |sizes| ==> sizes[i] < 16
    ensures Expand(packed, []) == Lengths(sizes) && Fits(packed) && |packed| <= |sizes|
  {
    hide Expand, Fits, PutOff;
    packed := [];
    var zCount, repeatCount, prev := 0, 0, 0xFF;
    PackNothing();
    assert sizes[..0] == [];
    for i := 0 to |sizes|
      invariant Pending(packed, sizes[..i], prev, zCount, repeatCount)
    {
      packed, zCount, repeatCount := PackOne(packed, sizes[i], prev, zCount, repeatCount, sizes[..i]);
      assert sizes[..i + 1] == sizes[..i] + [sizes[i]];
      prev := sizes[i];
    }
    assert sizes[..|sizes|] == sizes;
    if repeatCount > 0 {
      packed := FlushRepeat(packed, prev, repeatCount, sizes);
      NothingPutOff(packed, sizes, prev);
    } else {
      Anything(packed, sizes, prev, 0, zCount);
      packed := FlushZeros(packed, zCount, sizes);
      NothingPutOff(packed, sizes, 0);
    }
  }

  lemma NothingPutOff(packed: seq<nat>, s: seq<nat>, x: nat)
    requires PutOff(packed, s, x, 0)
    ensures Expand(packed, []) == Lengths(s) && Fits(packed) && |packed| <= |s|
  {
    assert s[..|s| - 0] == s;
  }

  lemma Anything(packed: seq<nat>, s: seq<nat>, x: nat, y: nat, n: nat)
    requires PutOff(packed, s, x, n) && (x == y || n == 0)
    ensures PutOff(packed, s, y, n)
  {
  }

  lemma PackNothing()
    ensures PutOff([], [], 0xFF, 0)
  {
  }

  lemma OneMore(packed: seq<nat>, s: seq<nat>, x: nat, y: nat, n: nat)
    requires PutOff(packed, s, x, n) && (x == y || n == 0)
    ensures PutOff(packed, s + [y], y, n + 1)
  {
    assert (s + [y])[..|s| + 1 - (n + 1)] == s[..|s| - n];
  }

  const LEN_CODES: nat := 457

  // memset on the list of lengths
  method Fill(lens: array<nat>, at: nat, x: nat, n: nat)
    requires at + n <= lens.Length
    modifies lens
    ensures lens[..at + n] == old(lens[..at]) + Times(x, n)
  {
    for k := 0 to n
      invariant lens[..at + k] == old(lens[..at]) + Times(x, k)
    {
      lens[at + k] := x;
      assert lens[..at + k + 1] == lens[..at + k] + [x];
    }
  }
}
