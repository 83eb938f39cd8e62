// The LZ code buffer of the compressor: groups of up to eight tokens, each group
// led by a byte of flags that tells matches from literals.

module LzBuffer {
  import opened Bits
  import opened Ints
  import opened LzSpec

  const LZ_CODE_BUF_SIZE: nat := 65536

  function Code(t: Token): (c: seq<byte>)
    requires TokenOk(t)
    ensures |c| == if t.Literal? then 1 else 3
  {
    match t
    case Literal(b) => [b]
    case Match(len, dist) => [len - MIN_MATCH_LEN, (dist - 1) % 256, (dist - 1) / 256]
  }

  predicate AllOk(ts: seq<Token>) {
    forall k :: 0 <= k < |ts| ==> TokenOk(ts[k])
  }

  function Codes(ts: seq<Token>): seq<byte>
    requires AllOk(ts)
  {
    if ts == [] then [] else Code(ts[0]) + Codes(ts[1..])
  }

  // Flag bits, first token lowest.
  function Flags(ts: seq<Token>): nat {
    if ts == [] then 0 else (if ts[0].Match? then 1 else 0) + 2 * Flags(ts[1..])
  }

  lemma {:induction false} FlagsBound(ts: seq<Token>)
    ensures Flags(ts) < Pow2(|ts|)
  {
    if ts != [] {
      FlagsBound(ts[1..]);
    }
  }

  function Group(ts: seq<Token>): seq<byte>
    requires AllOk(ts) && |ts| <= 8
  {
    FlagsBound(ts);
    Pow2Monotone(|ts|, 8);
    Pow2Values();
    [Flags(ts)] + Codes(ts)
  }

  // The bytes of a token list.
  function Packed(ts: seq<Token>): seq<byte>
    requires AllOk(ts)
  {
    if ts == [] then []
    else if |ts| <= 8 then Group(ts)
    else Group(ts[..8]) + Packed(ts[8..])
  }

  lemma GroupIs(ts: seq<Token>)
    requires AllOk(ts) && |ts| <= 8
    ensures |Group(ts)| == 1 + |Codes(ts)| && Group(ts)[0] == Flags(ts) && Group(ts)[1..] == Codes(ts)
  {
    hide Codes, Flags;
  }

  lemma PackedGroup(ts: seq<Token>)
    requires AllOk(ts) && ts != []
    ensures var n := if |ts| <= 8 then |ts| else 8;
            AllOk(ts[..n]) && AllOk(ts[n..]) && Packed(ts) == Group(ts[..n]) + Packed(ts[n..])
  {
    hide Group;
    if |ts| <= 8 {
      assert ts[..|ts|] == ts && ts[|ts|..] == [];
    }
  }

  lemma {:induction false} PackedAppend(done: seq<Token>, group: seq<Token>)
    requires AllOk(done) && AllOk(group) && |done| % 8 == 0 && 1 <= |group| <= 8
    ensures AllOk(done + group) && Packed(done + group) == Packed(done) + Group(group)
  {
    hide Group;
    if done == [] {
      assert done + group == group;
    } else {
      assert (done + group)[..8] == done[..8] && (done + group)[8..] == done[8..] + group;
      PackedAppend(done[8..], group);
      if |done| == 8 {
        assert done[8..] == [] && done[..8] == done;
      }
    }
  }

  lemma {:induction false} CodesAppend(ts: seq<Token>, t: Token)
    requires AllOk(ts) && TokenOk(t)
    ensures AllOk(ts + [t]) && Codes(ts + [t]) == Codes(ts) + Code(t)
  {
    if ts == [] {
      assert ts + [t] == [t];
      assert Codes([t]) == Code(t) + Codes([]);
    } else {
      assert (ts + [t])[1..] == ts[1..] + [t];
      CodesAppend(ts[1..], t);
    }
  }

  lemma {:induction false} FlagsAppend(ts: seq<Token>, t: Token)
    ensures Flags(ts + [t]) == Flags(ts) + (if t.Match? then Pow2(|ts|) else 0)
  {
    if ts == [] {
      assert ts + [t] == [t];
    } else {
      assert (ts + [t])[1..] == ts[1..] + [t];
      FlagsAppend(ts[1..], t);
    }
  }

  // Eight bits for each byte of the packed form, its flag among them.
  function PackedCost(ts: seq<Token>): nat {
    if ts == [] then 0 else (if ts[0].Match? then 25 else 9) + PackedCost(ts[1..])
  }

  lemma {:induction false} CostOfBoth(a: seq<Token>, b: seq<Token>)
    ensures PackedCost(a + b) == PackedCost(a) + PackedCost(b)
  {
    if a == [] {
      assert a + b == b;
    } else {
      assert (a + b)[1..] == a[1..] + b;
      CostOfBoth(a[1..], b);
    }
  }

  lemma {:induction false} CostOfCodes(ts: seq<Token>)
    requires AllOk(ts)
    ensures PackedCost(ts) == |ts| + 8 * |Codes(ts)| && 9 * |ts| <= PackedCost(ts)
  {
    if ts != [] {
      CostOfCodes(ts[1..]);
    }
  }

  // The packed form is no shorter than its cost: only an incomplete group wastes flags.
  lemma {:induction false} PackedIsLong(ts: seq<Token>)
    requires AllOk(ts)
    ensures 9 * |ts| <= PackedCost(ts) <= 8 * |Packed(ts)|
    decreases |ts|
  {
    hide Codes;
    CostOfCodes(ts);
    if ts != [] {
      PackedGroup(ts);
      var n := if |ts| <= 8 then |ts| else 8;
      hide Packed, Group;
      GroupIs(ts[..n]);
      CostOfCodes(ts[..n]);
      PackedIsLong(ts[n..]);
      assert ts[..n] + ts[n..] == ts;
      CostOfBoth(ts[..n], ts[n..]);
    }
  }

  // Shifting a flag into the top of the flag byte.
  lemma ShiftFlag(f: nat, v: nat, bit: nat, n: nat)
    requires f < 256 && bit <= 1 && n < 8 && f / Pow2(8 - n) == v
    ensures (f / 2 + 128 * bit) / Pow2(8 - (n + 1)) == v + bit * Pow2(n)
    ensures f / 2 + 128 * bit < 256
  {
    Pow2Values();
    if n == 0 {
    } else if n == 1 {
    } else if n == 2 {
    } else if n == 3 {
    } else if n == 4 {
    } else if n == 5 {
    } else if n == 6 {
    } else {
    }
  }

  // The bytes of a buffer with complete groups done and a group part, led by the flag
  // byte at p that still waits for left flags.
  ghost predicate Layout(view: seq<byte>, p: nat, left: nat, done: seq<Token>, part: seq<Token>)
    requires AllOk(done) && AllOk(part)
  {
    p < |view| && view[..p] == Packed(done) && view[p + 1..] == Codes(part) && view[p] / Pow2(left) == Flags(part)
  }

  // The same after the code of t went in and before its flag.
  ghost predicate Pending(view: seq<byte>, p: nat, left: nat, done: seq<Token>, part: seq<Token>, t: Token)
    requires AllOk(done) && AllOk(part) && TokenOk(t)
  {
    p < |view| && view[..p] == Packed(done) && view[p + 1..] == Codes(part) + Code(t) && view[p] / Pow2(left) == Flags(part)
  }

  lemma CodeIn(view: seq<byte>, p: nat, left: nat, done: seq<Token>, part: seq<Token>, t: Token)
    requires AllOk(done) && AllOk(part) && TokenOk(t) && Layout(view, p, left, done, part)
    ensures Pending(view + Code(t), p, left, done, part, t)
  {
    hide Packed, Codes, Code, Flags, Pow2;
  }

  lemma FlagIn(view: seq<byte>, p: nat, left: nat, done: seq<Token>, part: seq<Token>, t: Token, bit: nat)
    requires AllOk(done) && AllOk(part) && TokenOk(t) && Pending(view, p, left, done, part, t)
    requires 1 <= left && |part| == 8 - left && bit == if t.Match? then 1 else 0
    ensures AllOk(part + [t]) && p < |view| && view[p] / 2 + 128 * bit < 256
    ensures Layout(view[p := view[p] / 2 + 128 * bit], p, left - 1, done, part + [t])
  {
    hide Packed, Codes, Code, Flags, Pow2;
    ShiftFlag(view[p], Flags(part), bit, |part|);
    FlagsAppend(part, t);
    CodesAppend(part, t);
  }

  // A full group behind its flag byte continues the packed form.
  lemma NextGroup(done: seq<Token>, group: seq<Token>, view: seq<byte>, p: nat, x: byte)
    requires AllOk(done) && AllOk(group) && |done| % 8 == 0 && |group| == 8 && Layout(view, p, 0, done, group)
    ensures AllOk(done + group) && Layout(view + [x], |view|, 8, done + group, [])
  {
    hide Codes, Pow2, Flags, Packed, Group;
    Pow2Values();
    PackedAppend(done, group);
    GroupIs(group);
    assert view == view[..p] + ([view[p]] + view[p + 1..]);
    assert view == Packed(done) + Group(group);
    NothingPacked();
  }

  lemma Closed(view: seq<byte>, p: nat, left: nat, done: seq<Token>, part: seq<Token>)
    requires AllOk(done) && AllOk(part) && |done| % 8 == 0 && Layout(view, p, left, done, part)
    requires 1 <= left <= 8 && |part| == 8 - left
    ensures view[p] / Pow2(left) < 256
    ensures left == 8 ==> p == |view| - 1 && view[..|view| - 1] == Packed(done + part)
    ensures left < 8 ==> AllOk(done + part) && view[p := view[p] / Pow2(left)] == Packed(done + part)
  {
    hide Codes, Pow2, Flags, Packed, Group;
    Pow2Values();
    NothingPacked();
    if left == 8 {
      assert done + part == done;
      assert part == [];
    } else {
      PackedAppend(done, part);
      GroupIs(part);
      assert view[p := view[p] / Pow2(left)] == Packed(done) + Group(part);
    }
  }

  class Buffer {
    const buf: array<byte>
    var pCode: nat          // m_pLZ_code_buf
    var pFlags: nat         // m_pLZ_flags
    var numFlagsLeft: nat
    ghost var tokens: seq<Token>

    ghost predicate Valid()
      reads this, buf
    {
      buf.Length == LZ_CODE_BUF_SIZE && pFlags < pCode <= buf.Length && 1 <= numFlagsLeft <= 8 &&
      AllOk(tokens) && 8 - numFlagsLeft <= |tokens| && |Done()| % 8 == 0 &&
      Layout(buf[..pCode], pFlags, numFlagsLeft, Done(), Part())
    }

    // The complete groups and the one being filled.
    ghost function Done(): seq<Token>
      reads this
      requires numFlagsLeft <= 8 && 8 - numFlagsLeft <= |tokens|
    {
      tokens[..|tokens| - (8 - numFlagsLeft)]
    }

    ghost function Part(): seq<Token>
      reads this
      requires numFlagsLeft <= 8 && 8 - numFlagsLeft <= |tokens|
    {
      tokens[|tokens| - (8 - numFlagsLeft)..]
    }

    constructor ()
      ensures Valid() && tokens == [] && fresh(buf) && pCode == 1
    {
      buf := new byte[LZ_CODE_BUF_SIZE](_ => 0);
      pCode, pFlags, numFlagsLeft := 1, 0, 8;
      tokens := [];
      new;
      Pow2Values();
    }

    // The common end of both record functions: shift a flag in and start a new group
    // after the eighth token. The token's code bytes are in place already.
    method PushFlag(bit: nat, ghost t: Token)
      requires TokenOk(t) && bit == (if t.Match? then 1 else 0)
      requires buf.Length == LZ_CODE_BUF_SIZE && pFlags < pCode < buf.Length && 1 <= numFlagsLeft <= 8
      requires AllOk(tokens) && 8 - numFlagsLeft <= |tokens| && |Done()| % 8 == 0
      requires Pending(buf[..pCode], pFlags, numFlagsLeft, Done(), Part(), t)
      modifies this, buf
      ensures Valid() && tokens == old(tokens) + [t]
      ensures old(pCode) <= pCode <= old(pCode) + 1
    {
      hide Layout, Pending;
      ghost var part, done, view := Part(), Done(), buf[..pCode];
      FlagIn(view, pFlags, numFlagsLeft, done, part, t, bit);
      buf[pFlags] := buf[pFlags] / 2 + 128 * bit;
      numFlagsLeft := numFlagsLeft - 1;
      tokens := tokens + [t];
      assert Part() == part + [t] && Done() == done;
      assert buf[..pCode] == view[pFlags := view[pFlags] / 2 + 128 * bit];
      if numFlagsLeft == 0 {
        NextGroup(done, part + [t], buf[..pCode], pFlags, buf[pCode]);
        assert tokens == done + (part + [t]);
        numFlagsLeft := 8;
        pFlags := pCode;
        pCode := pCode + 1;
        assert buf[..pCode] == buf[..pCode - 1] + [buf[pCode - 1]];
        assert Part() == [] && Done() == tokens;
      }
    }

    // tdefl_record_literal
    method RecordLiteral(lit: byte)
      requires Valid() && pCode + 1 < buf.Length
      modifies this, buf
      ensures Valid() && tokens == old(tokens) + [Literal(lit)]
      ensures old(pCode) < pCode <= old(pCode) + 2
    {
      hide Layout, Pending;
      ghost var view := buf[..pCode];
      buf[pCode] := lit;
      pCode := pCode + 1;
      assert buf[..pCode] == view + Code(Literal(lit));
      CodeIn(view, pFlags, numFlagsLeft, Done(), Part(), Literal(lit));
      PushFlag(0, Literal(lit));
    }

    // tdefl_record_match
    method RecordMatch(len: nat, dist: nat)
      requires Valid() && pCode + 3 < buf.Length && TokenOk(Match(len, dist))
      modifies this, buf
      ensures Valid() && tokens == old(tokens) + [Match(len, dist)]
      ensures old(pCode) < pCode <= old(pCode) + 4
    {
      hide Layout, Pending;
      ghost var view := buf[..pCode];
      buf[pCode] := len - MIN_MATCH_LEN;
      buf[pCode + 1] := (dist - 1) % 256;
      buf[pCode + 2] := (dist - 1) / 256;
      pCode := pCode + 3;
      assert buf[..pCode] == view + Code(Match(len, dist));
      CodeIn(view, pFlags, numFlagsLeft, Done(), Part(), Match(len, dist));
      PushFlag(1, Match(len, dist));
    }

    // The start of tdefl_flush_block: move the flags of an incomplete group into place.
    // Afterwards the first pCode bytes are exactly the packed tokens.
    method Close()
      requires Valid()
      modifies this`pCode, buf
      ensures buf.Length == LZ_CODE_BUF_SIZE && pCode <= buf.Length
      ensures AllOk(tokens) && buf[..pCode] == Packed(tokens)
    {
      hide Layout;
      ghost var part, done, view := Part(), Done(), buf[..pCode];
      assert tokens == done + part;
      Closed(view, pFlags, numFlagsLeft, done, part);
      buf[pFlags] := ShiftDown(buf[pFlags], numFlagsLeft);
      assert buf[..pCode] == view[pFlags := view[pFlags] / Pow2(numFlagsLeft)];
      if numFlagsLeft == 8 {
        pCode := pCode - 1;
        assert buf[..pCode] == view[..pCode];
      }
    }

    // The end of tdefl_flush_block: an empty buffer again.
    method Reset()
      requires buf.Length == LZ_CODE_BUF_SIZE
      modifies this
      ensures Valid() && tokens == [] && pCode == 1
    {
      pCode, pFlags, numFlagsLeft := 1, 0, 8;
      tokens := [];
      Pow2Values();
    }
  }

  // A right shift by n bits.
  function ShiftDown(b: byte, n: nat): (r: byte)
    requires n <= 8
    ensures r == b / Pow2(n)
  {
    Pow2Values();
    assert n == 0 || n == 1 || n == 2 || n == 3 || n == 4 || n == 5 || n == 6 || n == 7 || n == 8;
    if n == 0 then b else if n == 1 then b / 2 else if n == 2 then b / 4 else if n == 3 then b / 8
    else if n == 4 then b / 16 else if n == 5 then b / 32 else if n == 6 then b / 64 else if n == 7 then b / 128 else b / 256
  }

  function MatchOf(b0: nat, b1: nat, b2: nat): Token {
    Match(b0 + MIN_MATCH_LEN, b1 + 256 * b2 + 1)
  }

  // The loop of tdefl_compress_lz_codes over a closed buffer, with the coding of each
  // token left out: it meets exactly the recorded tokens, in order, and never reads
  // past the end.
  method ReadTokens(buf: array<byte>, end: nat, ghost ts: seq<Token>) returns (out: seq<Token>)
    requires end <= buf.Length && AllOk(ts) && buf[..end] == Packed(ts)
    ensures out == ts
  {
    hide Reading;
    out := [];
    var flags: nat := 1;
    var p := 0;
    ghost var group: seq<Token>, rest := [], ts;
    ghost var n: nat := 0;
    StartReading(ts);
    assert buf[0..end] == buf[..end];
    while p < end
      invariant p <= end && Reading(ts, out, group, rest, n, flags, buf[p..end])
      decreases end - p
    {
      if flags == 1 {
        assert buf[p..end][0] == buf[p] && buf[p..end][1..] == buf[p + 1..end];
        group, rest := GroupRead(ts, out, group, rest, n, buf[p..end]);
        var f: nat := buf[p];
        flags, n := f + 256, 8;
        p := p + 1;
      }
      TokenRead(ts, out, group, rest, n, flags, buf[p..end]);
      assert buf[p..end][0] == buf[p];
      if flags % 2 == 1 {
        assert |buf[p..end]| == end - p >= 3;
        assert buf[p..end][1] == buf[p + 1] && buf[p..end][2] == buf[p + 2] && buf[p..end][3..] == buf[p + 3..end];
        out := out + [MatchOf(buf[p], buf[p + 1], buf[p + 2])];
        p := p + 3;
      } else {
        assert buf[p..end][1..] == buf[p + 1..end];
        out := out + [Literal(buf[p])];
        p := p + 1;
      }
      flags := flags / 2;
      group := group[1..];
      n := n - 1;
    }
    AllRead(ts, out, group, rest, n, flags, buf[p..end]);
  }

  // The tokens read, those of the open group, and the others; n flags of the group are left
  // under a sentinel, and view is what is left of the buffer.
  ghost predicate Reading(ts: seq<Token>, out: seq<Token>, group: seq<Token>, rest: seq<Token>, n: nat, flags: nat, view: seq<byte>) {
    ts == out + group + rest && |group| <= n <= 8 && (rest != [] ==> |group| == n) && AllOk(group) && AllOk(rest) &&
    view == Codes(group) + Packed(rest) && flags == Flags(group) + Pow2(n)
  }

  lemma StartReading(ts: seq<Token>)
    requires AllOk(ts)
    ensures Reading(ts, [], [], ts, 0, 1, Packed(ts))
  {
    hide Codes, Packed, Flags, Pow2;
    NothingPacked();
    assert [] + [] + ts == ts && [] + Packed(ts) == Packed(ts);
  }

  lemma GroupRead(ts: seq<Token>, out: seq<Token>, group: seq<Token>, rest: seq<Token>, n: nat, view: seq<byte>)
    returns (group': seq<Token>, rest': seq<Token>)
    requires Reading(ts, out, group, rest, n, 1, view) && view != []
    ensures group' != [] && Reading(ts, out, group', rest', 8, view[0] as int + 256, view[1..])
  {
    GroupOver(group, n);
    hide Codes, Packed, Flags, Pow2, AllOk;
    group' := rest[..if |rest| <= 8 then |rest| else 8];
    rest' := rest[|group'|..];
    OpenGroup(rest, group', rest', view);
    assert out + [] + (group' + rest') == out + group' + rest';
  }

  lemma TokenRead(ts: seq<Token>, out: seq<Token>, group: seq<Token>, rest: seq<Token>, n: nat, flags: nat, view: seq<byte>)
    requires Reading(ts, out, group, rest, n, flags, view) && flags != 1 && (view != [] || group != [])
    ensures n > 0 && group != [] && view != []
    ensures flags % 2 == 1 ==> |view| >= 3 && Reading(ts, out + [MatchOf(view[0], view[1], view[2])], group[1..], rest, n - 1, flags / 2, view[3..])
    ensures flags % 2 == 0 ==> Reading(ts, out + [Literal(view[0])], group[1..], rest, n - 1, flags / 2, view[1..])
  {
    TokenLeft(group, rest, n, flags);
    hide Codes, Packed, Flags, Pow2, AllOk, Code, MatchOf;
    NextCode(group, rest, n, view);
    TakeOne(out, group, rest);
  }

  lemma AllRead(ts: seq<Token>, out: seq<Token>, group: seq<Token>, rest: seq<Token>, n: nat, flags: nat, view: seq<byte>)
    requires Reading(ts, out, group, rest, n, flags, view) && view == []
    ensures out == ts
  {
    NothingLeft(group, rest);
  }

  lemma NothingPacked()
    ensures Codes([]) == [] && Packed([]) == [] && Flags([]) + Pow2(0) == 1 && AllOk([])
  {
  }

  // At the end of a group, the next one begins with its flags.
  lemma OpenGroup(all: seq<Token>, group: seq<Token>, rest: seq<Token>, view: seq<byte>)
    requires AllOk(all) && view != [] && view == Codes([]) + Packed(all)
    requires group == all[..if |all| <= 8 then |all| else 8] && rest == all[|group|..]
    ensures all == group + rest && AllOk(group) && AllOk(rest) && group != []
    ensures view[0] == Flags(group) && view[1..] == Codes(group) + Packed(rest)
    ensures Pow2(8) == 256
  {
    hide *;
    Pow2Values();
    NothingPacked();
    PackedGroup(all);
    GroupIs(group);
    assert [] + Packed(all) == Packed(all);
    FirstOut(Flags(group), Codes(group), Packed(rest), view);
  }

  lemma TakeOne(out: seq<Token>, group: seq<Token>, rest: seq<Token>)
    requires group != [] && AllOk(group)
    ensures out + group + rest == (out + [group[0]]) + group[1..] + rest && AllOk(group[1..])
  {
  }

  // A sentinel above one shows that the group is still open.
  lemma TokenLeft(group: seq<Token>, rest: seq<Token>, n: nat, flags: nat)
    requires flags == Flags(group) + Pow2(n) && flags != 1 && |group| <= n && (rest != [] ==> |group| == n)
    ensures n > 0 && (rest != [] ==> group != [])
  {
  }

  lemma FirstOut(x: nat, s: seq<byte>, t: seq<byte>, view: seq<byte>)
    requires x < 256 && view == [x] + s + t
    ensures view[0] == x && view[1..] == s + t
  {
  }

  // The bytes of the next token, told apart by the lowest flag.
  lemma NextCode(group: seq<Token>, rest: seq<Token>, n: nat, view: seq<byte>)
    requires AllOk(group) && AllOk(rest) && n > 0 && (rest != [] ==> group != [])
    requires view == Codes(group) + Packed(rest) && (view != [] || group != [])
    ensures group != [] && view != [] && (Flags(group) + Pow2(n)) / 2 == Flags(group[1..]) + Pow2(n - 1)
    ensures (Flags(group) + Pow2(n)) % 2 == (if group[0].Match? then 1 else 0)
    ensures group[0].Match? ==> |view| >= 3 && group[0] == MatchOf(view[0], view[1], view[2]) &&
                                view[3..] == Codes(group[1..]) + Packed(rest)
    ensures group[0].Literal? ==> group[0] == Literal(view[0]) && view[1..] == Codes(group[1..]) + Packed(rest)
  {
    hide Packed;
    if group == [] {
      NothingPacked();
    } else {
      assert view == Code(group[0]) + (Codes(group[1..]) + Packed(rest));
    }
  }

  lemma NothingLeft(group: seq<Token>, rest: seq<Token>)
    requires AllOk(group) && AllOk(rest) && Codes(group) + Packed(rest) == []
    ensures group == [] && rest == []
  {
  }

  lemma GroupOver(group: seq<Token>, n: nat)
    requires |group| <= n <= 8 && Flags(group) + Pow2(n) == 1
    ensures n == 0 && group == []
  {
  }
}
