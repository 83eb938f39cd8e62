// The header of a block with codes of its own as the decompressor reads it, for any bits at all
// (section 3.2.7 of RFC 1951).

module InflateHeader {
  import opened Bits
  import opened Bitstream
  import opened HuffmanCode
  import opened HuffmanTable
  import opened Inflate
  import opened DeflateBlock
  import opened InflateTokens
  import CodeLengths

  // ----- The packed lengths -----

  // The lengths that the next entry stands for, behind out.
  ghost function NextEntry(rest: seq<bool>, cs: seq<nat>, out: seq<nat>): (x: Read<seq<nat>>)
    requires |cs| == LENGTH_SYMBOLS && Lengths(out)
    ensures x.Got? ==> 1 <= |x.value| <= 138 && Lengths(x.value) && |x.rest| <= |rest|
    ensures !x.Full?
  {
    match NextSymbol(cs, rest)
    case NoSymbol => Starved
    case Symbol(c, n, p) =>
      if c < 16 then Got([c], rest[n..], p)
      else if c == 16 && out == [] then Corrupt
      else
        match NextNumber(rest[n..], ExtraOf(c))
        case Got(v, rest', _) =>
          RunLimit(c, v);
          Got(CodeLengths.Times(if c == 16 then out[|out| - 1] else 0, v + if c == 18 then 11 else 3), rest', p)
        case _ => Starved
  }

  lemma RunLimit(c: nat, v: nat)
    requires 16 <= c <= 18 && v < Pow2(ExtraOf(c))
    ensures ExtraOf(c) <= 7 && v < (if c == 16 then 4 else if c == 17 then 8 else 128)
  {
    Pow2Values();
  }

  ghost function ReadEntries(rest: seq<bool>, cs: seq<nat>, out: seq<nat>, total: nat, q: bool): (x: Read<seq<nat>>)
    requires |cs| == LENGTH_SYMBOLS && Lengths(out)
    ensures x.Got? ==> |x.value| == total && Lengths(x.value) && |x.rest| <= |rest|
    ensures !x.Full?
    decreases total - |out|
  {
    if |out| >= total then (if |out| == total then Got(out, rest, q) else Corrupt)
    else
      match NextEntry(rest, cs, out)
      case Got(s, rest', p) => ReadEntries(rest', cs, out + s, total, q && p)
      case Corrupt => Corrupt
      case _ => Starved
  }

  // ----- The header -----

  predicate UpToSeven(cs: seq<nat>) {
    forall k :: 0 <= k < |cs| ==> cs[k] <= 7
  }

  // The lengths of the length code, from the i-th on.
  ghost function ReadSizes(rest: seq<bool>, cs: seq<nat>, i: nat, n: nat): (x: Read<seq<nat>>)
    requires |cs| == LENGTH_SYMBOLS && i <= n <= LENGTH_SYMBOLS
    ensures x.Got? ==> |x.value| == LENGTH_SYMBOLS && |x.rest| <= |rest|
    ensures x.Got? && UpToSeven(cs) ==> UpToSeven(x.value)
    ensures x.Got? || x.Starved?
    decreases n - i
  {
    Pow2Values();
    if i == n then Got(cs, rest, true)
    else
      match NextNumber(rest, 3)
      case Got(v, rest', _) => ReadSizes(rest', cs[Ordered(i) := v], i + 1, n)
      case _ => Starved
  }

  // The k-th field of three bits.
  ghost function Field(rest: seq<bool>, k: nat): nat
    requires 3 * k + 3 <= |rest|
  {
    Num(rest[3 * k..3 * k + 3])
  }

  // Which field is the length of which symbol; where the fields end, lengths are zero.
  lemma SizesOrder(rest: seq<bool>, n: nat)
    requires 4 <= n <= LENGTH_SYMBOLS && ReadSizes(rest, CodeLengths.Times(0, LENGTH_SYMBOLS), 0, n).Got?
    ensures 3 * n <= |rest| && ReadSizes(rest, CodeLengths.Times(0, LENGTH_SYMBOLS), 0, n).rest == rest[3 * n..]
    ensures var cs := ReadSizes(rest, CodeLengths.Times(0, LENGTH_SYMBOLS), 0, n).value;
            cs[16] == Field(rest, 0) && cs[17] == Field(rest, 1) && cs[18] == Field(rest, 2) && cs[0] == Field(rest, 3) &&
            (forall j: nat :: j <= 7 ==> cs[8 + j] == if 4 + 2 * j < n then Field(rest, 4 + 2 * j) else 0) &&
            (forall j: nat :: j <= 6 ==> cs[7 - j] == if 5 + 2 * j < n then Field(rest, 5 + 2 * j) else 0)
  {
    hide ReadSizes, Field, NextNumber;
    SizesAt(rest, CodeLengths.Times(0, LENGTH_SYMBOLS), 0, n);
    var cs := ReadSizes(rest, CodeLengths.Times(0, LENGTH_SYMBOLS), 0, n).value;
    OrderIs();
    hide Ordered;
    forall j: nat | j <= 7 ensures cs[8 + j] == if 4 + 2 * j < n then Field(rest, 4 + 2 * j) else 0 {
      assert cs[Ordered(4 + 2 * j)] == cs[8 + j];
    }
    forall j: nat | j <= 6 ensures cs[7 - j] == if 5 + 2 * j < n then Field(rest, 5 + 2 * j) else 0 {
      assert cs[Ordered(5 + 2 * j)] == cs[7 - j];
    }
  }

  lemma {:induction false} SizesAt(rest: seq<bool>, c: seq<nat>, i: nat, n: nat)
    requires |c| == LENGTH_SYMBOLS && i <= n <= LENGTH_SYMBOLS && ReadSizes(rest, c, i, n).Got?
    ensures 3 * (n - i) <= |rest| && ReadSizes(rest, c, i, n).rest == rest[3 * (n - i)..]
    ensures forall k: nat :: k < LENGTH_SYMBOLS ==>
              ReadSizes(rest, c, i, n).value[Ordered(k)] == if i <= k < n then Field(rest, k - i) else c[Ordered(k)]
    decreases n - i
  {
    hide Ordered, Num, NextNumber;
    if i < n {
      var y := NextNumber(rest, 3);
      SizesAt(y.rest, c[Ordered(i) := y.value], i + 1, n);
      var x := ReadSizes(rest, c, i, n);
      NumberIs(rest, 3);
      forall k: nat | k < LENGTH_SYMBOLS ensures x.value[Ordered(k)] == if i <= k < n then Field(rest, k - i) else c[Ordered(k)] {
        PlaceOf(k);
        PlaceOf(i);
        if i < k < n {
          assert y.rest[3 * (k - i - 1)..3 * (k - i - 1) + 3] == rest[3 * (k - i)..3 * (k - i) + 3];
        }
      }
    }
  }

  lemma NumberIs(rest: seq<bool>, n: nat)
    requires NextNumber(rest, n).Got?
    ensures n <= |rest| && NextNumber(rest, n).value == Num(rest[0..n]) && NextNumber(rest, n).rest == rest[n..]
  {
    hide Num;
    assert rest[0..n] == rest[..n];
  }

  datatype Codes = Codes(lit: seq<nat>, dist: seq<nat>)

  ghost function AfterSizes(rest: seq<bool>, cs: seq<nat>, numLit: nat, numDist: nat): (x: Read<Codes>)
    requires |cs| == LENGTH_SYMBOLS
    ensures x.Got? ==> |x.value.lit| == numLit && |x.value.dist| == numDist && Acceptable(x.value.lit) && Acceptable(x.value.dist) && |x.rest| <= |rest|
    ensures !x.Full?
  {
    if !Acceptable(cs) then Corrupt
    else
      match ReadEntries(rest, cs, [], numLit + numDist, true)
      case Got(all, rest', p) =>
        if Acceptable(all[numLit..]) && Acceptable(all[..numLit]) then Got(Codes(all[..numLit], all[numLit..]), rest', p) else Corrupt
      case Corrupt => Corrupt
      case _ => Starved
  }

  ghost function AfterCounts(rest: seq<bool>, numLit: nat, numDist: nat, n: nat): (x: Read<Codes>)
    requires n <= LENGTH_SYMBOLS
    ensures x.Got? ==> |x.value.lit| == numLit && |x.value.dist| == numDist && Acceptable(x.value.lit) && Acceptable(x.value.dist) && |x.rest| <= |rest|
    ensures !x.Full?
  {
    match ReadSizes(rest, CodeLengths.Times(0, LENGTH_SYMBOLS), 0, n)
    case Got(cs, rest', _) => AfterSizes(rest', cs, numLit, numDist)
    case _ => Starved
  }

  // How many lengths there are of each kind.
  datatype Counts = Counts(numLit: nat, numDist: nat, numBitLengths: nat)

  ghost function ReadCounts(rest: seq<bool>): (x: Read<Counts>)
    ensures x.Got? ==> 257 <= x.value.numLit <= 288 && 1 <= x.value.numDist <= 32 && 4 <= x.value.numBitLengths <= LENGTH_SYMBOLS && |x.rest| <= |rest|
    ensures x.Got? || x.Starved?
  {
    Pow2Limits();
    match NextNumber(rest, 5)
    case Got(a, rest1, _) =>
      (match NextNumber(rest1, 5)
       case Got(b, rest2, _) =>
         (match NextNumber(rest2, 4)
          case Got(c, rest3, _) => Got(Counts(a + 257, b + 1, c + 4), rest3, true)
          case _ => Starved)
       case _ => Starved)
    case _ => Starved
  }

  ghost function ReadCodes(rest: seq<bool>): (x: Read<Codes>)
    ensures x.Got? ==> 257 <= |x.value.lit| <= 288 && 1 <= |x.value.dist| <= 32 && Acceptable(x.value.lit) && Acceptable(x.value.dist) && |x.rest| <= |rest|
    ensures !x.Full?
  {
    match ReadCounts(rest)
    case Got(c, rest', _) => AfterCounts(rest', c.numLit, c.numDist, c.numBitLengths)
    case _ => Starved
  }

  // ----- Reading -----

  ghost predicate Aside(lens: array<nat>, t: Table) {
    (lens as object) != t.lookUp && (lens as object) != t.tree
  }

  method PutLength(lens: array<nat>, counter: nat, dist: nat)
    requires counter < lens.Length
    modifies lens
    ensures lens[..counter + 1] == old(lens[..counter]) + [dist]
  {
    lens[counter] := dist;
  }

  // The decompressor's tables: for literals and lengths, for distances, for code lengths.
  class Tables3 {
    const t0: Table
    const t1: Table
    const t2: Table
    const size0: array<nat>
    const size1: array<nat>
    const size2: array<nat>
    const lens: array<nat>

    ghost predicate Arrays() {
      t0.Shape() && t1.Shape() && t2.Shape() && Separate() &&
      size0.Length == LIT_SYMBOLS && size1.Length == LIT_SYMBOLS && size2.Length == LIT_SYMBOLS && lens.Length == CodeLengths.LEN_CODES
    }

    // No two tables or lists share memory.
    ghost predicate Separate() {
      t0 != t1 && t0 != t2 && t1 != t2 && size0 != size1 && size0 != size2 && size1 != size2 && lens != size0 && lens != size1 && lens != size2 &&
      Aside(size0, t0) && Aside(size0, t1) && Aside(size0, t2) && Aside(size1, t0) && Aside(size1, t1) && Aside(size1, t2) &&
      Aside(size2, t0) && Aside(size2, t1) && Aside(size2, t2) && Aside(lens, t0) && Aside(lens, t1) && Aside(lens, t2) &&
      t0.lookUp != t1.lookUp && t0.lookUp != t1.tree && t0.tree != t1.lookUp && t0.tree != t1.tree &&
      t0.lookUp != t2.lookUp && t0.lookUp != t2.tree && t0.tree != t2.lookUp && t0.tree != t2.tree &&
      t1.lookUp != t2.lookUp && t1.lookUp != t2.tree && t1.tree != t2.lookUp && t1.tree != t2.tree
    }

    constructor ()
      ensures Arrays() && fresh(t0) && fresh(t1) && fresh(t2) && fresh(size0) && fresh(size1) && fresh(size2) && fresh(lens)
      ensures fresh(t0.lookUp) && fresh(t0.tree) && fresh(t1.lookUp) && fresh(t1.tree) && fresh(t2.lookUp) && fresh(t2.tree)
    {
      t0 := new Table();
      t1 := new Table();
      t2 := new Table();
      size0 := new nat[LIT_SYMBOLS](_ => 0);
      size1 := new nat[LIT_SYMBOLS](_ => 0);
      size2 := new nat[LIT_SYMBOLS](_ => 0);
      lens := new nat[CodeLengths.LEN_CODES](_ => 0);
    }
  }

  // The loop of tinfl_decompress that reads the packed lengths.
  method ReadCodeLengths(r: Reader, t2: Table, total: nat, lens: array<nat>, ghost cs: seq<nat>) returns (st: InflateStatus)
    requires r.Valid() && Acceptable(cs) && |cs| == LENGTH_SYMBOLS && t2.Filled(cs, LENGTH_SYMBOLS) && Aside(lens, t2)
    requires lens.Length == CodeLengths.LEN_CODES && total <= 320
    modifies r, lens
    ensures r.Valid()
    ensures var x := ReadEntries(old(r.Rest()), cs, [], total, true);
            if x.Got? then st == InflateDone && lens[..total] == x.value && r.Rest() == x.rest else Fails(x, st)
  {
    hide Reader.Valid, Reader.Rest, Acceptable, Table.Filled, ReadEntries, NextEntry, CodeLengths.Times;
    ghost var x, q := ReadEntries(r.Rest(), cs, [], total, true), true;
    var counter := 0;
    assert lens[..0] == [];
    while counter < total
      invariant r.Valid() && t2.Filled(cs, LENGTH_SYMBOLS) && counter <= lens.Length && Lengths(lens[..counter])
      invariant ReadEntries(r.Rest(), cs, lens[..counter], total, q) == x
      decreases total - counter
    {
      EntryStep(r.Rest(), cs, lens[..counter], total, q);
      ghost var y, out := NextEntry(r.Rest(), cs, lens[..counter]), lens[..counter];
      st, counter := ReadEntry(r, t2, lens, counter, cs);
      if st != InflateDone {
        return;
      }
      q := q && y.proper;
    }
    EntriesEnd(r.Rest(), cs, lens[..counter], total, q);
    st := if total == counter then InflateDone else InflateFailed;
  }

  lemma EntryStep(rest: seq<bool>, cs: seq<nat>, out: seq<nat>, total: nat, q: bool)
    requires |cs| == LENGTH_SYMBOLS && Lengths(out) && |out| < total
    ensures var x, y := ReadEntries(rest, cs, out, total, q), NextEntry(rest, cs, out);
            if y.Got? then x == ReadEntries(y.rest, cs, out + y.value, total, q && y.proper) else x.Corrupt? == y.Corrupt? && x.Starved? == y.Starved?
  {
    hide NextEntry;
  }

  lemma EntriesEnd(rest: seq<bool>, cs: seq<nat>, out: seq<nat>, total: nat, q: bool)
    requires |cs| == LENGTH_SYMBOLS && Lengths(out) && |out| >= total
    ensures ReadEntries(rest, cs, out, total, q) == if |out| == total then Got(out, rest, q) else Corrupt
  {
  }

  // A length that stands for itself, or a run.
  method ReadEntry(r: Reader, t2: Table, lens: array<nat>, counter: nat, ghost cs: seq<nat>) returns (st: InflateStatus, counter': nat)
    requires r.Valid() && Acceptable(cs) && |cs| == LENGTH_SYMBOLS && t2.Filled(cs, LENGTH_SYMBOLS) && Aside(lens, t2)
    requires lens.Length == CodeLengths.LEN_CODES && counter < 320 && Lengths(lens[..counter])
    modifies r, lens
    ensures r.Valid()
    ensures var x := NextEntry(old(r.Rest()), cs, old(lens[..counter]));
            if x.Got? then st == InflateDone && counter < counter' <= lens.Length && lens[..counter'] == old(lens[..counter]) + x.value && r.Rest() == x.rest
            else Fails(x, st)
  {
    hide Reader.Valid, Reader.Rest, Acceptable, Table.Filled, NextSymbol, CodeLengths.Times, NextNumber;
    st, counter' := InflateDone, counter;
    ghost var out := lens[..counter];
    var ok, dist := HuffDecode(r, t2, cs);
    if !ok {
      return CannotMakeProgress, counter;
    }
    if dist < 16 {
      PutLength(lens, counter, dist);
      return InflateDone, counter + 1;
    }
    if dist == 16 && counter == 0 {
      return InflateFailed, counter;
    }
    var s;
    ok, s := GetNumber(r, ExtraOf(dist));
    if !ok {
      return CannotMakeProgress, counter;
    }
    RunLimit(dist, s);
    s := s + if dist == 18 then 11 else 3;
    CodeLengths.Fill(lens, counter, if dist == 16 then lens[counter - 1] else 0, s);
    counter' := counter + s;
  }

  // s_length_dezigzag
  const DEZIGZAG: seq<nat> := [16, 17, 18, 0, 8, 7, 9, 6, 10, 5, 11, 4, 12, 3, 13, 2, 14, 1, 15]

  lemma DezigzagIsOrder(k: nat)
    requires k < LENGTH_SYMBOLS
    ensures DEZIGZAG[k] == Ordered(k) < LENGTH_SYMBOLS
  {
  }

  // The lengths of the length code.
  method ReadLengthCode(r: Reader, size2: array<nat>, n: nat) returns (ok: bool)
    requires r.Valid() && size2.Length == LIT_SYMBOLS && n <= LENGTH_SYMBOLS
    modifies r, size2
    ensures r.Valid()
    ensures var x := ReadSizes(old(r.Rest()), CodeLengths.Times(0, LENGTH_SYMBOLS), 0, n);
            ok == x.Got? && (ok ==> size2[..LENGTH_SYMBOLS] == x.value && r.Rest() == x.rest)
  {
    hide Reader.Valid, Reader.Rest, NextNumber, Ordered;
    forall k | 0 <= k < size2.Length {
      size2[k] := 0;
    }
    assert size2[..LENGTH_SYMBOLS] == CodeLengths.Times(0, LENGTH_SYMBOLS);
    ghost var x := ReadSizes(r.Rest(), CodeLengths.Times(0, LENGTH_SYMBOLS), 0, n);
    for i := 0 to n
      invariant r.Valid() && ReadSizes(r.Rest(), size2[..LENGTH_SYMBOLS], i, n) == x
    {
      DezigzagIsOrder(i);
      ghost var cs := size2[..LENGTH_SYMBOLS];
      var s;
      ok, s := GetNumber(r, 3);
      if !ok {
        return;
      }
      size2[DEZIGZAG[i]] := s;
      assert size2[..LENGTH_SYMBOLS] == cs[Ordered(i) := s];
    }
    ok := true;
  }

  method CopyLengths(src: array<nat>, from: nat, dst: array<nat>, n: nat)
    requires from + n <= src.Length && n <= dst.Length && src != dst
    modifies dst
    ensures dst[..n] == src[from..from + n]
  {
    for i := 0 to n
      invariant dst[..i] == src[from..from + i]
    {
      dst[i] := src[from + i];
      assert dst[..i + 1] == dst[..i] + [dst[i]];
    }
  }

  method GetCounts(r: Reader) returns (ok: bool, numLit: nat, numDist: nat, n: nat)
    requires r.Valid()
    modifies r
    ensures r.Valid() && var x := ReadCounts(old(r.Rest())); ok == x.Got? && (ok ==> Counts(numLit, numDist, n) == x.value && r.Rest() == x.rest)
  {
    hide Reader.Valid, Reader.Rest, NextNumber;
    numLit, numDist, n := 0, 0, 0;
    ok, numLit := GetNumber(r, 5);
    numLit := numLit + 257;
    if ok {
      ok, numDist := GetNumber(r, 5);
      numDist := numDist + 1;
      if ok {
        ok, n := GetNumber(r, 4);
        n := n + 4;
      }
    }
  }

  // The table part of tinfl_decompress for one code.
  method BuildTable(t: Table, sizes: array<nat>, n: nat, ghost cs: seq<nat>) returns (ok: bool)
    requires t.Shape() && Aside(sizes, t) && n <= sizes.Length && sizes[..n] == cs && Lengths(cs) && n <= MAX_SYMBOLS
    modifies t, t.lookUp, t.tree
    ensures (ok <==> Acceptable(cs)) && (ok ==> t.Filled(cs, n))
  {
    hide Complete, Single, Table.Filled, Acceptable;
    ok := t.Build(sizes, n);
  }

  // The header part of tinfl_decompress for a block with codes of its own, up to the tables.
  method ReadHeader(r: Reader, t: Tables3) returns (st: InflateStatus, numLit: nat, numDist: nat)
    requires r.Valid() && t.Arrays()
    modifies r, t.t0, t.t0.lookUp, t.t0.tree, t.t1, t.t1.lookUp, t.t1.tree, t.t2, t.t2.lookUp, t.t2.tree, t.size0, t.size1, t.size2, t.lens
    ensures r.Valid()
    ensures var x := ReadCodes(old(r.Rest()));
            if x.Got? then st == InflateDone && r.Rest() == x.rest && t.t0.Filled(x.value.lit, |x.value.lit|) && t.t1.Filled(x.value.dist, |x.value.dist|)
            else Fails(x, st)
  {
    hide Reader.Valid, Reader.Rest, ReadCounts, ReadSizes, AfterSizes, Table.Filled;
    st := CannotMakeProgress;
    var ok, n;
    ok, numLit, numDist, n := GetCounts(r);
    if !ok {
      return;
    }
    ok := ReadLengthCode(r, t.size2, n);
    if !ok {
      return;
    }
    st := ReadTables(r, t, numLit, numDist, t.size2[..LENGTH_SYMBOLS]);
  }

  method ReadTables(r: Reader, t: Tables3, numLit: nat, numDist: nat, ghost cs: seq<nat>) returns (st: InflateStatus)
    requires r.Valid() && t.Arrays() && numLit <= 288 && numDist <= 32 && t.size2[..LENGTH_SYMBOLS] == cs && Lengths(cs)
    modifies r, t.t0, t.t0.lookUp, t.t0.tree, t.t1, t.t1.lookUp, t.t1.tree, t.t2, t.t2.lookUp, t.t2.tree, t.size0, t.size1, t.lens
    ensures r.Valid()
    ensures var x := AfterSizes(old(r.Rest()), cs, numLit, numDist);
            if x.Got? then st == InflateDone && r.Rest() == x.rest && t.t0.Filled(x.value.lit, |x.value.lit|) && t.t1.Filled(x.value.dist, |x.value.dist|)
            else Fails(x, st)
  {
    hide Reader.Valid, Reader.Rest, ReadEntries, Table.Filled, Acceptable, Lengths;
    st := InflateFailed;
    var ok := BuildTable(t.t2, t.size2, LENGTH_SYMBOLS, cs);
    if !ok {
      return;
    }
    st := ReadCodeLengths(r, t.t2, numLit + numDist, t.lens, cs);
    if st != InflateDone {
      return;
    }
    ghost var all := t.lens[..numLit + numDist];
    CopyLengths(t.lens, 0, t.size0, numLit);
    CopyLengths(t.lens, numLit, t.size1, numDist);
    assert t.size0[..numLit] == all[..numLit] && t.size1[..numDist] == all[numLit..];
    LengthsParts(all, numLit);
    ok := BuildTable(t.t1, t.size1, numDist, all[numLit..]);
    if ok {
      ok := BuildTable(t.t0, t.size0, numLit, all[..numLit]);
    }
    st := if ok then InflateDone else InflateFailed;
  }

  lemma LengthsParts(s: seq<nat>, n: nat)
    requires Lengths(s) && n <= |s|
    ensures Lengths(s[..n]) && Lengths(s[n..])
  {
  }

  // ----- What well-formed headers are read as -----

  // The packed form is read back.
  lemma {:induction false} EntriesRead(packed: seq<nat>, k: nat, cs: seq<nat>, out: seq<nat>, all: seq<nat>, more: seq<bool>, q: bool)
    requires |cs| == LENGTH_SYMBOLS && Feasible(cs) && k <= |packed| && Writable(packed, k, cs) && CodeLengths.Fits(packed[k..])
    requires CodeLengths.Expand(packed[k..], out) == CodeLengths.Lengths(all) && Lengths(out)
    ensures ReadEntries(PackedBits(packed, k, cs) + more, cs, out, |all|, q) == Got(all, more, q)
    decreases |packed| - k
  {
    hide NextEntry, Feasible, Word, Lsb;
    if k == |packed| {
      assert packed[k..] == [] && PackedBits(packed, k, cs) + more == more;
    } else {
      var p, c := packed[k..], packed[k];
      CodeLengths.ExpandKeeps(p, out);
      if c < 16 {
        assert p[1..] == packed[k + 1..];
        assert (Word(cs, c) + PackedBits(packed, k + 1, cs)) + more == Word(cs, c) + (PackedBits(packed, k + 1, cs) + more);
        PlainRead(cs, c, out, PackedBits(packed, k + 1, cs) + more);
        EntriesRead(packed, k + 1, cs, out + [c], all, more, q);
      } else {
        assert p[2..] == packed[k + 2..] && p[1] == packed[k + 1];
        var run := CodeLengths.Times(if c == 16 then out[|out| - 1] else 0, packed[k + 1] + if c == 18 then 11 else 3);
        ThreeRegrouped(Word(cs, c), Lsb(packed[k + 1], ExtraOf(c)), PackedBits(packed, k + 2, cs), more);
        RunRead(cs, c, packed[k + 1], out, PackedBits(packed, k + 2, cs) + more);
        EntriesRead(packed, k + 2, cs, out + run, all, more, q);
      }
    }
  }

  lemma ThreeRegrouped(a: seq<bool>, b: seq<bool>, c: seq<bool>, d: seq<bool>)
    ensures (a + (b + c)) + d == a + (b + (c + d))
  {
  }

  lemma PlainRead(cs: seq<nat>, c: nat, out: seq<nat>, more: seq<bool>)
    requires |cs| == LENGTH_SYMBOLS && Feasible(cs) && Used(cs, c) && c < 16 && Lengths(out)
    ensures NextEntry(Word(cs, c) + more, cs, out) == Got([c], more, true) && Lengths(out + [c])
  {
    hide Feasible, Word, NextSymbol;
    SymbolRead(cs, c, more);
  }

  lemma RunRead(cs: seq<nat>, c: nat, v: nat, out: seq<nat>, more: seq<bool>)
    requires |cs| == LENGTH_SYMBOLS && Feasible(cs) && Used(cs, c) && 16 <= c <= 18 && (c == 16 ==> out != []) && Lengths(out)
    requires v < if c == 16 then 4 else if c == 17 then 8 else 128
    ensures var run := CodeLengths.Times(if c == 16 then out[|out| - 1] else 0, v + if c == 18 then 11 else 3);
            NextEntry(Word(cs, c) + (Lsb(v, ExtraOf(c)) + more), cs, out) == Got(run, more, true) && Lengths(out + run)
  {
    FitsBits(c, v);
    hide Feasible, Word, NextSymbol, NextNumber, Lsb, Pow2, ExtraOf;
    SymbolRead(cs, c, Lsb(v, ExtraOf(c)) + more);
    SmallRead(v, ExtraOf(c), more);
  }

  // The lengths of the length code as far as they have been read.
  ghost predicate Partly(cs: seq<nat>, c: seq<nat>, i: nat) {
    |cs| == |c| == LENGTH_SYMBOLS && forall k: nat :: k < LENGTH_SYMBOLS ==> c[k] == if Place(k) < i then cs[k] else 0
  }

  lemma PartlyMore(cs: seq<nat>, c: seq<nat>, i: nat)
    requires Partly(cs, c, i) && i < LENGTH_SYMBOLS
    ensures Partly(cs, c[Ordered(i) := cs[Ordered(i)]], i + 1)
  {
    hide Ordered, Place;
    PlaceOf(i);
    forall k: nat | k < LENGTH_SYMBOLS
      ensures c[Ordered(i) := cs[Ordered(i)]][k] == if Place(k) < i + 1 then cs[k] else 0
    {
      PlaceOf(k);
    }
  }

  lemma PartlyAll(cs: seq<nat>, c: seq<nat>, n: nat)
    requires Partly(cs, c, n) && n <= LENGTH_SYMBOLS && forall k: nat :: n <= k < LENGTH_SYMBOLS ==> OrderedZero(cs, k)
    ensures c == cs
  {
    hide Ordered, Place;
    forall k: nat | k < LENGTH_SYMBOLS ensures c[k] == cs[k] {
      PlaceOf(k);
      assert Place(k) >= n ==> OrderedZero(cs, Place(k));
    }
  }

  lemma {:induction false} SizesRead(cs: seq<nat>, c: seq<nat>, i: nat, n: nat, more: seq<bool>)
    requires |cs| == |c| == LENGTH_SYMBOLS && i <= n <= LENGTH_SYMBOLS && Partly(cs, c, i) && UpToSeven(cs)
    requires forall k: nat :: n <= k < LENGTH_SYMBOLS ==> OrderedZero(cs, k)
    ensures ReadSizes(LengthBits(cs, i, n) + more, c, i, n) == Got(cs, more, true)
    decreases n - i
  {
    hide NextNumber, Ordered, Partly, OrderedZero, Lsb;
    if i == n {
      PartlyAll(cs, c, n);
      assert [] + more == more;
    } else {
      PlaceOf(i);
      var v := cs[Ordered(i)];
      EightValues(v);
      assert (Lsb(v, 3) + LengthBits(cs, i + 1, n)) + more == Lsb(v, 3) + (LengthBits(cs, i + 1, n) + more);
      SmallRead(v, 3, LengthBits(cs, i + 1, n) + more);
      PartlyMore(cs, c, i);
      SizesRead(cs, c[Ordered(i) := v], i + 1, n, more);
    }
  }

  lemma SmallRead(v: nat, n: nat, more: seq<bool>)
    requires v < Pow2(n)
    ensures NextNumber(Lsb(v, n) + more, n) == Got(v, more, true)
  {
    hide NextNumber, Lsb, Pow2;
    LowOfSmall(v, n);
    NumberRead(v, n, more);
  }

  lemma EightValues(v: nat)
    requires v <= 7
    ensures v < Pow2(3)
  {
  }

  lemma CountsRead(a: nat, b: nat, c: nat, more: seq<bool>)
    requires 257 <= a <= 288 && 1 <= b <= 32 && 4 <= c <= LENGTH_SYMBOLS
    ensures ReadCounts(Lsb(a - 257, 5) + (Lsb(b - 1, 5) + (Lsb(c - 4, 4) + more))) == Got(Counts(a, b, c), more, true)
  {
    Pow2Limits();
    hide NextNumber, Lsb, Pow2;
    SmallRead(a - 257, 5, Lsb(b - 1, 5) + (Lsb(c - 4, 4) + more));
    SmallRead(b - 1, 5, Lsb(c - 4, 4) + more);
    SmallRead(c - 4, 4, more);
  }

  // A header is read back.
  lemma HeaderRead(h: Header, more: seq<bool>)
    requires GoodHeader(h)
    ensures ReadCodes(HeaderBits(h) + more) == Got(Codes(h.lit, h.dist), more, true)
  {
    hide Acceptable, Writable, CodeLengths.Expand, CodeLengths.Fits, OrderedZero, ReadCounts, ReadSizes, AfterSizes, Lsb, LengthBits, PackedBits;
    var p1, p2 := PackedBits(h.packed, 0, h.cs) + more, LengthBits(h.cs, 0, h.numBitLengths);
    HeaderRegrouped(Lsb(|h.lit| - 257, 5), Lsb(|h.dist| - 1, 5), Lsb(h.numBitLengths - 4, 4), p2, PackedBits(h.packed, 0, h.cs), more);
    CountsRead(|h.lit|, |h.dist|, h.numBitLengths, p2 + p1);
    NothingPartly(h.cs);
    SizesRead(h.cs, CodeLengths.Times(0, LENGTH_SYMBOLS), 0, h.numBitLengths, p1);
    CodesRead(h, more);
  }

  lemma NothingPartly(cs: seq<nat>)
    requires |cs| == LENGTH_SYMBOLS
    ensures Partly(cs, CodeLengths.Times(0, LENGTH_SYMBOLS), 0)
  {
  }

  lemma HeaderRegrouped(a: seq<bool>, b: seq<bool>, c: seq<bool>, d: seq<bool>, e: seq<bool>, f: seq<bool>)
    ensures (a + (b + (c + (d + e)))) + f == a + (b + (c + (d + (e + f))))
  {
  }

  lemma CodesRead(h: Header, more: seq<bool>)
    requires GoodHeader(h)
    ensures AfterSizes(PackedBits(h.packed, 0, h.cs) + more, h.cs, |h.lit|, |h.dist|) == Got(Codes(h.lit, h.dist), more, true)
  {
    hide Writable, CodeLengths.Expand, CodeLengths.Fits, OrderedZero, ReadEntries, PackedBits, Complete, Single, Feasible;
    assert h.packed[0..] == h.packed;
    AcceptableIsFeasible(h.cs);
    EntriesRead(h.packed, 0, h.cs, [], h.lit + h.dist, more, true);
    assert (h.lit + h.dist)[..|h.lit|] == h.lit && (h.lit + h.dist)[|h.lit|..] == h.dist;
  }

  // ----- What headers are read from -----

  // Entries before a packed form.
  lemma {:induction false} PackedShift(a: seq<nat>, p: seq<nat>, k: nat, cs: seq<nat>)
    requires k <= |p| && Writable(p, k, cs)
    ensures Writable(a + p, |a| + k, cs) && PackedBits(a + p, |a| + k, cs) == PackedBits(p, k, cs)
    decreases |p| - k
  {
    hide Word;
    if k < |p| {
      PackedShift(a, p, if p[k] < 16 then k + 1 else k + 2, cs);
    }
  }

  lemma {:induction false} EntriesFrom(rest: seq<bool>, cs: seq<nat>, out: seq<nat>, total: nat, q: bool) returns (packed: seq<nat>)
    requires |cs| == LENGTH_SYMBOLS && Lengths(out) && ReadEntries(rest, cs, out, total, q).Got? && ReadEntries(rest, cs, out, total, q).proper
    ensures var x := ReadEntries(rest, cs, out, total, q);
            q && Writable(packed, 0, cs) && CodeLengths.Fits(packed) && CodeLengths.Expand(packed, out) == CodeLengths.Lengths(x.value) &&
            rest == PackedBits(packed, 0, cs) + x.rest
    decreases total - |out|
  {
    hide NextEntry, Word, Lsb;
    if |out| >= total {
      packed := [];
    } else {
      hide ReadEntries;
      EntryStep(rest, cs, out, total, q);
      var y := NextEntry(rest, cs, out);
      var p := EntriesFrom(y.rest, cs, out + y.value, total, q && y.proper);
      hide PackedBits, Writable, CodeLengths.Expand, CodeLengths.Fits;
      packed := EntryFrom(rest, cs, out, p, ReadEntries(rest, cs, out, total, q).rest);
    }
  }

  // One more entry in front.
  lemma EntryFrom(rest: seq<bool>, cs: seq<nat>, out: seq<nat>, p: seq<nat>, end: seq<bool>) returns (packed: seq<nat>)
    requires |cs| == LENGTH_SYMBOLS && Lengths(out) && NextEntry(rest, cs, out).Got? && NextEntry(rest, cs, out).proper
    requires Writable(p, 0, cs) && CodeLengths.Fits(p) && NextEntry(rest, cs, out).rest == PackedBits(p, 0, cs) + end
    ensures Writable(packed, 0, cs) && CodeLengths.Fits(packed) && rest == PackedBits(packed, 0, cs) + end
    ensures CodeLengths.Expand(packed, out) == CodeLengths.Expand(p, out + NextEntry(rest, cs, out).value)
  {
    hide NextSymbol, Word, Lsb, NextNumber, CodeLengths.Times, Pow2;
    var y, sym := NextEntry(rest, cs, out), NextSymbol(cs, rest);
    var c, rest1 := sym.sym, rest[sym.len..];
    SymbolFrom(cs, rest);
    if c < 16 {
      packed := [c] + p;
      PackedShift([c], p, 0, cs);
      assert packed[1..] == p;
      assert Word(cs, c) + (PackedBits(p, 0, cs) + end) == (Word(cs, c) + PackedBits(p, 0, cs)) + end;
    } else {
      var v := NextNumber(rest1, ExtraOf(c)).value;
      packed := [c, v] + p;
      RunLimit(c, v);
      NumberFrom(rest1, ExtraOf(c));
      PackedShift([c, v], p, 0, cs);
      assert packed[2..] == p;
      ThreeRegrouped(Word(cs, c), Lsb(v, ExtraOf(c)), PackedBits(p, 0, cs), end);
    }
  }

  lemma {:induction false} SizesFrom(rest: seq<bool>, c: seq<nat>, i: nat, n: nat)
    requires |c| == LENGTH_SYMBOLS && i <= n <= LENGTH_SYMBOLS && ReadSizes(rest, c, i, n).Got?
    ensures var x := ReadSizes(rest, c, i, n);
            rest == LengthBits(x.value, i, n) + x.rest && forall k: nat :: k < LENGTH_SYMBOLS && (Place(k) < i || Place(k) >= n) ==> x.value[k] == c[k]
    decreases n - i
  {
    hide NextNumber, Ordered, Place, Lsb;
    var x := ReadSizes(rest, c, i, n);
    if i == n {
      assert [] + rest == rest;
    } else {
      PlaceOf(i);
      var y := NextNumber(rest, 3);
      NumberFrom(rest, 3);
      SizesFrom(y.rest, c[Ordered(i) := y.value], i + 1, n);
      assert Lsb(y.value, 3) + (LengthBits(x.value, i + 1, n) + x.rest) == (Lsb(y.value, 3) + LengthBits(x.value, i + 1, n)) + x.rest;
      forall k: nat | k < LENGTH_SYMBOLS && (Place(k) < i || Place(k) >= n) ensures x.value[k] == c[k] {
        PlaceOf(k);
      }
    }
  }

  lemma CountsFrom(rest: seq<bool>)
    requires ReadCounts(rest).Got?
    ensures var x := ReadCounts(rest); var c := x.value;
            rest == Lsb(c.numLit - 257, 5) + (Lsb(c.numDist - 1, 5) + (Lsb(c.numBitLengths - 4, 4) + x.rest))
  {
    hide NextNumber, Lsb;
    NumberFrom(rest, 5);
    NumberFrom(NextNumber(rest, 5).rest, 5);
    NumberFrom(NextNumber(NextNumber(rest, 5).rest, 5).rest, 4);
  }

  // Sizes that were not read are zero.
  lemma UnreadSizes(rest: seq<bool>, n: nat)
    requires n <= LENGTH_SYMBOLS && ReadSizes(rest, CodeLengths.Times(0, LENGTH_SYMBOLS), 0, n).Got?
    ensures var x := ReadSizes(rest, CodeLengths.Times(0, LENGTH_SYMBOLS), 0, n);
            UpToSeven(x.value) && rest == LengthBits(x.value, 0, n) + x.rest && forall k: nat :: n <= k < LENGTH_SYMBOLS ==> OrderedZero(x.value, k)
  {
    hide ReadSizes, Ordered, Place;
    var x := ReadSizes(rest, CodeLengths.Times(0, LENGTH_SYMBOLS), 0, n);
    SizesFrom(rest, CodeLengths.Times(0, LENGTH_SYMBOLS), 0, n);
    forall k: nat | n <= k < LENGTH_SYMBOLS ensures OrderedZero(x.value, k) {
      PlaceOf(k);
    }
  }

  // What is read properly is a header.
  lemma HeaderFrom(rest: seq<bool>) returns (h: Header)
    requires ReadCodes(rest).Got? && ReadCodes(rest).proper
    ensures var x := ReadCodes(rest); GoodHeader(h) && Codes(h.lit, h.dist) == x.value && rest == HeaderBits(h) + x.rest
  {
    hide Acceptable, Writable, CodeLengths.Expand, CodeLengths.Fits, OrderedZero, ReadCounts, ReadSizes, ReadEntries, Lsb, LengthBits, PackedBits;
    var x, c := ReadCodes(rest), ReadCounts(rest);
    var n := c.value.numBitLengths;
    var s := ReadSizes(c.rest, CodeLengths.Times(0, LENGTH_SYMBOLS), 0, n);
    CountsFrom(rest);
    UnreadSizes(c.rest, n);
    var packed := EntriesFrom(s.rest, s.value, [], c.value.numLit + c.value.numDist, true);
    var all := ReadEntries(s.rest, s.value, [], c.value.numLit + c.value.numDist, true).value;
    assert all[..c.value.numLit] + all[c.value.numLit..] == all;
    h := Header(x.value.lit, x.value.dist, packed, s.value, n);
    HeaderRegrouped(Lsb(|h.lit| - 257, 5), Lsb(|h.dist| - 1, 5), Lsb(n - 4, 4), LengthBits(h.cs, 0, n), PackedBits(packed, 0, h.cs), x.rest);
  }

  // The decompressor reads the two codes properly exactly if the bits are a header with them.
  lemma HeaderMeaning(rest: seq<bool>, lit: seq<nat>, dist: seq<nat>, more: seq<bool>)
    ensures ReadCodes(rest) == Got(Codes(lit, dist), more, true) <==>
            exists h :: GoodHeader(h) && h.lit == lit && h.dist == dist && rest == HeaderBits(h) + more
  {
    hide GoodHeader, HeaderBits, ReadCodes;
    if h :| GoodHeader(h) && h.lit == lit && h.dist == dist && rest == HeaderBits(h) + more {
      HeaderRead(h, more);
    }
    if ReadCodes(rest) == Got(Codes(lit, dist), more, true) {
      var h := HeaderFrom(rest);
    }
  }
}
