// What more input and more room change about an answer of the decompressor: nothing, unless it
// was that input or room is missing.

module InflateLaws {
  import opened Ints
  import opened Bits
  import opened Bitstream
  import opened HuffmanCode
  import opened HuffmanTable
  import opened LzSpec
  import opened DeflateTokens
  import opened DeflateBlock
  import opened DeflateStream
  import opened Inflate
  import opened InflateTokens
  import opened InflateHeader
  import opened InflateStream
  import CodeLengths

  // ----- More input -------------------------------------------------------------------------

  // y is what is read with more bits behind those that x was read from.
  ghost predicate Stays<T>(x: Read<T>, y: Read<T>, more: seq<bool>) {
    match x
    case Got(v, rest, p) => y == Got(v, rest + more, p)
    case Starved => true
    case Corrupt => y == Corrupt
    case Full => y == Full
  }

  lemma NumberStays(rest: seq<bool>, n: nat, more: seq<bool>)
    ensures Stays(NextNumber(rest, n), NextNumber(rest + more, n), more)
  {
    if n <= |rest| {
      assert (rest + more)[..n] == rest[..n] && (rest + more)[n..] == rest[n..] + more;
    }
  }

  // Bits that were no word do not become one.
  lemma NoNewWord(cs: seq<nat>, rest: seq<bool>, more: seq<bool>)
    requires Feasible(cs) && !HasWord(cs, rest) && NextSymbol(cs, rest).Symbol?
    ensures !HasWord(cs, rest + more)
  {
    hide Feasible, Inner, Word, Leave;
    if i: nat :| NextWord(cs, i, rest + more) {
      WordLength(cs, i);
      var w := Word(cs, i);
      if cs[i] <= |rest| {
        assert (rest + more)[..cs[i]] == rest[..cs[i]];
        assert NextWord(cs, i, rest);
      } else {
        forall d | 0 <= d <= |rest| ensures Inner(cs, rest[..d]) {
          InnerPrefix(cs, i, d);
          assert w[..d] == (rest + more)[..cs[i]][..d] == rest[..d];
        }
        LeaveIs(cs, rest);
      }
    }
  }

  lemma LeaveIs(cs: seq<nat>, rest: seq<bool>)
    requires forall d :: 0 <= d <= |rest| ==> Inner(cs, rest[..d])
    ensures |rest| >= FAST_BITS ==> Leave(cs, rest, FAST_BITS) == NoSymbol
  {
    hide Inner;
    if |rest| >= FAST_BITS {
      LeavesNever(cs, rest, FAST_BITS);
    }
  }

  lemma LeaveStays(cs: seq<nat>, rest: seq<bool>, more: seq<bool>)
    requires |rest| >= FAST_BITS && Leave(cs, rest, FAST_BITS).Symbol?
    ensures Leave(cs, rest + more, FAST_BITS) == Leave(cs, rest, FAST_BITS)
  {
    hide Inner;
    var all := rest + more;
    var s := Leave(cs, rest, FAST_BITS);
    LeaveMeans(cs, rest, FAST_BITS);
    LeavesAt(cs, rest, FAST_BITS, s.len);
    forall e | 0 <= e <= |rest| ensures all[..e] == rest[..e] {
    }
    LeavesAt(cs, all, FAST_BITS, s.len);
  }

  lemma SymbolStays(cs: seq<nat>, rest: seq<bool>, more: seq<bool>)
    requires Feasible(cs) && NextSymbol(cs, rest).Symbol?
    ensures NextSymbol(cs, rest + more) == NextSymbol(cs, rest)
  {
    hide Feasible, Inner, Word, Leave;
    var all := rest + more;
    if HasWord(cs, rest) {
      var i: nat :| NextWord(cs, i, rest);
      assert NextWord(cs, i, all) by {
        WordLength(cs, i);
        assert all[..cs[i]] == rest[..cs[i]];
      }
      WordDecides(cs, i, rest);
      WordDecides(cs, i, all);
    } else {
      NoNewWord(cs, rest, more);
      if |rest| >= FAST_BITS {
        assert all[..FAST_BITS] == rest[..FAST_BITS];
        if Inner(cs, rest[..FAST_BITS]) {
          LeaveStays(cs, rest, more);
        }
      }
    }
  }

  lemma TableSizes()
    ensures |LENGTH_EXTRA| == |LENGTH_BASE| == 31 && |DIST_EXTRA| == |DIST_BASE| == 32
  {
  }

  lemma CopyStays(rest: seq<bool>, sym: nat, dist: seq<nat>, more: seq<bool>)
    requires 257 <= sym < MAX_SYMBOLS && |dist| <= 32 && Feasible(dist)
    ensures Stays(NextCopy(rest, sym, dist), NextCopy(rest + more, sym, dist), more)
  {
    TableSizes();
    hide Feasible, NextNumber, NextSymbol, Canonical, LENGTH_EXTRA, LENGTH_BASE, DIST_EXTRA, DIST_BASE;
    NumberStays(rest, LENGTH_EXTRA[sym - 257], more);
    var x := NextNumber(rest, LENGTH_EXTRA[sym - 257]);
    if x.Got? && NextSymbol(dist, x.rest).Symbol? {
      var y := NextSymbol(dist, x.rest);
      SymbolStays(dist, x.rest, more);
      assert (x.rest + more)[y.len..] == x.rest[y.len..] + more;
      NumberStays(x.rest[y.len..], DIST_EXTRA[y.sym], more);
    }
  }

  lemma ItemStays(rest: seq<bool>, lit: seq<nat>, dist: seq<nat>, more: seq<bool>)
    requires |lit| <= MAX_SYMBOLS && |dist| <= 32 && Feasible(lit) && Feasible(dist)
    ensures Stays(NextItem(rest, lit, dist), NextItem(rest + more, lit, dist), more)
  {
    hide Feasible, NextCopy, NextSymbol;
    var y := NextSymbol(lit, rest);
    if y.Symbol? {
      SymbolStays(lit, rest, more);
      assert (rest + more)[y.len..] == rest[y.len..] + more;
      if y.sym > END_OF_BLOCK {
        CopyStays(rest[y.len..], y.sym, dist, more);
      }
    }
  }

  lemma {:induction false} ItemsStay(rest: seq<bool>, s: seq<byte>, room: nat, lit: seq<nat>, dist: seq<nat>, q: bool, more: seq<bool>)
    requires |lit| <= MAX_SYMBOLS && |dist| <= 32 && Feasible(lit) && Feasible(dist) && |s| <= room
    ensures Stays(ReadItems(rest, s, room, lit, dist, q), ReadItems(rest + more, s, room, lit, dist, q), more)
    decreases |rest|, room - |s|
  {
    hide Feasible, NextItem, ReadItems, Grown;
    var x := NextItem(rest, lit, dist);
    if x.Got? {
      ItemStays(rest, lit, dist, more);
      ItemStep(rest, s, room, lit, dist, q);
      ItemStep(rest + more, s, room, lit, dist, q);
      if !x.value.End? && Allowed(x.value, s) && |s| + Size(x.value) <= room {
        ItemsStay(x.rest, Grown(x.value, s), room, lit, dist, q && x.proper, more);
      }
    } else {
      NothingThere(rest, s, room, lit, dist, q);
    }
  }

  // ----- Headers -----

  lemma EntryStays(rest: seq<bool>, cs: seq<nat>, out: seq<nat>, more: seq<bool>)
    requires |cs| == LENGTH_SYMBOLS && Lengths(out) && Feasible(cs)
    ensures Stays(NextEntry(rest, cs, out), NextEntry(rest + more, cs, out), more)
  {
    hide Feasible, NextNumber, NextSymbol, CodeLengths.Times;
    var y := NextSymbol(cs, rest);
    if y.Symbol? {
      SymbolStays(cs, rest, more);
      assert (rest + more)[y.len..] == rest[y.len..] + more;
      if y.sym >= 16 {
        NumberStays(rest[y.len..], ExtraOf(y.sym), more);
      }
    }
  }

  lemma {:induction false} EntriesStay(rest: seq<bool>, cs: seq<nat>, out: seq<nat>, total: nat, q: bool, more: seq<bool>)
    requires |cs| == LENGTH_SYMBOLS && Lengths(out) && Feasible(cs)
    ensures Stays(ReadEntries(rest, cs, out, total, q), ReadEntries(rest + more, cs, out, total, q), more)
    decreases total - |out|
  {
    hide Feasible, NextEntry;
    if |out| < total {
      EntryStays(rest, cs, out, more);
      var y := NextEntry(rest, cs, out);
      if y.Got? {
        EntriesStay(y.rest, cs, out + y.value, total, q && y.proper, more);
      }
    }
  }

  lemma {:induction false} SizesStay(rest: seq<bool>, cs: seq<nat>, i: nat, n: nat, more: seq<bool>)
    requires |cs| == LENGTH_SYMBOLS && i <= n <= LENGTH_SYMBOLS
    ensures Stays(ReadSizes(rest, cs, i, n), ReadSizes(rest + more, cs, i, n), more)
    decreases n - i
  {
    hide NextNumber;
    if i < n {
      NumberStays(rest, 3, more);
      var y := NextNumber(rest, 3);
      if y.Got? {
        SizesStay(y.rest, cs[Ordered(i) := y.value], i + 1, n, more);
      }
    }
  }

  lemma CountsStay(rest: seq<bool>, more: seq<bool>)
    ensures Stays(ReadCounts(rest), ReadCounts(rest + more), more)
  {
    hide NextNumber;
    NumberStays(rest, 5, more);
    var a := NextNumber(rest, 5);
    if a.Got? {
      NumberStays(a.rest, 5, more);
      var b := NextNumber(a.rest, 5);
      if b.Got? {
        NumberStays(b.rest, 4, more);
      }
    }
  }

  lemma CodesStay(rest: seq<bool>, more: seq<bool>)
    ensures Stays(ReadCodes(rest), ReadCodes(rest + more), more)
  {
    hide ReadCounts, ReadSizes, ReadEntries, Acceptable, Feasible, CodeLengths.Times;
    CountsStay(rest, more);
    var c := ReadCounts(rest);
    if c.Got? {
      var zeros := CodeLengths.Times(0, LENGTH_SYMBOLS);
      SizesStay(c.rest, zeros, 0, c.value.numBitLengths, more);
      var z := ReadSizes(c.rest, zeros, 0, c.value.numBitLengths);
      if z.Got? && Acceptable(z.value) {
        AcceptableIsFeasible(z.value);
        EntriesStay(z.rest, z.value, [], c.value.numLit + c.value.numDist, true, more);
      }
    }
  }

  // ----- Stored bytes -----

  lemma ShortStays(rest: seq<bool>, more: seq<bool>)
    ensures Stays(NextShort(rest), NextShort(rest + more), more)
  {
    hide NextNumber;
    NumberStays(rest, 8, more);
    var a := NextNumber(rest, 8);
    if a.Got? {
      NumberStays(a.rest, 8, more);
    }
  }

  lemma {:induction false} RawStays(rest: seq<bool>, s: seq<byte>, room: nat, counter: nat, more: seq<bool>)
    requires |s| <= room
    ensures Stays(ReadRaw(rest, s, room, counter), ReadRaw(rest + more, s, room, counter), more)
    decreases counter
  {
    hide NextNumber;
    if counter > 0 && |s| < room {
      NumberStays(rest, 8, more);
      var y := NextNumber(rest, 8);
      if y.Got? {
        RawStays(y.rest, s + [y.value], room, counter - 1, more);
      }
    }
  }

  lemma StoredStays(rest: seq<bool>, s: seq<byte>, room: nat, more: seq<bool>)
    requires |s| <= room && |more| % 8 == 0
    ensures Stays(ReadStored(rest, s, room), ReadStored(rest + more, s, room), more)
  {
    hide NextShort, ReadRaw;
    MoreEights(|rest| % 8, |more|);
    var d := |rest| % 8;
    SameFill(|rest|, |more|);
    assert (rest + more)[d..] == rest[d..] + more;
    ShortStays(rest[d..], more);
    var n := NextShort(rest[d..]);
    if n.Got? {
      ShortStays(n.rest, more);
      var m := NextShort(n.rest);
      if m.Got? && n.value == 0xFFFF - m.value {
        RawStays(m.rest, s, room, n.value, more);
      }
    }
  }

  lemma SameFill(a: nat, b: nat)
    requires b % 8 == 0
    ensures (a + b) % 8 == a % 8
  {
  }

  // ----- Blocks and streams -----

  lemma BodyStays(kind: nat, rest: seq<bool>, s: seq<byte>, room: nat, more: seq<bool>)
    requires |s| <= room && |more| % 8 == 0
    ensures Stays(ReadBody(kind, rest, s, room), ReadBody(kind, rest + more, s, room), more)
  {
    hide ReadStored, ReadItems, ReadCodes, Feasible, Acceptable, FixedLit, FixedDist;
    if kind == 0 {
      StoredStays(rest, s, room, more);
    } else if kind == 1 {
      FixedAcceptable();
      FixedLengths();
      AcceptableIsFeasible(FixedLit());
      AcceptableIsFeasible(FixedDist());
      ItemsStay(rest, s, room, FixedLit(), FixedDist(), true, more);
    } else if kind == 2 {
      CodesStay(rest, more);
      var c := ReadCodes(rest);
      if c.Got? {
        AcceptableIsFeasible(c.value.lit);
        AcceptableIsFeasible(c.value.dist);
        ItemsStay(c.rest, s, room, c.value.lit, c.value.dist, c.proper, more);
      }
    }
  }

  lemma {:induction false} PartsStay(rest: seq<bool>, s: seq<byte>, room: nat, q: bool, more: seq<bool>)
    requires |s| <= room && |more| % 8 == 0
    ensures Stays(ReadParts(rest, s, room, q), ReadParts(rest + more, s, room, q), more)
    decreases |rest|
  {
    hide ReadParts, ReadBody, NextNumber;
    PartStep(rest, s, room, q);
    PartStep(rest + more, s, room, q);
    NumberStays(rest, 3, more);
    var m := NextNumber(rest, 3);
    if m.Got? {
      BodyStays(m.value / 2, m.rest, s, room, more);
      var y := ReadBody(m.value / 2, m.rest, s, room);
      if y.Got? && m.value % 2 == 0 {
        PartsStay(y.rest, y.value, room, q && y.proper, more);
      }
    }
  }

  // More bytes behind the input change no answer but that there are too few.
  lemma MoreInput(src: seq<byte>, more: seq<byte>, room: nat)
    ensures Stays(RawMeaning(src, room), RawMeaning(src + more, room), BitsOf(more))
  {
    hide ReadParts, BitsOf;
    BitsOfBoth(src, more);
    BitsOfLength(more);
    PartsStay(BitsOf(src), [], room, true, BitsOf(more));
  }

  // ----- More room --------------------------------------------------------------------------

  // y is what is read with more room than x.
  ghost predicate Same<T>(x: Read<T>, y: Read<T>) {
    !x.Full? ==> y == x
  }

  lemma {:induction false} ItemsWider(rest: seq<bool>, s: seq<byte>, room: nat, wide: nat, lit: seq<nat>, dist: seq<nat>, q: bool)
    requires |lit| <= MAX_SYMBOLS && |dist| <= 32 && |s| <= room <= wide
    ensures Same(ReadItems(rest, s, room, lit, dist, q), ReadItems(rest, s, wide, lit, dist, q))
    decreases |rest|, room - |s|
  {
    hide NextItem, ReadItems, Grown;
    var x := NextItem(rest, lit, dist);
    if x.Got? {
      ItemStep(rest, s, room, lit, dist, q);
      ItemStep(rest, s, wide, lit, dist, q);
      if !x.value.End? && Allowed(x.value, s) && |s| + Size(x.value) <= room {
        ItemsWider(x.rest, Grown(x.value, s), room, wide, lit, dist, q && x.proper);
      }
    } else {
      NothingThere(rest, s, room, lit, dist, q);
      NothingThere(rest, s, wide, lit, dist, q);
    }
  }

  lemma {:induction false} RawWider(rest: seq<bool>, s: seq<byte>, room: nat, wide: nat, counter: nat)
    requires |s| <= room <= wide
    ensures Same(ReadRaw(rest, s, room, counter), ReadRaw(rest, s, wide, counter))
    decreases counter
  {
    hide NextNumber;
    if counter > 0 && |s| < room {
      var y := NextNumber(rest, 8);
      if y.Got? {
        RawWider(y.rest, s + [y.value], room, wide, counter - 1);
      }
    }
  }

  lemma BodyWider(kind: nat, rest: seq<bool>, s: seq<byte>, room: nat, wide: nat)
    requires |s| <= room <= wide
    ensures Same(ReadBody(kind, rest, s, room), ReadBody(kind, rest, s, wide))
  {
    hide ReadItems, ReadCodes, ReadRaw, NextShort, FixedLit, FixedDist;
    if kind == 0 {
      var n := NextShort(rest[|rest| % 8..]);
      if n.Got? {
        var m := NextShort(n.rest);
        if m.Got? {
          RawWider(m.rest, s, room, wide, n.value);
        }
      }
    } else if kind == 1 {
      FixedLengths();
      ItemsWider(rest, s, room, wide, FixedLit(), FixedDist(), true);
    } else if kind == 2 {
      var c := ReadCodes(rest);
      if c.Got? {
        ItemsWider(c.rest, s, room, wide, c.value.lit, c.value.dist, c.proper);
      }
    }
  }

  lemma {:induction false} PartsWider(rest: seq<bool>, s: seq<byte>, room: nat, wide: nat, q: bool)
    requires |s| <= room <= wide
    ensures Same(ReadParts(rest, s, room, q), ReadParts(rest, s, wide, q))
    decreases |rest|
  {
    hide ReadParts, ReadBody, NextNumber;
    PartStep(rest, s, room, q);
    PartStep(rest, s, wide, q);
    var m := NextNumber(rest, 3);
    if m.Got? {
      BodyWider(m.value / 2, m.rest, s, room, wide);
      var y := ReadBody(m.value / 2, m.rest, s, room);
      if y.Got? && m.value % 2 == 0 {
        PartsWider(y.rest, y.value, room, wide, q && y.proper);
      }
    }
  }

  // More room changes no answer but that there is too little.
  lemma MoreRoom(src: seq<byte>, room: nat, wide: nat)
    requires room <= wide
    ensures Same(RawMeaning(src, room), RawMeaning(src, wide))
  {
    hide ReadParts;
    PartsWider(BitsOf(src), [], room, wide, true);
  }

  // ----- Streams that are cut ------------------------------------------------------------------

  // A stream is answered by its text exactly if that fits, and by a wish for room otherwise.
  lemma WholeStream(src: seq<byte>, room: nat, ss: seq<Sent>, u: seq<byte>, more: seq<bool>)
    requires StreamMeans(ss, BitsOf(src), u, more)
    ensures RawMeaning(src, room) == if |u| <= room then Got(u, more, true) else Full
  {
    hide ReadParts, StreamMeans, BitsOf;
    BitsOfLength(src);
    var wide := if |u| <= room then room else |u|;
    StreamMeaning(BitsOf(src), wide, u, more);
    MoreRoom(src, room, wide);
  }

  // A part of it that does not reach its end is answered by a wish for more input, or for more
  // room if the text does not fit.
  lemma CutStream(src: seq<byte>, n: nat, room: nat, ss: seq<Sent>, u: seq<byte>, more: seq<bool>)
    requires StreamMeans(ss, BitsOf(src), u, more) && n <= |src| && 8 * (|src| - n) > |more|
    ensures RawMeaning(src[..n], room) == Starved || (|u| > room && RawMeaning(src[..n], room) == Full)
  {
    hide RawMeaning, StreamMeans, BitsOf;
    var wide := if |u| <= room then room else |u|;
    WholeStream(src, wide, ss, u, more);
    MoreRoom(src[..n], room, wide);
    MoreInput(src[..n], src[n..], wide);
    assert src[..n] + src[n..] == src;
    BitsOfLength(src[n..]);
  }
}
