// Whole streams as the decompressor reads them, for any bits at all (section 3.2.3 of RFC 1951):
// what comes out, when it fails, and that it is exactly what well-formed streams mean.

module InflateStream {
  import opened Bits
  import opened Ints
  import opened Bitstream
  import opened HuffmanCode
  import opened HuffmanTable
  import opened Inflate
  import opened LzSpec
  import opened DeflateTokens
  import opened DeflateBlock
  import opened DeflateStream
  import opened InflateTokens
  import opened InflateHeader
  import CodeLengths

  // ----- Stored bytes -----

  // Two bytes, the lower first.
  ghost function NextShort(rest: seq<bool>): (x: Read<nat>)
    ensures x.Got? ==> x.value < 0x1_0000 && |x.rest| <= |rest| && x.proper
    ensures x.Got? || x.Starved?
  {
    Pow2Values();
    var x1 := NextNumber(rest, 8);
    if x1.Starved? then Starved
    else
      var x2 := NextNumber(x1.rest, 8);
      if x2.Starved? then Starved else Got(x1.value + 256 * x2.value, x2.rest, true)
  }

  // So many bytes; room for the output is looked for first.
  ghost function ReadRaw(rest: seq<bool>, s: seq<byte>, room: nat, counter: nat): (x: Read<seq<byte>>)
    requires |s| <= room
    ensures x.Got? ==> |x.rest| <= |rest| && |s| <= |x.value| <= room && x.proper
    decreases counter
  {
    Pow2Values();
    if counter == 0 then Got(s, rest, true)
    else if |s| == room then Full
    else
      match NextNumber(rest, 8)
      case Got(v, rest', _) => ReadRaw(rest', s + [v], room, counter - 1)
      case _ => Starved
  }

  // The rest of the byte is skipped, whatever it is.
  ghost function ReadStored(rest: seq<bool>, s: seq<byte>, room: nat): (x: Read<seq<byte>>)
    requires |s| <= room
    ensures x.Got? ==> |x.rest| <= |rest| && |s| <= |x.value| <= room && x.proper
  {
    match NextShort(rest[|rest| % 8..])
    case Got(n, rest1, _) =>
      (match NextShort(rest1)
       case Got(m, rest2, _) => if n != 0xFFFF - m then Corrupt else ReadRaw(rest2, s, room, n)
       case _ => Starved)
    case _ => Starved
  }

  // ----- Blocks -----

  ghost function ReadDynamic(rest: seq<bool>, s: seq<byte>, room: nat): (x: Read<seq<byte>>)
    requires |s| <= room
    ensures x.Got? ==> |x.rest| <= |rest| && |s| <= |x.value| <= room
  {
    match ReadCodes(rest)
    case Got(c, rest', p) => ReadItems(rest', s, room, c.lit, c.dist, p)
    case Corrupt => Corrupt
    case _ => Starved
  }

  ghost function ReadBody(kind: nat, rest: seq<bool>, s: seq<byte>, room: nat): (x: Read<seq<byte>>)
    requires |s| <= room
    ensures x.Got? ==> |x.rest| <= |rest| && |s| <= |x.value| <= room
  {
    if kind == 0 then ReadStored(rest, s, room)
    else if kind == 1 then ReadItems(rest, s, room, FixedLit(), FixedDist(), true)
    else if kind == 2 then ReadDynamic(rest, s, room)
    else Corrupt
  }

  // The blocks up to the last; q says whether everything so far was proper.
  ghost function ReadParts(rest: seq<bool>, s: seq<byte>, room: nat, q: bool): (x: Read<seq<byte>>)
    requires |s| <= room
    ensures x.Got? ==> |x.rest| <= |rest| && |s| <= |x.value| <= room && (x.proper ==> q)
    decreases |rest|
  {
    match NextNumber(rest, 3)
    case Got(m, rest1, _) =>
      (match ReadBody(m / 2, rest1, s, room)
       case Got(u, rest2, p) => if m % 2 == 1 then Got(u, rest2, q && p) else ReadParts(rest2, u, room, q && p)
       case Starved => Starved
       case Corrupt => Corrupt
       case Full => Full)
    case _ => Starved
  }

  lemma PartStep(rest: seq<bool>, s: seq<byte>, room: nat, q: bool)
    requires |s| <= room
    ensures var x, m := ReadParts(rest, s, room, q), NextNumber(rest, 3);
            if m.Starved? then x == Starved
            else
              var y := ReadBody(m.value / 2, m.rest, s, room);
              if y.Got? then x == if m.value % 2 == 1 then Got(y.value, y.rest, q && y.proper) else ReadParts(y.rest, y.value, room, q && y.proper)
              else x == y
  {
    hide NextNumber, ReadBody;
  }

  // ----- Reading -----

  ghost predicate Free(out: array<byte>, t: Tables3) {
    Apart(out, t.t0) && Apart(out, t.t1) && Apart(out, t.t2) &&
    (out as object) != t.size0 && (out as object) != t.size1 && (out as object) != t.size2 && (out as object) != t.lens
  }

  // A byte of the length of a stored block, out of the buffer or from the input.
  method ReadByte(r: Reader) returns (ok: bool, x: nat)
    requires r.Valid() && r.numBits % 8 == 0
    modifies r
    ensures r.Valid() && r.numBits % 8 == 0
    ensures var y := NextNumber(old(r.Rest()), 8); ok == y.Got? && (ok ==> x == y.value && r.Rest() == y.rest)
  {
    hide *;
    if r.numBits != 0 {
      ok, x := GetBuffered(r);
    } else {
      NextByte(r);
      if r.pos == |r.src| {
        return false, 0;
      }
      x := r.TakeByte();
      ok := true;
    }
  }

  // With whole bytes in the buffer, the next one is there.
  method GetBuffered(r: Reader) returns (ok: bool, x: nat)
    requires r.Valid() && r.numBits >= 8 && r.numBits % 8 == 0
    modifies r
    ensures r.Valid() && ok && r.numBits == old(r.numBits) - 8 && r.pos == old(r.pos)
    ensures var y := NextNumber(old(r.Rest()), 8); y.Got? && x == y.value && r.Rest() == y.rest
  {
    hide Lsb, Pow2, BitsOf, Num;
    ok, x := r.GetBits(8);
    SameNumber(x, NextNumber(old(r.Rest()), 8).value, 8);
  }

  // With an empty buffer it is the next one of the input.
  lemma NextByte(r: Reader)
    requires r.Valid() && r.numBits == 0
    ensures r.pos <= |r.src| && r.Rest() == BitsOf(r.src[r.pos..])
    ensures if r.pos == |r.src| then NextNumber(r.Rest(), 8) == Starved
            else NextNumber(r.Rest(), 8) == Got(r.src[r.pos], BitsOf(r.src[r.pos + 1..]), true)
  {
    hide Lsb, BitsOf, Num;
    assert Lsb(r.bitBuf, 0) == [];
    if r.pos == |r.src| {
      assert r.src[r.pos..] == [];
      NoBits();
    } else {
      FirstByte(r.src, r.pos);
      ByteLow(r.src[r.pos]);
      NumberRead(r.src[r.pos], 8, BitsOf(r.src[r.pos + 1..]));
    }
  }

  // The bytes that the bit buffer still has
  method TakeBuffered(r: Reader, out: array<byte>, cur: nat, counter: nat) returns (st: InflateStatus, cur': nat, counter': nat)
    requires r.Valid() && r.numBits % 8 == 0 && cur <= out.Length
    modifies r, out
    ensures r.Valid() && cur' <= out.Length && (st == InflateDone ==> counter' == 0 || r.numBits == 0)
    ensures var x := ReadRaw(old(r.Rest()), old(out[..cur]), out.Length, counter);
            if st == InflateDone then x == ReadRaw(r.Rest(), out[..cur'], out.Length, counter') else Fails(x, st)
  {
    hide Reader.Valid, Reader.Rest, NextNumber, ReadRaw;
    st, cur', counter' := InflateDone, cur, counter;
    ghost var x := ReadRaw(r.Rest(), out[..cur], out.Length, counter);
    while counter' != 0 && r.numBits != 0
      invariant r.Valid() && r.numBits % 8 == 0 && cur' <= out.Length
      invariant x == ReadRaw(r.Rest(), out[..cur'], out.Length, counter')
      decreases counter'
    {
      RawStep(r.Rest(), out[..cur'], out.Length, counter');
      var ok, dist := GetBuffered(r);
      if cur' >= out.Length {
        return HasMoreOutput, cur', counter';
      }
      ghost var s := out[..cur'];
      out[cur'] := dist;
      cur' := cur' + 1;
      assert out[..cur'] == s + [dist];
      counter' := counter' - 1;
    }
  }

  lemma RawStep(rest: seq<bool>, s: seq<byte>, room: nat, counter: nat)
    requires |s| <= room && counter > 0
    ensures var x, y := ReadRaw(rest, s, room, counter), NextNumber(rest, 8);
            if |s| == room then x == Full else if y.Starved? then x == Starved
            else y.value < 256 && x == ReadRaw(y.rest, s + [y.value], room, counter - 1)
    ensures NextNumber(rest, 8).Got? ==> NextNumber(rest, 8).value < 256
  {
    Pow2Values();
    hide NextNumber;
  }

  lemma RawEnd(rest: seq<bool>, s: seq<byte>, room: nat)
    requires |s| <= room
    ensures ReadRaw(rest, s, room, 0) == Got(s, rest, true)
  {
  }

  // As many of the input's bytes as are there and wanted and fit
  method CopyIn(r: Reader, out: array<byte>, cur: nat, n: nat, ghost counter: nat)
    requires r.Valid() && r.numBits == 0 && n <= counter && cur + n <= out.Length && n <= |r.src| - r.pos
    modifies r, out
    ensures r.Valid() && r.numBits == 0
    ensures ReadRaw(old(r.Rest()), old(out[..cur]), out.Length, counter) == ReadRaw(r.Rest(), out[..cur + n], out.Length, counter - n)
  {
    hide Reader.Valid, Reader.Rest, NextNumber, ReadRaw, BitsOf;
    ghost var x := ReadRaw(r.Rest(), out[..cur], out.Length, counter);
    ghost var end := r.pos + n;
    for i := 0 to n
      invariant r.Valid() && r.numBits == 0 && r.pos + (n - i) == end
      invariant x == ReadRaw(r.Rest(), out[..cur + i], out.Length, counter - i)
    {
      RawStep(r.Rest(), out[..cur + i], out.Length, counter - i);
      NextByte(r);
      ghost var s := out[..cur + i];
      out[cur + i] := r.TakeByte();
      assert out[..cur + i + 1] == s + [out[cur + i]];
    }
  }

  // The copying loops for a stored block
  method ReadBytes(r: Reader, out: array<byte>, cur: nat, counter: nat) returns (st: InflateStatus, cur': nat)
    requires r.Valid() && r.numBits % 8 == 0 && cur <= out.Length
    modifies r, out
    ensures r.Valid() && cur' <= out.Length
    ensures Says(ReadRaw(old(r.Rest()), old(out[..cur]), out.Length, counter), st, out[..cur'], r.Rest())
  {
    hide Reader.Valid, Reader.Rest, NextNumber, ReadRaw, BitsOf;
    ghost var x := ReadRaw(r.Rest(), out[..cur], out.Length, counter);
    var left;
    st, cur', left := TakeBuffered(r, out, cur, counter);
    if st != InflateDone {
      return;
    }
    while left != 0
      invariant r.Valid() && cur' <= out.Length && (left == 0 || r.numBits == 0)
      invariant x == ReadRaw(r.Rest(), out[..cur'], out.Length, left)
      decreases left
    {
      RawStep(r.Rest(), out[..cur'], out.Length, left);
      if cur' >= out.Length {
        return HasMoreOutput, cur';
      }
      NextByte(r);
      if r.pos >= |r.src| {
        return CannotMakeProgress, cur';
      }
      var n := Least(Least(out.Length - cur', |r.src| - r.pos), left);
      CopyIn(r, out, cur', n, left);
      cur' := cur' + n;
      left := left - n;
    }
    RawEnd(r.Rest(), out[..cur'], out.Length);
  }

  function Least(a: nat, b: nat): nat {
    if a <= b then a else b
  }

  method ReadShort(r: Reader) returns (ok: bool, n: nat)
    requires r.Valid() && r.numBits % 8 == 0
    modifies r
    ensures r.Valid() && r.numBits % 8 == 0
    ensures var x := NextShort(old(r.Rest())); ok == x.Got? && (ok ==> n == x.value && r.Rest() == x.rest)
  {
    hide Reader.Valid, Reader.Rest, NextNumber;
    var h0, h1;
    n := 0;
    ok, h0 := ReadByte(r);
    if ok {
      ok, h1 := ReadByte(r);
      n := h0 + 256 * h1;
    }
  }

  // The bits up to the next byte boundary are skipped.
  method SkipFill(r: Reader)
    requires r.Valid()
    modifies r
    ensures r.Valid() && r.numBits % 8 == 0 && r.Rest() == old(r.Rest())[|old(r.Rest())| % 8..]
  {
    hide Reader.Valid, Reader.Rest, BitsOf, Lsb;
    RestIs(r);
    RestLength(r.src, r.pos, r.bitBuf, r.numBits);
    r.Drop(r.numBits % 8);
  }

  lemma StoredStep(rest: seq<bool>, s: seq<byte>, room: nat)
    requires |s| <= room
    ensures var x, n := ReadStored(rest, s, room), NextShort(rest[|rest| % 8..]);
            if n.Got? then
              var m := NextShort(n.rest);
              if m.Got? then if n.value != 0xFFFF - m.value then forall u, r :: Says(x, InflateFailed, u, r) else x == ReadRaw(m.rest, s, room, n.value)
              else forall u, r :: Says(x, CannotMakeProgress, u, r)
            else forall u, r :: Says(x, CannotMakeProgress, u, r)
  {
    hide NextShort, ReadRaw;
  }

  // The stored part of tinfl_decompress: the rest of the byte goes, the length and its
  // complement must agree, the bytes are copied.
  method ReadStoredBlock(r: Reader, out: array<byte>, cur: nat) returns (st: InflateStatus, cur': nat)
    requires r.Valid() && cur <= out.Length
    modifies r, out
    ensures r.Valid() && cur' <= out.Length
    ensures Says(ReadStored(old(r.Rest()), old(out[..cur]), out.Length), st, out[..cur'], r.Rest())
  {
    hide *;
    SkipFill(r);
    StoredStep(old(r.Rest()), out[..cur], out.Length);
    st, cur' := CannotMakeProgress, cur;
    var ok, counter, check;
    ok, counter := ReadShort(r);
    if !ok {
      return;
    }
    ok, check := ReadShort(r);
    if !ok {
      return;
    }
    if counter != 0xFFFF - check {
      return InflateFailed, cur;
    }
    st, cur' := ReadBytes(r, out, cur, counter);
  }

  // A block with the fixed codes
  method ReadStaticBlock(r: Reader, t: Tables3, out: array<byte>, cur: nat) returns (st: InflateStatus, cur': nat)
    requires r.Valid() && t.Arrays() && Free(out, t) && cur <= out.Length
    modifies r, out, t.t0, t.t0.lookUp, t.t0.tree, t.t1, t.t1.lookUp, t.t1.tree, t.size0, t.size1
    ensures r.Valid() && cur' <= out.Length
    ensures Says(ReadItems(old(r.Rest()), old(out[..cur]), out.Length, FixedLit(), FixedDist(), true), st, out[..cur'], r.Rest())
  {
    hide Reader.Valid, Reader.Rest, Acceptable, Table.Filled, ReadItems, FixedLit, FixedDist, Says;
    FixedAcceptable();
    FixedLengths();
    FillFixed(t.size0, t.size1);
    assert t.size0[..LIT_SYMBOLS] == t.size0[..];
    var ok := BuildTable(t.t1, t.size1, DIST_SYMBOLS, FixedDist());
    ok := BuildTable(t.t0, t.size0, LIT_SYMBOLS, FixedLit());
    st, cur' := InflateBlock(r, t.t0, t.t1, out, cur, FixedLit(), FixedDist());
  }

  // A block with codes of its own
  method ReadDynamicBlock(r: Reader, t: Tables3, out: array<byte>, cur: nat) returns (st: InflateStatus, cur': nat)
    requires r.Valid() && t.Arrays() && Free(out, t) && cur <= out.Length
    modifies r, out, t.t0, t.t0.lookUp, t.t0.tree, t.t1, t.t1.lookUp, t.t1.tree, t.t2, t.t2.lookUp, t.t2.tree, t.size0, t.size1, t.size2, t.lens
    ensures r.Valid() && cur' <= out.Length
    ensures Says(ReadDynamic(old(r.Rest()), old(out[..cur]), out.Length), st, out[..cur'], r.Rest())
  {
    hide Reader.Valid, Reader.Rest, Acceptable, Table.Filled, ReadItems, ReadCodes;
    ghost var x := ReadCodes(r.Rest());
    var numLit, numDist;
    st, numLit, numDist := ReadHeader(r, t);
    cur' := cur;
    if st != InflateDone {
      return;
    }
    st, cur' := InflateBlock(r, t.t0, t.t1, out, cur, x.value.lit, x.value.dist);
    OddOrNot(x.rest, old(out[..cur]), out.Length, x.value.lit, x.value.dist, x.proper);
  }

  // One turn of the block loop of tinfl_decompress.
  method ReadBlock(r: Reader, t: Tables3, out: array<byte>, cur: nat) returns (st: InflateStatus, cur': nat, final: bool)
    requires r.Valid() && t.Arrays() && Free(out, t) && cur <= out.Length
    modifies r, out, t.t0, t.t0.lookUp, t.t0.tree, t.t1, t.t1.lookUp, t.t1.tree, t.t2, t.t2.lookUp, t.t2.tree, t.size0, t.size1, t.size2, t.lens
    ensures r.Valid() && cur' <= out.Length
    ensures var m := NextNumber(old(r.Rest()), 3);
            if m.Starved? then st == CannotMakeProgress
            else final == (m.value % 2 == 1) && Says(ReadBody(m.value / 2, m.rest, old(out[..cur]), out.Length), st, out[..cur'], r.Rest())
  {
    hide Reader.Valid, Reader.Rest, NextNumber, ReadStored, ReadDynamic, ReadItems, Says, Tables3.Arrays, Free;
    st, cur', final := CannotMakeProgress, cur, false;
    var ok, m := GetNumber(r, 3);
    if !ok {
      return;
    }
    final := m % 2 == 1;
    if m / 2 == 0 {
      st, cur' := ReadStoredBlock(r, out, cur);
    } else if m / 2 == 1 {
      st, cur' := ReadStaticBlock(r, t, out, cur);
    } else if m / 2 == 2 {
      st, cur' := ReadDynamicBlock(r, t, out, cur);
    } else {
      st := InflateFailed;
      BadKind(m / 2, r.Rest(), out[..cur], out.Length);
    }
  }

  lemma BadKind(kind: nat, rest: seq<bool>, s: seq<byte>, room: nat)
    requires |s| <= room && kind > 2
    ensures Says(ReadBody(kind, rest, s, room), InflateFailed, s, rest)
  {
  }

  // The block loop of tinfl_decompress.
  method ReadBlocks(r: Reader, out: array<byte>) returns (st: InflateStatus, n: nat)
    requires r.Valid()
    modifies r, out
    ensures r.Valid() && n <= out.Length
    ensures Says(ReadParts(old(r.Rest()), [], out.Length, true), st, out[..n], r.Rest())
  {
    hide Reader.Valid, Reader.Rest, NextNumber, ReadBody, ReadParts, Tables3.Arrays;
    var t := new Tables3();
    st, n := InflateDone, 0;
    assert out[..0] == [];
    ghost var x, q := ReadParts(r.Rest(), [], out.Length, true), true;
    while true
      invariant r.Valid() && t.Arrays() && n <= out.Length && x == ReadParts(r.Rest(), out[..n], out.Length, q)
      decreases |r.Rest()|
    {
      ghost var rest, s := r.Rest(), out[..n];
      PartStep(rest, s, out.Length, q);
      var final;
      st, n, final := ReadBlock(r, t, out, n);
      if st != InflateDone || final {
        return;
      }
      q := q && ReadBody(NextNumber(rest, 3).value / 2, NextNumber(rest, 3).rest, s, out.Length).proper;
    }
  }

  // ----- What well-formed blocks are read as -----

  lemma TwoBytes(n: nat)
    requires n < 0x1_0000
    ensures Lsb(n, 16) == Lsb(n % 256, 8) + Lsb(n / 256, 8)
  {
    LsbSplit(n, 8, 8);
    LsbOfLow(n, 8);
    ByteParts(n);
  }

  lemma ShortRead(n: nat, more: seq<bool>)
    requires n < 0x1_0000
    ensures NextShort(Lsb(n, 16) + more) == Got(n, more, true)
  {
    TwoBytes(n);
    hide NextNumber, Lsb;
    assert (Lsb(n % 256, 8) + Lsb(n / 256, 8)) + more == Lsb(n % 256, 8) + (Lsb(n / 256, 8) + more);
    ByteRead(n % 256, Lsb(n / 256, 8) + more);
    ByteRead(n / 256, more);
  }

  lemma ByteRead(b: byte, more: seq<bool>)
    ensures NextNumber(Lsb(b, 8) + more, 8) == Got(b, more, true)
  {
    hide NextNumber, Lsb;
    ByteLow(b);
    NumberRead(b, 8, more);
  }

  lemma {:induction false} RawRead(bytes: seq<byte>, s: seq<byte>, room: nat, more: seq<bool>)
    requires |s| + |bytes| <= room
    ensures ReadRaw(BitsOf(bytes) + more, s, room, |bytes|) == Got(s + bytes, more, true)
  {
    hide NextNumber, Lsb;
    if bytes == [] {
      assert BitsOf(bytes) + more == more && s + bytes == s;
    } else {
      assert (Lsb(bytes[0], 8) + BitsOf(bytes[1..])) + more == Lsb(bytes[0], 8) + (BitsOf(bytes[1..]) + more);
      ByteRead(bytes[0], BitsOf(bytes[1..]) + more);
      RawRead(bytes[1..], s + [bytes[0]], room, more);
      assert (s + [bytes[0]]) + bytes[1..] == s + bytes;
    }
  }

  lemma StoredRead(bytes: seq<byte>, fill: seq<bool>, s: seq<byte>, room: nat, more: seq<bool>)
    requires |bytes| < 0x1_0000 && |fill| < 8 && |more| % 8 == 0 && |s| + |bytes| <= room
    ensures ReadStored(fill + (Lsb(|bytes|, 16) + (Lsb(0xFFFF - |bytes|, 16) + (BitsOf(bytes) + more))), s, room) == Got(s + bytes, more, true)
  {
    var n, m := |bytes|, 0xFFFF - |bytes|;
    FillLength(bytes, fill, more);
    hide NextShort, ReadRaw, Lsb, BitsOf;
    ShortRead(n, Lsb(m, 16) + (BitsOf(bytes) + more));
    ShortRead(m, BitsOf(bytes) + more);
    RawRead(bytes, s, room, more);
  }

  lemma FillLength(bytes: seq<byte>, fill: seq<bool>, more: seq<bool>)
    requires |bytes| < 0x1_0000 && |fill| < 8 && |more| % 8 == 0
    ensures var tail := Lsb(|bytes|, 16) + (Lsb(0xFFFF - |bytes|, 16) + (BitsOf(bytes) + more));
            |fill + tail| % 8 == |fill| && (fill + tail)[|fill|..] == tail
  {
    BitsOfLength(bytes);
    SixteenLong(|bytes|);
    SixteenLong(0xFFFF - |bytes|);
    hide Lsb, BitsOf;
    EightMore(|fill| + |more|, 4 + |bytes|);
    MoreEights(|fill|, |more|);
  }

  lemma MoreEights(a: nat, b: nat)
    requires b % 8 == 0 && a < 8
    ensures (a + b) % 8 == a
  {
  }

  // The number that the first three bits of a block stand for, and what follows them.
  ghost function TypeOf(s: Sent): nat {
    match s.form case Raw(_) => 0 case Fixed => 1 case Dynamic(_) => 2
  }

  ghost function AfterType(s: Sent): seq<bool>
    requires FormFits(s)
  {
    match s.form
    case Dynamic(h) => HeaderBits(h) + BlockBits(s.block.tokens, 0, h.lit, h.dist)
    case Fixed => BlockBits(s.block.tokens, 0, FixedLit(), FixedDist())
    case Raw(fill) => fill + (Lsb(|s.block.bytes|, 16) + (Lsb(0xFFFF - |s.block.bytes|, 16) + BitsOf(s.block.bytes)))
  }

  lemma BlockStart(s: Sent, more: seq<bool>)
    requires FormFits(s)
    ensures ([s.last] + BodyBits(s)) + more == Lsb((if s.last then 1 else 0) + 2 * TypeOf(s), 3) + (AfterType(s) + more)
  {
    hide HeaderBits, BlockBits, FixedLit, FixedDist, BitsOf, AllSayable, GoodHeader, Lsb;
    assert BodyBits(s) == Lsb(TypeOf(s), 2) + AfterType(s);
    TypeBits(s.last, TypeOf(s), AfterType(s) + more);
    ThreeRegroupedLeft([s.last], Lsb(TypeOf(s), 2), AfterType(s), more);
  }

  lemma TypeBits(last: bool, t: nat, body: seq<bool>)
    requires t <= 2
    ensures [last] + (Lsb(t, 2) + body) == Lsb((if last then 1 else 0) + 2 * t, 3) + body
  {
    var x := (if last then 1 else 0) + 2 * t;
    assert Lsb(x, 3) == [x % 2 == 1] + Lsb(x / 2, 2);
  }

  lemma ThreeRegroupedLeft(a: seq<bool>, b: seq<bool>, c: seq<bool>, d: seq<bool>)
    ensures (a + (b + c)) + d == a + (b + (c + d))
  {
  }

  lemma FourRegrouped(a: seq<bool>, b: seq<bool>, c: seq<bool>, d: seq<bool>, e: seq<bool>)
    ensures (a + (b + (c + d))) + e == a + (b + (c + (d + e)))
  {
  }

  // A block is read back.
  lemma BodyRead(b: Sent, s: seq<byte>, room: nat, u: seq<byte>, more: seq<bool>)
    requires FormFits(b) && |s| <= room && ApplyBlock(Text(s), b.block) == Text(u) && |u| <= room && (b.form.Raw? ==> |more| % 8 == 0)
    ensures ReadBody(TypeOf(b), AfterType(b) + more, s, room) == Got(u, more, true)
  {
    hide ReadStored, ReadItems, ReadCodes, HeaderBits, BlockBits, AllSayable, GoodHeader, FixedLit, FixedDist, Expand, Lsb, BitsOf, Acceptable, Feasible;
    match b.form
    case Raw(fill) =>
      var n, bytes := |b.block.bytes|, b.block.bytes;
      FourRegrouped(fill, Lsb(n, 16), Lsb(0xFFFF - n, 16), BitsOf(bytes), more);
      StoredRead(bytes, fill, s, room, more);
    case Fixed =>
      FixedAcceptable();
      FixedLengths();
      AcceptableIsFeasible(FixedLit());
      AcceptableIsFeasible(FixedDist());
      TokensRead(b.block.tokens, s, room, FixedLit(), FixedDist(), u, more, true);
    case Dynamic(h) =>
      var body := BlockBits(b.block.tokens, 0, h.lit, h.dist);
      HeaderRead(h, body + more);
      HeaderCodes(h);
      assert (HeaderBits(h) + body) + more == HeaderBits(h) + (body + more);
      TokensRead(b.block.tokens, s, room, h.lit, h.dist, u, more, true);
  }

  lemma HeaderCodes(h: Header)
    requires GoodHeader(h)
    ensures Feasible(h.lit) && Feasible(h.dist) && |h.lit| <= MAX_SYMBOLS && |h.dist| <= 32
  {
    hide Acceptable, Feasible, Writable, CodeLengths.Expand, CodeLengths.Fits;
    AcceptableIsFeasible(h.lit);
    AcceptableIsFeasible(h.dist);
  }

  // ----- What blocks are read from -----

  lemma ShortFrom(rest: seq<bool>)
    requires NextShort(rest).Got?
    ensures var x := NextShort(rest); rest == Lsb(x.value, 16) + x.rest
  {
    hide Lsb, NextNumber;
    Pow2Values();
    var x1 := NextNumber(rest, 8);
    var x2 := NextNumber(x1.rest, 8);
    NumberFrom(rest, 8);
    NumberFrom(x1.rest, 8);
    TwoBytes(NextShort(rest).value);
    assert Lsb(x1.value, 8) + (Lsb(x2.value, 8) + x2.rest) == (Lsb(x1.value, 8) + Lsb(x2.value, 8)) + x2.rest;
  }

  lemma {:induction false} RawFrom(rest: seq<bool>, s: seq<byte>, room: nat, counter: nat) returns (bytes: seq<byte>)
    requires |s| <= room && ReadRaw(rest, s, room, counter).Got?
    ensures var x := ReadRaw(rest, s, room, counter); |bytes| == counter && x.value == s + bytes && rest == BitsOf(bytes) + x.rest
    decreases counter
  {
    hide Lsb, NextNumber;
    if counter == 0 {
      bytes := [];
    } else {
      hide ReadRaw;
      RawStep(rest, s, room, counter);
      var y := NextNumber(rest, 8);
      var tail := RawFrom(y.rest, s + [y.value], room, counter - 1);
      bytes := [y.value] + tail;
      NumberFrom(rest, 8);
      assert bytes[0] == y.value && bytes[1..] == tail;
      assert Lsb(y.value, 8) + (BitsOf(tail) + ReadRaw(rest, s, room, counter).rest) == (Lsb(y.value, 8) + BitsOf(tail)) + ReadRaw(rest, s, room, counter).rest;
    }
  }

  lemma StoredFrom(rest: seq<bool>, s: seq<byte>, room: nat) returns (bytes: seq<byte>)
    requires |s| <= room && ReadStored(rest, s, room).Got?
    ensures var x, fill := ReadStored(rest, s, room), rest[..|rest| % 8];
            |bytes| < 0x1_0000 && x.value == s + bytes &&
            rest == fill + (Lsb(|bytes|, 16) + (Lsb(0xFFFF - |bytes|, 16) + (BitsOf(bytes) + x.rest)))
  {
    hide Lsb, BitsOf, NextShort, ReadRaw;
    var n := NextShort(rest[|rest| % 8..]);
    var m := NextShort(n.rest);
    ShortFrom(rest[|rest| % 8..]);
    ShortFrom(n.rest);
    bytes := RawFrom(m.rest, s, room, n.value);
    assert rest == rest[..|rest| % 8] + rest[|rest| % 8..];
  }

  // What is read properly is a block.
  lemma BodyFrom(m: nat, rest: seq<bool>, s: seq<byte>, room: nat) returns (b: Sent)
    requires m < 8 && |s| <= room && ReadBody(m / 2, rest, s, room).Got? && ReadBody(m / 2, rest, s, room).proper
    ensures var x := ReadBody(m / 2, rest, s, room);
            FormFits(b) && TypeOf(b) == m / 2 && b.last == (m % 2 == 1) && rest == AfterType(b) + x.rest && ApplyBlock(Text(s), b.block) == Text(x.value) &&
            (b.form.Raw? ==> |b.form.fill| == |rest| % 8)
  {
    hide ReadStored, ReadItems, ReadCodes, HeaderBits, BlockBits, AllSayable, GoodHeader, FixedLit, FixedDist, Expand, Lsb, BitsOf, Acceptable, Feasible;
    var x, last := ReadBody(m / 2, rest, s, room), m % 2 == 1;
    if m / 2 == 0 {
      var bytes := StoredFrom(rest, s, room);
      var fill := rest[..|rest| % 8];
      b := Sent(Stored(bytes), Raw(fill), last);
      FourRegrouped(fill, Lsb(|bytes|, 16), Lsb(0xFFFF - |bytes|, 16), BitsOf(bytes), x.rest);
    } else if m / 2 == 1 {
      var ts := TokensFrom(rest, s, room, FixedLit(), FixedDist(), true);
      b := Sent(Coded(ts), Fixed, last);
    } else {
      var c := ReadCodes(rest);
      var ts := TokensFrom(c.rest, s, room, c.value.lit, c.value.dist, c.proper);
      var h := HeaderFrom(rest);
      b := Sent(Coded(ts), Dynamic(h), last);
      var body := BlockBits(ts, 0, h.lit, h.dist);
      assert (HeaderBits(h) + body) + x.rest == HeaderBits(h) + (body + x.rest);
    }
  }

  // ----- Whole streams -----

  // The blocks from k on.
  ghost function BitsFrom(ss: seq<Sent>, k: nat): seq<bool>
    requires AllFit(ss) && k <= |ss|
    decreases |ss| - k
  {
    if k == |ss| then [] else ([ss[k].last] + BodyBits(ss[k])) + BitsFrom(ss, k + 1)
  }

  lemma {:induction false} BitsSplit(ss: seq<Sent>, k: nat)
    requires AllFit(ss) && k <= |ss|
    ensures AllFit(ss[..k]) && StreamBits(ss) == StreamBits(ss[..k]) + BitsFrom(ss, k)
    decreases |ss| - k
  {
    hide FormFits, BodyBits, StreamBits;
    if k == |ss| {
      assert ss[..k] == ss;
    } else {
      BitsSplit(ss, k + 1);
      OneMoreBlock(ss, k);
    }
  }

  lemma OneMoreBlock(ss: seq<Sent>, k: nat)
    requires AllFit(ss) && k < |ss|
    ensures AllFit(ss[..k]) && AllFit(ss[..k + 1]) && StreamBits(ss[..k + 1]) == StreamBits(ss[..k]) + ([ss[k].last] + BodyBits(ss[k]))
  {
    hide BodyBits, FormFits;
    assert ss[..k + 1][..k] == ss[..k];
  }

  // After a stored block the rest of the stream is whole bytes.
  lemma WholeBytes(ss: seq<Sent>, k: nat, after: nat)
    requires GoodStream(ss) && k < |ss| && (|StreamBits(ss)| + after) % 8 == 0 && ss[k].form.Raw?
    ensures (|BitsFrom(ss, k + 1)| + after) % 8 == 0
  {
    hide StreamBits, BodyBits, FormFits, BitsFrom;
    BitsSplit(ss, k + 1);
    assert AllFit(ss[..k]) && Aligned(ss[k], |StreamBits(ss[..k])|);
    OneMoreBlock(ss, k);
    RawLength(ss[k]);
    assert |StreamBits(ss)| == |StreamBits(ss[..k])| + (35 + |ss[k].form.fill| + 8 * |ss[k].block.bytes|) + |BitsFrom(ss, k + 1)|;
  }

  lemma NextBits(ss: seq<Sent>, k: nat, tail: seq<bool>)
    requires AllFit(ss) && k < |ss|
    ensures BitsFrom(ss, k) + tail == ([ss[k].last] + BodyBits(ss[k])) + (BitsFrom(ss, k + 1) + tail)
  {
    hide BodyBits, FormFits;
  }

  lemma ExpandBlocksPrefix(bs: seq<Block>, k: nat)
    requires k < |bs| && ExpandBlocks(bs).Text?
    ensures ExpandBlocks(bs[..k]).Text? && ExpandBlocks(bs[..k + 1]) == ApplyBlock(ExpandBlocks(bs[..k]), bs[k])
    ensures ExpandBlocks(bs[..k + 1]).Text? && |ExpandBlocks(bs[..k + 1]).s| <= |ExpandBlocks(bs).s|
    decreases |bs|
  {
    var c := bs[..|bs| - 1];
    assert bs[..k + 1][..k] == bs[..k];
    BlockGrows(ExpandBlocks(c), bs[|bs| - 1]);
    if k + 1 < |bs| {
      ExpandBlocksPrefix(c, k);
      assert c[..k + 1] == bs[..k + 1] && c[..k] == bs[..k];
    } else {
      assert bs[..k + 1] == bs && bs[..k] == c;
    }
  }

  lemma BlockGrows(x: Text, b: Block)
    requires ApplyBlock(x, b).Text?
    ensures x.Text? && |x.s| <= |ApplyBlock(x, b).s|
  {
    if b.Coded? {
      ExpandLength(x, b.tokens);
    }
  }

  // The first bits of a block, and the block.
  lemma PartRead(b: Sent, s: seq<byte>, room: nat, q: bool, v: seq<byte>, rest1: seq<bool>)
    requires FormFits(b) && |s| <= room && ApplyBlock(Text(s), b.block) == Text(v) && |v| <= room && (b.form.Raw? ==> |rest1| % 8 == 0)
    ensures ReadParts(([b.last] + BodyBits(b)) + rest1, s, room, q) == if b.last then Got(v, rest1, q) else ReadParts(rest1, v, room, q)
  {
    hide ReadParts, ReadBody, BodyBits, AfterType, NextNumber, FormFits, ApplyBlock, Lsb;
    var t, x := (if b.last then 1 else 0) + 2 * TypeOf(b), ([b.last] + BodyBits(b)) + rest1;
    BlockStart(b, rest1);
    Pow2Values();
    SmallRead(t, 3, AfterType(b) + rest1);
    BodyRead(b, s, room, v, rest1);
    PartStep(x, s, room, q);
  }

  // A stream is read back.
  lemma {:induction false} PartsRead(ss: seq<Sent>, k: nat, s: seq<byte>, room: nat, q: bool, u: seq<byte>, more: seq<bool>)
    requires GoodStream(ss) && OneLast(ss) && k < |ss| && (|StreamBits(ss)| + |more|) % 8 == 0
    requires ExpandBlocks(BlocksOf(ss)[..k]) == Text(s) && ExpandBlocks(BlocksOf(ss)) == Text(u) && |s| <= room && |u| <= room
    ensures ReadParts(BitsFrom(ss, k) + more, s, room, q) == Got(u, more, q)
    decreases |ss| - k
  {
    hide ReadParts, BodyBits, StreamBits, FormFits, ApplyBlock, ExpandBlocks, BitsFrom;
    var b, bs, rest1 := ss[k], BlocksOf(ss), BitsFrom(ss, k + 1) + more;
    NextBits(ss, k, more);
    if b.form.Raw? {
      WholeBytes(ss, k, |more|);
    }
    ExpandBlocksPrefix(bs, k);
    var v := ExpandBlocks(bs[..k + 1]).s;
    PartRead(b, s, room, q, v, rest1);
    if b.last {
      assert bs[..k + 1] == bs;
      NoneLeft(ss, more);
    } else {
      PartsRead(ss, k + 1, v, room, q, u, more);
    }
  }

  lemma NoneLeft(ss: seq<Sent>, after: seq<bool>)
    requires AllFit(ss)
    ensures BitsFrom(ss, |ss|) + after == after
  {
  }

  // Padding of a stored block ends on a byte boundary.
  lemma FillAligned(pos: nat, left: nat, fill: nat)
    requires (pos + 3 + left) % 8 == 0 && fill == left % 8
    ensures (pos + 3 + fill) % 8 == 0
  {
  }

  // What is read properly is a stream, behind the blocks before.
  lemma {:induction false} PartsFrom(all: seq<bool>, before: seq<Sent>, rest: seq<bool>, s: seq<byte>, room: nat, q: bool) returns (ss: seq<Sent>)
    requires |all| % 8 == 0 && |rest| <= |all| && all[|all| - |rest|..] == rest && Open(all[..|all| - |rest|], before)
    requires ExpandBlocks(BlocksOf(before)) == Text(s) && |s| <= room && ReadParts(rest, s, room, q).Got? && ReadParts(rest, s, room, q).proper
    ensures var x := ReadParts(rest, s, room, q);
            q && GoodStream(ss) && OneLast(ss) && all == StreamBits(ss) + x.rest && ExpandBlocks(BlocksOf(ss)) == Text(x.value)
    decreases |rest|
  {
    hide *;
    PartStep(rest, s, room, q);
    var x, m := ReadParts(rest, s, room, q), NextNumber(rest, 3);
    ThreeNumber(rest);
    var y := ReadBody(m.value / 2, m.rest, s, room);
    ProperBefore(rest, s, room, q);
    var b := BodyFrom(m.value, m.rest, s, room);
    BlockStart(b, y.rest);
    OneMorePart(all, before, rest, b, y.rest, s, y.value);
    if b.last {
      ss := before + [b];
    } else {
      Shorter(rest, s, room);
      ss := PartsFrom(all, before + [b], y.rest, y.value, room, q && y.proper);
    }
  }

  lemma ThreeNumber(rest: seq<bool>)
    ensures var m := NextNumber(rest, 3); m.Starved? || (m.Got? && m.value < 8 && rest == Lsb(m.value, 3) + m.rest && |rest| == 3 + |m.rest|)
  {
    Pow2Values();
    hide Lsb;
    if NextNumber(rest, 3).Got? {
      NumberFrom(rest, 3);
    }
  }

  lemma ProperBefore(rest: seq<bool>, s: seq<byte>, room: nat, q: bool)
    requires |s| <= room && ReadParts(rest, s, room, q).Got? && ReadParts(rest, s, room, q).proper
    ensures var m := NextNumber(rest, 3); m.Got? && ReadBody(m.value / 2, m.rest, s, room).Got? && ReadBody(m.value / 2, m.rest, s, room).proper && q
  {
    hide ReadBody, NextNumber;
  }

  lemma Shorter(rest: seq<bool>, s: seq<byte>, room: nat)
    requires |s| <= room
    ensures var m := NextNumber(rest, 3); m.Got? ==>
              var y := ReadBody(m.value / 2, m.rest, s, room); y.Got? ==> |y.rest| < |rest| && |y.value| <= room
  {
    hide ReadBody;
  }

  lemma OneMorePart(all: seq<bool>, before: seq<Sent>, rest: seq<bool>, b: Sent, after: seq<bool>, s: seq<byte>, u: seq<byte>)
    requires |all| % 8 == 0 && 3 <= |rest| <= |all| && all[|all| - |rest|..] == rest && Open(all[..|all| - |rest|], before) && FormFits(b)
    requires rest == ([b.last] + BodyBits(b)) + after && (b.form.Raw? ==> |b.form.fill| == (|rest| - 3) % 8)
    requires ExpandBlocks(BlocksOf(before)) == Text(s) && ApplyBlock(Text(s), b.block) == Text(u)
    ensures var now := before + [b];
            |after| <= |all| && all[|all| - |after|..] == after && ExpandBlocks(BlocksOf(now)) == Text(u) &&
            if b.last then GoodStream(now) && OneLast(now) && all == StreamBits(now) + after else Open(all[..|all| - |after|], now)
  {
    hide BodyBits, StreamBits, FormFits, ApplyBlock, ExpandBlocks;
    var bits := all[..|all| - |rest|];
    assert all == bits + rest;
    FillAligned(|bits|, |rest| - 3, (|rest| - 3) % 8);
    StreamMore(before, b);
    DeflateStream.BlocksMore(before, b);
    LzSpec.BlocksMore(BlocksOf(before), b.block);
    assert all == (bits + ([b.last] + BodyBits(b))) + after;
    assert all[..|all| - |after|] == bits + ([b.last] + BodyBits(b));
    if !b.last {
      StaysOpen(bits, before, b);
    }
  }

  // The bits are a stream that means u, with more behind it.
  ghost predicate StreamMeans(ss: seq<Sent>, all: seq<bool>, u: seq<byte>, more: seq<bool>) {
    GoodStream(ss) && OneLast(ss) && all == StreamBits(ss) + more && ExpandBlocks(BlocksOf(ss)) == Text(u)
  }

  lemma MeansRead(ss: seq<Sent>, all: seq<bool>, room: nat, u: seq<byte>, more: seq<bool>)
    requires |all| % 8 == 0 && StreamMeans(ss, all, u, more) && |u| <= room
    ensures ReadParts(all, [], room, true) == Got(u, more, true)
  {
    hide ReadParts, StreamBits, ExpandBlocks, FormFits, GoodStream, AllFit, BitsFrom, BodyBits;
    StreamFits(ss);
    BitsSplit(ss, 0);
    assert ss[..0] == [] && BlocksOf(ss)[..0] == [];
    NothingSent();
    assert [] + BitsFrom(ss, 0) == BitsFrom(ss, 0);
    PartsRead(ss, 0, [], room, true, u, more);
  }

  lemma StreamFits(ss: seq<Sent>)
    requires GoodStream(ss)
    ensures AllFit(ss)
  {
    hide StreamBits, FormFits, Aligned;
  }

  lemma NothingSent()
    ensures AllFit([]) && StreamBits([]) == [] && ExpandBlocks([]) == Text([]) && Open([], []) && BlocksOf([]) == []
  {
  }

  // The decompressor finishes properly with u exactly if the bits are a stream that means u;
  // otherwise, if it finishes, they are no stream at all.
  lemma StreamMeaning(all: seq<bool>, room: nat, u: seq<byte>, more: seq<bool>)
    requires |all| % 8 == 0
    ensures ReadParts(all, [], room, true) == Got(u, more, true) <==> |u| <= room && exists ss :: StreamMeans(ss, all, u, more)
    ensures ReadParts(all, [], room, true) == Got(u, more, false) ==> forall ss, v, after :: |v| <= room ==> !StreamMeans(ss, all, v, after)
  {
    hide ReadParts, StreamMeans;
    if ss :| StreamMeans(ss, all, u, more) && |u| <= room {
      MeansRead(ss, all, room, u, more);
    }
    if ReadParts(all, [], room, true) == Got(u, more, true) {
      NothingSent();
      assert all[..|all| - |all|] == [] && all[|all| - |all|..] == all;
      var ss := PartsFrom(all, [], all, [], room, true);
      IsMeant(ss, all, u, more);
    }
    if ReadParts(all, [], room, true) == Got(u, more, false) {
      forall ss, v, after | |v| <= room ensures !StreamMeans(ss, all, v, after) {
        NotBoth(ss, all, room, u, more, v, after);
      }
    }
  }

  lemma IsMeant(ss: seq<Sent>, all: seq<bool>, u: seq<byte>, more: seq<bool>)
    requires GoodStream(ss) && OneLast(ss) && all == StreamBits(ss) + more && ExpandBlocks(BlocksOf(ss)) == Text(u)
    ensures StreamMeans(ss, all, u, more)
  {
    hide StreamBits, ExpandBlocks, FormFits, Aligned;
  }

  lemma NotBoth(ss: seq<Sent>, all: seq<bool>, room: nat, u: seq<byte>, more: seq<bool>, v: seq<byte>, after: seq<bool>)
    requires |all| % 8 == 0 && ReadParts(all, [], room, true) == Got(u, more, false) && |v| <= room
    ensures !StreamMeans(ss, all, v, after)
  {
    hide ReadParts, StreamMeans;
    if StreamMeans(ss, all, v, after) {
      MeansRead(ss, all, room, v, after);
    }
  }

  // ----- A stream that is none -----

  // Four bytes with the fixed codes: a letter, the unused length symbol 286 with a distance, and
  // the end of the block.
  ghost function Malformed(): seq<bool> {
    FixedLengths();
    Lsb(3, 3) + (Word(FixedLit(), 97) + (Word(FixedLit(), 286) + (Word(FixedDist(), 0) + (Word(FixedLit(), END_OF_BLOCK) + [false]))))
  }

  // The decompressor accepts it as the letter.
  lemma MalformedAccepted(room: nat)
    requires room >= 1
    ensures |Malformed()| == 32 && ReadParts(Malformed(), [], room, true) == Got([97], [false], false)
    ensures forall ss, v, after :: |v| <= room ==> !StreamMeans(ss, Malformed(), v, after)
  {
    FixedFits();
    FixedLengths();
    hide ReadParts, StreamMeans, FixedLit, FixedDist, Word, Lsb, ReadBody;
    var lit, dist := FixedLit(), FixedDist();
    var r4 := Word(lit, END_OF_BLOCK) + [false];
    var r2 := Word(lit, 286) + (Word(dist, 0) + r4);
    var r1 := Word(lit, 97) + r2;
    ThreeIs(r1);
    PartStep(Malformed(), [], room, true);
    FixedBody(r1, room);
    SymbolRead(lit, 97, r2);
    SymbolStep(r1, [], room, lit, dist, true);
    assert [] + [97 as byte] == [97];
    ZeroCopy(r4, [97], room);
    EndOfFixed([97], room, [false]);
    StreamMeaning(Malformed(), room, [97], [false]);
  }

  lemma ThreeIs(r1: seq<bool>)
    ensures NextNumber(Lsb(3, 3) + r1, 3) == Got(3, r1, true)
  {
    Pow2Values();
    hide Lsb, NextNumber;
    SmallRead(3, 3, r1);
  }

  lemma FixedBody(rest: seq<bool>, room: nat)
    ensures |FixedLit()| <= MAX_SYMBOLS && |FixedDist()| <= 32
    ensures ReadBody(1, rest, [], room) == ReadItems(rest, [], room, FixedLit(), FixedDist(), true)
  {
    FixedLengths();
    hide ReadItems, FixedLit, FixedDist;
  }

  lemma FixedFits()
    ensures Feasible(FixedLit()) && Feasible(FixedDist()) && Used(FixedLit(), 97) && Used(FixedLit(), 286) && Used(FixedDist(), 0)
    ensures Used(FixedLit(), END_OF_BLOCK) && |FixedLit()| <= MAX_SYMBOLS && |FixedDist()| <= 32
    ensures |Word(FixedLit(), 97)| == 8 && |Word(FixedLit(), 286)| == 8 && |Word(FixedDist(), 0)| == 5 && |Word(FixedLit(), END_OF_BLOCK)| == 7
  {
    FixedAcceptable();
    FixedLengths();
    WordLength(FixedLit(), 97);
    WordLength(FixedLit(), 286);
    WordLength(FixedLit(), END_OF_BLOCK);
    WordLength(FixedDist(), 0);
    hide Acceptable, Feasible, Word;
    AcceptableIsFeasible(FixedLit());
    AcceptableIsFeasible(FixedDist());
  }

  // The unused symbol is a copy of no bytes.
  lemma ZeroCopy(more: seq<bool>, s: seq<byte>, room: nat)
    requires 1 <= |s| <= room
    ensures |FixedLit()| <= MAX_SYMBOLS && |FixedDist()| <= 32
    ensures ReadItems(Word(FixedLit(), 286) + (Word(FixedDist(), 0) + more), s, room, FixedLit(), FixedDist(), true)
            == ReadItems(more, s, room, FixedLit(), FixedDist(), false)
  {
    FixedFits();
    hide FixedLit, FixedDist, Word, ReadItems, NextSymbol, Feasible;
    var lit, dist := FixedLit(), FixedDist();
    var rest := Word(dist, 0) + more;
    SymbolRead(lit, 286, rest);
    SymbolRead(dist, 0, more);
    assert rest[0..] == rest && more[0..] == more;
    SymbolStep(Word(lit, 286) + rest, s, room, lit, dist, true);
    NoMoreToCopy(s, 1);
  }

  lemma EndOfFixed(s: seq<byte>, room: nat, more: seq<bool>)
    requires |s| <= room
    ensures |FixedLit()| <= MAX_SYMBOLS && |FixedDist()| <= 32 && Used(FixedLit(), END_OF_BLOCK)
    ensures ReadItems(Word(FixedLit(), END_OF_BLOCK) + more, s, room, FixedLit(), FixedDist(), false) == Got(s, more, false)
  {
    FixedFits();
    hide FixedLit, FixedDist, Word, ReadItems, NextSymbol, Feasible;
    SymbolRead(FixedLit(), END_OF_BLOCK, more);
    SymbolStep(Word(FixedLit(), END_OF_BLOCK) + more, s, room, FixedLit(), FixedDist(), false);
  }

  // ----- A whole call -----

  // What a call on a raw stream answers: the output and how many bytes it took.
  ghost predicate RawAnswer(src: seq<byte>, room: nat, st: InflateStatus, text: seq<byte>, consumed: nat) {
    Answers(RawMeaning(src, room), src, st, text, consumed)
  }

  ghost predicate Answers(x: Read<seq<byte>>, src: seq<byte>, st: InflateStatus, text: seq<byte>, consumed: nat) {
    if x.Got? then st == InflateDone && text == x.value && consumed <= |src| && BitsOf(src[consumed..]) == x.rest[|x.rest| % 8..] else Fails(x, st)
  }

  ghost function RawMeaning(src: seq<byte>, room: nat): Read<seq<byte>> {
    ReadParts(BitsOf(src), [], room, true)
  }

  // tinfl_decompress on a raw stream: behind the blocks, the rest of the byte goes, and whole
  // bytes that were read ahead go back.
  method InflateRaw(src: seq<byte>, out: array<byte>) returns (st: InflateStatus, n: nat, consumed: nat)
    modifies out
    ensures n <= out.Length && RawAnswer(src, out.Length, st, out[..n], consumed)
  {
    hide *;
    var r := new Reader(src);
    st, n := ReadBlocks(r, out);
    ghost var x := RawMeaning(src, out.Length);
    MeaningIs(src, out.Length);
    SaysOutcome(x, st, out[..n], r.Rest());
    if st == InflateDone {
      r.EndOfBlocks();
      RestIs(r);
    }
    consumed := r.pos;
    IsAnswer(x, src, out.Length, st, out[..n], consumed);
  }

  lemma SaysOutcome(x: Read<seq<byte>>, st: InflateStatus, text: seq<byte>, rest: seq<bool>)
    requires Says(x, st, text, rest)
    ensures st == InflateDone <==> x.Got?
    ensures if x.Got? then text == x.value && rest == x.rest else Fails(x, st)
  {
  }

  lemma IsAnswer(x: Read<seq<byte>>, src: seq<byte>, room: nat, st: InflateStatus, text: seq<byte>, consumed: nat)
    requires if x.Got? then st == InflateDone && text == x.value && consumed <= |src| && BitsOf(src[consumed..]) == x.rest[|x.rest| % 8..] else Fails(x, st)
    requires x == RawMeaning(src, room)
    ensures RawAnswer(src, room, st, text, consumed)
  {
    hide RawMeaning, BitsOf;
  }

  lemma MeaningIs(src: seq<byte>, room: nat)
    ensures RawMeaning(src, room) == ReadParts(BitsOf(src), [], room, true)
  {
    hide ReadParts, BitsOf;
  }
}
