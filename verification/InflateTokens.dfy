// The compressed data of a block as the decompressor reads it, for any bits at all: what comes
// out, when it fails, and that it is exactly what well-formed blocks mean.

module InflateTokens {
  import opened Bits
  import opened Ints
  import opened Bitstream
  import opened HuffmanCode
  import opened HuffmanTable
  import opened Inflate
  import opened LzSpec
  import opened DeflateTokens

  datatype InflateStatus = InflateDone | InflateFailed | CannotMakeProgress | HasMoreOutput | AdlerMismatch

  // What bits are read as: a value and the bits left, proper if the format has this form for
  // it; or the input ends, or it is refused, or there is no room for the output.
  datatype Read<T> = Got(value: T, rest: seq<bool>, proper: bool) | Starved | Corrupt | Full

  ghost function NextNumber(rest: seq<bool>, n: nat): (x: Read<nat>)
    ensures x.Got? ==> n <= |rest| && x.rest == rest[n..] && x.value < Pow2(n) && Lsb(x.value, n) == rest[..n] && x.proper
    ensures x.Got? || x.Starved?
  {
    if n <= |rest| then
      LsbOfNum(rest[..n]);
      Got(Num(rest[..n]), rest[n..], true)
    else Starved
  }

  // ----- One symbol and what belongs to it -----

  datatype Item = Byte(b: byte) | Copy(len: nat, dist: nat) | End

  // The length symbol is the one that the format has for the length.
  predicate Canonical(sym: nat, len: nat) {
    MIN_MATCH_LEN <= len <= MAX_MATCH_LEN && LenSym(len - MIN_MATCH_LEN) == sym
  }

  // The rest of a length, and the distance.
  ghost function NextCopy(rest: seq<bool>, sym: nat, dist: seq<nat>): (x: Read<Item>)
    requires 257 <= sym < MAX_SYMBOLS && |dist| <= 32
    ensures x.Got? ==> x.value.Copy? && |x.rest| <= |rest|
    ensures x.Got? || x.Starved?
  {
    match NextNumber(rest, LENGTH_EXTRA[sym - 257])
    case Got(e, rest1, _) =>
      var len := LENGTH_BASE[sym - 257] + e;
      (match NextSymbol(dist, rest1)
       case NoSymbol => Starved
       case Symbol(d, n, p) =>
         match NextNumber(rest1[n..], DIST_EXTRA[d])
         case Got(f, rest2, _) => Got(Copy(len, DIST_BASE[d] + f), rest2, p && Canonical(sym, len))
         case _ => Starved)
    case _ => Starved
  }

  ghost function NextItem(rest: seq<bool>, lit: seq<nat>, dist: seq<nat>): (x: Read<Item>)
    requires |lit| <= MAX_SYMBOLS && |dist| <= 32
    ensures x.Got? ==> |x.rest| <= |rest| && (x.value.Copy? ==> |x.rest| < |rest|)
    ensures x.Got? || x.Starved?
  {
    match NextSymbol(lit, rest)
    case NoSymbol => Starved
    case Symbol(sym, n, p) =>
      if sym < 256 then Got(Byte(sym), rest[n..], p)
      else if sym == END_OF_BLOCK then Got(End, rest[n..], p)
      else
        match NextCopy(rest[n..], sym, dist)
        case Got(c, rest', p') => Got(c, rest', p && p')
        case _ => Starved
  }

  // ----- The loop -----

  predicate Allowed(item: Item, s: seq<byte>) {
    item.Copy? ==> 1 <= item.dist <= |s|
  }

  function Size(item: Item): nat {
    match item case Byte(_) => 1 case Copy(len, _) => len case End => 0
  }

  function Grown(item: Item, s: seq<byte>): (t: seq<byte>)
    requires Allowed(item, s)
    ensures |t| == |s| + Size(item)
  {
    match item
    case Byte(b) => s + [b]
    case Copy(len, dist) => CopyBack(s, len, dist)
    case End => s
  }

  // The text behind s; q says whether everything so far was proper.
  ghost function ReadItems(rest: seq<bool>, s: seq<byte>, room: nat, lit: seq<nat>, dist: seq<nat>, q: bool): (x: Read<seq<byte>>)
    requires |lit| <= MAX_SYMBOLS && |dist| <= 32 && |s| <= room
    ensures x.Got? ==> |x.rest| <= |rest| && |s| <= |x.value| <= room
    decreases |rest|, room - |s|
  {
    match NextItem(rest, lit, dist)
    case Got(item, rest', p) => AfterItem(item, rest', s, room, lit, dist, q && p, rest)
    case _ => Starved
  }

  ghost function AfterItem(item: Item, rest: seq<bool>, s: seq<byte>, room: nat, lit: seq<nat>, dist: seq<nat>, q: bool, before: seq<bool>): (x: Read<seq<byte>>)
    requires |lit| <= MAX_SYMBOLS && |dist| <= 32 && |s| <= room && |rest| <= |before| && (item.Copy? ==> |rest| < |before|)
    ensures x.Got? ==> |x.rest| <= |rest| && |s| <= |x.value| <= room
    decreases |before|, room - |s|, 0
  {
    if item.End? then Got(s, rest, q)
    else if !Allowed(item, s) then Corrupt
    else if |s| + Size(item) > room then Full
    else ReadItems(rest, Grown(item, s), room, lit, dist, q)
  }

  // ----- Copying -----

  // The copy loop of tinfl_decompress, three bytes a turn: the copy may run into bytes that
  // it has itself produced.
  method CopyMatch(out: array<byte>, cur: nat, dist: nat, len: nat)
    requires 1 <= dist <= cur && cur + len <= out.Length
    modifies out
    ensures out[..cur + len] == CopyBack(old(out[..cur]), len, dist)
  {
    hide CopyBack;
    var p: nat, counter: nat := cur, len;
    ghost var whole := CopyBack(out[..cur], len, dist);
    while counter > 2
      invariant p + counter == cur + len && p >= cur && CopyBack(out[..p], counter, dist) == whole
    {
      CopyByte(out, p, dist, counter);
      CopyByte(out, p + 1, dist, counter - 1);
      CopyByte(out, p + 2, dist, counter - 2);
      p := p + 3;
      counter := counter - 3;
    }
    if counter > 0 {
      CopyByte(out, p, dist, counter);
      if counter > 1 {
        CopyByte(out, p + 1, dist, counter - 1);
      }
    }
    NoMoreToCopy(out[..cur + len], dist);
  }

  lemma NoMoreToCopy(s: seq<byte>, dist: nat)
    requires 1 <= dist <= |s|
    ensures CopyBack(s, 0, dist) == s
  {
  }

  method CopyByte(out: array<byte>, p: nat, dist: nat, ghost counter: nat)
    requires 1 <= dist <= p < out.Length && counter >= 1
    modifies out
    ensures CopyBack(out[..p + 1], counter - 1, dist) == CopyBack(old(out[..p]), counter, dist)
  {
    ghost var s := out[..p];
    out[p] := out[p - dist];
    assert out[..p + 1] == s + [s[|s| - dist]];
  }

  // ----- Reading -----

  // What is left to do behind a symbol of the literal and length code that is no literal.
  ghost function AfterSymbol(sym: nat, rest: seq<bool>, s: seq<byte>, room: nat, lit: seq<nat>, dist: seq<nat>, q: bool): Read<seq<byte>>
    requires END_OF_BLOCK <= sym < MAX_SYMBOLS && |lit| <= MAX_SYMBOLS && |dist| <= 32 && |s| <= room
  {
    if sym == END_OF_BLOCK then Got(s, rest, q)
    else
      match NextCopy(rest, sym, dist)
      case Got(c, rest', p) =>
        if !Allowed(c, s) then Corrupt
        else if |s| + Size(c) > room then Full
        else ReadItems(rest', Grown(c, s), room, lit, dist, q && p)
      case _ => Starved
  }

  lemma SymbolStep(rest: seq<bool>, s: seq<byte>, room: nat, lit: seq<nat>, dist: seq<nat>, q: bool)
    requires |lit| <= MAX_SYMBOLS && |dist| <= 32 && |s| <= room
    ensures var x, y := ReadItems(rest, s, room, lit, dist, q), NextSymbol(lit, rest);
            if y.NoSymbol? then x == Starved
            else if y.sym < 256 then x == if |s| == room then Full else ReadItems(rest[y.len..], s + [y.sym], room, lit, dist, q && y.proper)
            else y.sym < MAX_SYMBOLS && y.len > 0 && x == AfterSymbol(y.sym, rest[y.len..], s, room, lit, dist, q && y.proper)
  {
    hide NextSymbol, NextCopy, CopyBack;
  }

  // The status and the output that a reading has.
  ghost predicate Says(x: Read<seq<byte>>, st: InflateStatus, text: seq<byte>, rest: seq<bool>) {
    if x.Got? then st == InflateDone && text == x.value && rest == x.rest else Fails(x, st)
  }

  ghost predicate Fails<T>(x: Read<T>, st: InflateStatus) {
    match x
    case Got(_, _, _) => false
    case Starved => st == CannotMakeProgress
    case Corrupt => st == InflateFailed
    case Full => st == HasMoreOutput
  }

  ghost predicate Apart(out: array<byte>, t: Table) {
    (out as object) != t.lookUp && (out as object) != t.tree
  }

  // TINFL_GET_BITS
  method GetNumber(r: Reader, n: nat) returns (ok: bool, v: nat)
    requires r.Valid() && n <= 16
    modifies r
    ensures r.Valid() && var x := NextNumber(old(r.Rest()), n); ok == x.Got? && (ok ==> v == x.value && r.Rest() == x.rest)
  {
    hide Lsb, Pow2, BitsOf, Num;
    ok, v := r.GetBits(n);
    if ok {
      SameNumber(v, NextNumber(old(r.Rest()), n).value, n);
    }
  }

  lemma SameNumber(a: nat, b: nat, n: nat)
    requires a < Pow2(n) && b < Pow2(n) && Lsb(a, n) == Lsb(b, n)
    ensures a == b
  {
    NumOfLsb(a, n);
    NumOfLsb(b, n);
    LowOfSmall(a, n);
    LowOfSmall(b, n);
  }

  // The extra bits of a length or a distance.
  method AddExtra(r: Reader, numExtra: nat, base: nat) returns (ok: bool, value: nat)
    requires r.Valid() && numExtra <= 16
    modifies r
    ensures r.Valid() && var x := NextNumber(old(r.Rest()), numExtra); ok == x.Got? && (ok ==> value == base + x.value && r.Rest() == x.rest)
  {
    ok, value := true, base;
    if numExtra != 0 {
      hide *;
      var extraBits;
      ok, extraBits := GetNumber(r, numExtra);
      value := value + extraBits;
    }
  }

  lemma ExtraLimits()
    ensures |LENGTH_EXTRA| == |LENGTH_BASE| == 31 && |DIST_EXTRA| == |DIST_BASE| == 32
    ensures (forall k :: 0 <= k < 31 ==> LENGTH_EXTRA[k] <= 5) && forall k :: 0 <= k < 32 ==> DIST_EXTRA[k] <= 13
  {
  }

  // The rest of a length and the distance behind its first symbol
  method ReadCopy(r: Reader, t1: Table, sym: nat, ghost dist: seq<nat>) returns (ok: bool, counter: nat, distance: nat)
    requires r.Valid() && Acceptable(dist) && |dist| <= 32 && t1.Filled(dist, |dist|) && 257 <= sym < MAX_SYMBOLS
    modifies r
    ensures r.Valid() && var x := NextCopy(old(r.Rest()), sym, dist);
            ok == x.Got? && (ok ==> x.value == Copy(counter, distance) && r.Rest() == x.rest)
  {
    hide Reader.Valid, Reader.Rest, Acceptable, Table.Filled, NextSymbol, Canonical, NextNumber;
    ExtraLimits();
    counter, distance := 0, 0;
    ok, counter := AddExtra(r, LENGTH_EXTRA[sym - 257], LENGTH_BASE[sym - 257]);
    if ok {
      var d;
      ok, d := HuffDecode(r, t1, dist);
      if ok {
        ok, distance := AddExtra(r, DIST_EXTRA[d], DIST_BASE[d]);
      }
    }
  }

  // The match part of the loop: the rest of the length, the distance and the copy.
  method ReadMatch(r: Reader, t1: Table, sym: nat, out: array<byte>, cur: nat, ghost lit: seq<nat>, ghost dist: seq<nat>, ghost q: bool)
    returns (st: InflateStatus, cur': nat, ghost q': bool)
    requires r.Valid() && Acceptable(dist) && |dist| <= 32 && t1.Filled(dist, |dist|) && Apart(out, t1)
    requires 257 <= sym < MAX_SYMBOLS && |lit| <= MAX_SYMBOLS && cur <= out.Length
    modifies r, out
    ensures r.Valid() && cur <= cur' <= out.Length && (st == InflateDone ==> |r.Rest()| <= |old(r.Rest())|)
    ensures var x := AfterSymbol(sym, old(r.Rest()), old(out[..cur]), out.Length, lit, dist, q);
            if st == InflateDone then x == ReadItems(r.Rest(), out[..cur'], out.Length, lit, dist, q') else Fails(x, st)
  {
    hide Reader.Valid, Reader.Rest, Acceptable, Table.Filled, ReadItems, NextCopy, CopyBack;
    st, cur', q' := InflateDone, cur, q && NextCopy(r.Rest(), sym, dist).Got? && NextCopy(r.Rest(), sym, dist).proper;
    ghost var x := NextCopy(r.Rest(), sym, dist);
    var ok, counter, distance := ReadCopy(r, t1, sym, dist);
    if !ok {
      return CannotMakeProgress, cur, q;
    }
    if distance == 0 || distance > cur {
      return InflateFailed, cur, q;
    }
    if cur + counter > out.Length {
      return HasMoreOutput, cur, q;
    }
    CopyMatch(out, cur, distance, counter);
    cur' := cur + counter;
  }

  // What a symbol that was read leaves to do.
  ghost function Behind(sym: nat, rest: seq<bool>, s: seq<byte>, room: nat, lit: seq<nat>, dist: seq<nat>, q: bool): Read<seq<byte>>
    requires sym < MAX_SYMBOLS && |lit| <= MAX_SYMBOLS && |dist| <= 32 && |s| <= room
  {
    if sym >= END_OF_BLOCK then AfterSymbol(sym, rest, s, room, lit, dist, q)
    else if |s| == room then Full
    else ReadItems(rest, s + [sym], room, lit, dist, q)
  }

  lemma SymbolBehind(rest: seq<bool>, s: seq<byte>, room: nat, lit: seq<nat>, dist: seq<nat>, q: bool)
    requires |lit| <= MAX_SYMBOLS && |dist| <= 32 && |s| <= room
    ensures var x, y := ReadItems(rest, s, room, lit, dist, q), NextSymbol(lit, rest);
            if y.NoSymbol? then x == Starved
            else y.sym < MAX_SYMBOLS && x == Behind(y.sym, rest[y.len..], s, room, lit, dist, q && y.proper) && (y.sym >= END_OF_BLOCK ==> y.len > 0)
  {
    hide NextSymbol, ReadItems, AfterSymbol;
    SymbolStep(rest, s, room, lit, dist, q);
  }

  // The first half of a turn of the literal loop: one symbol, with care for the end of the input.
  method NextLiteral(r: Reader, t0: Table, ghost s: seq<byte>, ghost room: nat, ghost lit: seq<nat>, ghost dist: seq<nat>, ghost q: bool)
    returns (ok: bool, counter: nat, ghost q': bool)
    requires r.Valid() && Acceptable(lit) && |lit| <= MAX_SYMBOLS && t0.Filled(lit, |lit|) && |dist| <= 32 && |s| <= room
    modifies r
    ensures r.Valid() && (ok ==> counter < MAX_SYMBOLS && |r.Rest()| <= |old(r.Rest())| && (counter >= END_OF_BLOCK ==> |r.Rest()| < |old(r.Rest())|))
    ensures var x := ReadItems(old(r.Rest()), s, room, lit, dist, q); if ok then x == Behind(counter, r.Rest(), s, room, lit, dist, q') else x == Starved
  {
    hide Reader.Valid, Reader.Rest, Acceptable, Table.Filled, ReadItems, NextSymbol, Behind;
    ghost var y := NextSymbol(lit, r.Rest());
    SymbolBehind(r.Rest(), s, room, lit, dist, q);
    ok, counter := HuffDecode(r, t0, lit);
    q' := q && y.Symbol? && y.proper;
  }

  // The same with enough input.
  method FastLiteral(r: Reader, t0: Table, ghost s: seq<byte>, ghost room: nat, ghost lit: seq<nat>, ghost dist: seq<nat>, ghost q: bool)
    returns (counter: nat, ghost q': bool)
    requires r.Valid() && Acceptable(lit) && |lit| <= MAX_SYMBOLS && t0.Filled(lit, |lit|) && |dist| <= 32 && |s| <= room && r.pos + 2 <= |r.src|
    modifies r
    ensures r.Valid() && counter < MAX_SYMBOLS && |r.Rest()| <= |old(r.Rest())| && (counter >= END_OF_BLOCK ==> |r.Rest()| < |old(r.Rest())|)
    ensures r.pos <= old(r.pos) + 2
    ensures ReadItems(old(r.Rest()), s, room, lit, dist, q) == Behind(counter, r.Rest(), s, room, lit, dist, q')
  {
    hide Reader.Valid, Reader.Rest, Acceptable, Table.Filled, ReadItems, NextSymbol, Behind;
    ghost var y := NextSymbol(lit, r.Rest());
    SymbolBehind(r.Rest(), s, room, lit, dist, q);
    counter := DecodeFast(r, t0, lit);
    q' := q && y.proper;
  }

  // Two symbols a turn, if the first is a literal
  method TwoLiterals(r: Reader, t0: Table, out: array<byte>, cur: nat, ghost lit: seq<nat>, ghost dist: seq<nat>, ghost q: bool)
    returns (counter: nat, cur': nat, ghost q': bool)
    requires r.Valid() && Acceptable(lit) && |lit| <= MAX_SYMBOLS && t0.Filled(lit, |lit|) && Apart(out, t0) && |dist| <= 32
    requires r.pos + 4 <= |r.src| && cur + 2 <= out.Length
    modifies r, out
    ensures r.Valid() && cur <= cur' <= cur + 2 && counter < MAX_SYMBOLS && |r.Rest()| <= |old(r.Rest())|
    ensures var x := ReadItems(old(r.Rest()), old(out[..cur]), out.Length, lit, dist, q);
            if counter >= END_OF_BLOCK then |r.Rest()| < |old(r.Rest())| && x == AfterSymbol(counter, r.Rest(), out[..cur'], out.Length, lit, dist, q')
            else cur' == cur + 2 && x == ReadItems(r.Rest(), out[..cur'], out.Length, lit, dist, q')
  {
    hide Reader.Valid, Reader.Rest, Acceptable, Table.Filled, ReadItems, AfterSymbol;
    ghost var s := out[..cur];
    counter, q' := FastLiteral(r, t0, s, out.Length, lit, dist, q);
    cur' := cur;
    if counter >= 256 {
      return;
    }
    var sym2;
    sym2, q' := FastLiteral(r, t0, s + [counter], out.Length, lit, dist, q');
    out[cur] := counter;
    assert out[..cur + 1] == s + [counter];
    if sym2 >= 256 {
      return sym2, cur + 1, q';
    }
    out[cur + 1] := sym2;
    assert out[..cur + 2] == (s + [counter]) + [sym2];
    counter, cur' := sym2, cur + 2;
  }

  // The literal loop of tinfl_decompress up to the next symbol that is none.
  method ReadLiterals(r: Reader, t0: Table, out: array<byte>, cur: nat, ghost lit: seq<nat>, ghost dist: seq<nat>, ghost q: bool)
    returns (st: InflateStatus, counter: nat, cur': nat, ghost q': bool)
    requires r.Valid() && Acceptable(lit) && |lit| <= MAX_SYMBOLS && t0.Filled(lit, |lit|) && Apart(out, t0) && |dist| <= 32 && cur <= out.Length
    modifies r, out
    ensures r.Valid() && cur <= cur' <= out.Length
    ensures var x := ReadItems(old(r.Rest()), old(out[..cur]), out.Length, lit, dist, q);
            if st == InflateDone then
              END_OF_BLOCK <= counter < MAX_SYMBOLS && |r.Rest()| < |old(r.Rest())| && x == AfterSymbol(counter, r.Rest(), out[..cur'], out.Length, lit, dist, q')
            else Fails(x, st)
  {
    hide Reader.Valid, Reader.Rest, Acceptable, Table.Filled, ReadItems, AfterSymbol;
    counter, cur', q' := 0, cur, q;
    ghost var x := ReadItems(r.Rest(), out[..cur], out.Length, lit, dist, q);
    while true
      invariant r.Valid() && t0.Filled(lit, |lit|) && cur <= cur' <= out.Length && |r.Rest()| <= |old(r.Rest())|
      invariant x == ReadItems(r.Rest(), out[..cur'], out.Length, lit, dist, q')
      decreases out.Length - cur'
    {
      if |r.src| < r.pos + 4 || out.Length - cur' < 2 {
        var ok;
        ghost var s := out[..cur'];
        ok, counter, q' := NextLiteral(r, t0, s, out.Length, lit, dist, q');
        if !ok {
          return CannotMakeProgress, 0, cur', q';
        }
        if counter >= 256 {
          return InflateDone, counter, cur', q';
        }
        if cur' >= out.Length {
          return HasMoreOutput, 0, cur', q';
        }
        out[cur'] := counter;
        cur' := cur' + 1;
        assert out[..cur'] == s + [counter];
      } else {
        counter, cur', q' := TwoLiterals(r, t0, out, cur', lit, dist, q');
        if counter >= 256 {
          return InflateDone, counter, cur', q';
        }
      }
    }
  }

  // The block loop of tinfl_decompress over the bits of a compressed block.
  method InflateBlock(r: Reader, t0: Table, t1: Table, out: array<byte>, cur: nat, ghost lit: seq<nat>, ghost dist: seq<nat>)
    returns (st: InflateStatus, cur': nat)
    requires r.Valid() && Acceptable(lit) && |lit| <= MAX_SYMBOLS && t0.Filled(lit, |lit|) && Apart(out, t0)
    requires Acceptable(dist) && |dist| <= 32 && t1.Filled(dist, |dist|) && Apart(out, t1) && cur <= out.Length
    modifies r, out
    ensures r.Valid() && cur' <= out.Length
    ensures Says(ReadItems(old(r.Rest()), old(out[..cur]), out.Length, lit, dist, true), st, out[..cur'], r.Rest())
  {
    hide Reader.Valid, Reader.Rest, Acceptable, Table.Filled, ReadItems, NextCopy;
    st, cur' := InflateDone, cur;
    ghost var q := true;
    ghost var x := ReadItems(r.Rest(), out[..cur], out.Length, lit, dist, true);
    while true
      invariant r.Valid() && t0.Filled(lit, |lit|) && t1.Filled(dist, |dist|) && cur' <= out.Length
      invariant x == ReadItems(r.Rest(), out[..cur'], out.Length, lit, dist, q)
      decreases |r.Rest()|
    {
      var counter;
      st, counter, cur', q := ReadLiterals(r, t0, out, cur', lit, dist, q);
      if st != InflateDone || counter == 256 {
        break;
      }
      st, cur', q := ReadMatch(r, t1, counter, out, cur', lit, dist, q);
      if st != InflateDone {
        break;
      }
    }
  }

  // ----- What well-formed tokens are read as -----

  function ItemOf(t: Token): Item {
    match t case Literal(b) => Byte(b) case Match(len, dist) => Copy(len, dist)
  }

  lemma SymbolRead(cs: seq<nat>, i: nat, more: seq<bool>)
    requires Feasible(cs) && Used(cs, i)
    ensures var rest := Word(cs, i) + more; NextSymbol(cs, rest) == Symbol(i, cs[i], true) && |Word(cs, i)| == cs[i] && rest[cs[i]..] == more
  {
    WordLength(cs, i);
    hide Word, NextSymbol, Feasible;
    WordDecides(cs, i, Word(cs, i) + more);
  }

  lemma NumberRead(v: nat, n: nat, more: seq<bool>)
    ensures NextNumber(Lsb(v, n) + more, n) == Got(Low(v, n), more, true)
  {
    var rest := Lsb(v, n) + more;
    assert |Lsb(v, n)| == n && rest[..n] == Lsb(v, n) && rest[n..] == more;
    NumOfLsb(v, n);
  }

  lemma CopyRead(l: nat, e: nat, dist: seq<nat>, more: seq<bool>)
    requires l < 256 && e < 32768 && Feasible(dist) && |dist| <= 32 && Used(dist, DistSym(e))
    ensures LenSym(l) >= 257
    ensures NextCopy(Lsb(l, LenExtra(l)) + (Word(dist, DistSym(e)) + (Lsb(e, DistExtra(e)) + more)), LenSym(l), dist) == Got(Copy(l + 3, e + 1), more, true)
  {
    hide Lsb, Low, Word, Feasible, LenSym, LenExtra, DistSym, DistExtra, NextNumber, NextSymbol, LENGTH_EXTRA, LENGTH_BASE, DIST_EXTRA, DIST_BASE;
    ExtraLimits();
    LengthRoundTrip(l);
    DistanceRoundTrip(e);
    var rest2 := Lsb(e, DistExtra(e)) + more;
    NumberRead(l, LenExtra(l), Word(dist, DistSym(e)) + rest2);
    SymbolRead(dist, DistSym(e), rest2);
    NumberRead(e, DistExtra(e), more);
  }

  lemma TokenRead(t: Token, lit: seq<nat>, dist: seq<nat>, more: seq<bool>)
    requires Sayable(t, lit, dist) && Feasible(lit) && Feasible(dist) && |lit| <= MAX_SYMBOLS && |dist| <= 32
    ensures NextItem(TokenBits(t, lit, dist) + more, lit, dist) == Got(ItemOf(t), more, true)
  {
    hide Word, Feasible, NextSymbol, NextCopy, LenSym, LenExtra, DistSym, DistExtra, Lsb;
    match t
    case Literal(b) => SymbolRead(lit, b, more);
    case Match(len, d) =>
      var l, e := len - 3, d - 1;
      var rest1 := Lsb(l, LenExtra(l)) + (Word(dist, DistSym(e)) + (Lsb(e, DistExtra(e)) + more));
      CopyRead(l, e, dist, more);
      MatchRead(Word(lit, LenSym(l)) + rest1, lit, dist, LenSym(l), rest1);
      FourParts(Word(lit, LenSym(l)), Lsb(l, LenExtra(l)), Word(dist, DistSym(e)), Lsb(e, DistExtra(e)), more);
  }

  lemma MatchRead(rest: seq<bool>, lit: seq<nat>, dist: seq<nat>, sym: nat, rest1: seq<bool>)
    requires Feasible(lit) && |lit| <= MAX_SYMBOLS && |dist| <= 32 && Used(lit, sym) && sym >= 257 && rest == Word(lit, sym) + rest1
    requires NextCopy(rest1, sym, dist).Got?
    ensures var x := NextCopy(rest1, sym, dist); NextItem(rest, lit, dist) == Got(x.value, x.rest, x.proper)
  {
    hide Word, Feasible, NextSymbol, NextCopy;
    SymbolRead(lit, sym, rest1);
  }

  lemma FourParts(a: seq<bool>, b: seq<bool>, c: seq<bool>, d: seq<bool>, e: seq<bool>)
    ensures (((a + b) + c) + d) + e == a + (b + (c + (d + e)))
  {
  }

  // ----- What tokens the items come from -----

  lemma NumberFrom(rest: seq<bool>, n: nat)
    requires NextNumber(rest, n).Got?
    ensures var x := NextNumber(rest, n); rest == Lsb(x.value, n) + x.rest
  {
    hide Lsb;
  }

  lemma SymbolFrom(cs: seq<nat>, rest: seq<bool>)
    requires NextSymbol(cs, rest).Symbol? && NextSymbol(cs, rest).proper
    ensures var y := NextSymbol(cs, rest); Used(cs, y.sym) && y.len <= |rest| && rest == Word(cs, y.sym) + rest[y.len..]
  {
    hide Word, NextSymbol;
    var y := NextSymbol(cs, rest);
    assert NextWord(cs, y.sym, rest);
    WordLength(cs, y.sym);
  }

  // Extra bits of a symbol, as a number and as those of the length.
  lemma ExtraFrom(x: nat, v: nat, n: nat)
    requires v < Pow2(n) && Low(x, n) == v
    ensures Lsb(x, n) == Lsb(v, n)
  {
    NumOfLsb(x, n);
    NumOfLsb(v, n);
    LowOfSmall(v, n);
    NumInjective(Lsb(x, n), Lsb(v, n));
  }

  // Below the zero entries every symbol with extra bits is that of its distance.
  lemma DistanceBack(d: nat, f: nat)
    requires d < 32 && f < Pow2(DIST_EXTRA[d])
    ensures DIST_BASE[d] + f == 0 || (1 <= DIST_BASE[d] + f <= 32768 && DistSym(DIST_BASE[d] + f - 1) == d)
  {
    DistancePowers(d);
    hide Pow2;
    if d < 16 {
      SmallBack(d, f);
    } else if d < 30 {
      LargeBack(d, f);
    }
  }

  lemma DistancePowers(d: nat)
    requires d < 32
    ensures Pow2(DIST_EXTRA[d]) == if d < 4 || d >= 30 then 1 else if d < 6 then 2 else if d < 8 then 4 else if d < 10 then 8 else if d < 12 then 16
                                   else if d < 14 then 32 else if d < 16 then 64 else if d < 18 then 128 else if d < 20 then 256 else if d < 22 then 512
                                   else if d < 24 then 1024 else if d < 26 then 2048 else if d < 28 then 4096 else 8192
  {
    Pow2Values();
    Pow2Sum(8, 1);
    Pow2Sum(8, 2);
    Pow2Sum(8, 3);
    Pow2Sum(8, 4);
    Pow2Sum(8, 5);
    hide Pow2;
    assert d >= 4 && d < 30 ==> DIST_EXTRA[d] == d / 2 - 1;
  }

  lemma SmallBack(d: nat, f: nat)
    requires d < 16 && f < if d < 4 then 1 else if d < 6 then 2 else if d < 8 then 4 else if d < 10 then 8 else if d < 12 then 16 else if d < 14 then 32 else 64
    ensures 1 <= DIST_BASE[d] + f <= 256 && SmallDistSym(DIST_BASE[d] + f - 1) == d
  {
    if d < 8 {
    } else if d < 12 {
    } else {
    }
  }

  lemma LargeBack(d: nat, f: nat)
    requires 16 <= d < 30
    requires f < if d < 18 then 128 else if d < 20 then 256 else if d < 22 then 512 else if d < 24 then 1024 else if d < 26 then 2048 else if d < 28 then 4096 else 8192
    ensures 1 <= DIST_BASE[d] + f <= 32768 && DistSym(DIST_BASE[d] + f - 1) == d
  {
    var e := DIST_BASE[d] + f - 1;
    if d < 18 {
    } else if d < 22 {
      assert e / 256 == 2 || e / 256 == 3 || 4 <= e / 256 < 8;
    } else if d < 26 {
    } else {
    }
  }

  // The length symbols that are not the format's: the two it does not use, and the second way
  // to say 258.
  predicate OddLength(sym: nat, len: nat) {
    sym >= 286 || (sym == 284 && len == 258)
  }

  lemma LengthBack(sym: nat, e: nat)
    requires 257 <= sym < MAX_SYMBOLS && e < Pow2(LENGTH_EXTRA[sym - 257])
    ensures Canonical(sym, LENGTH_BASE[sym - 257] + e) <==> !OddLength(sym, LENGTH_BASE[sym - 257] + e)
  {
    LengthPowers(sym);
    hide Pow2;
    if sym < 273 {
      ShortBack(sym, e);
    } else if sym < 285 {
      LongBack(sym, e);
    }
  }

  lemma LengthPowers(sym: nat)
    requires 257 <= sym < MAX_SYMBOLS
    ensures Pow2(LENGTH_EXTRA[sym - 257]) == if sym < 265 || sym >= 285 then 1 else if sym < 269 then 2 else if sym < 273 then 4 else if sym < 277 then 8
                                             else if sym < 281 then 16 else 32
  {
    Pow2Values();
  }

  lemma ShortBack(sym: nat, e: nat)
    requires 257 <= sym < 273 && e < if sym < 265 then 1 else if sym < 269 then 2 else 4
    ensures Canonical(sym, LENGTH_BASE[sym - 257] + e)
  {
    if sym < 265 {
    } else if sym < 269 {
    } else {
    }
  }

  lemma LongBack(sym: nat, e: nat)
    requires 273 <= sym < 285 && e < if sym < 277 then 8 else if sym < 281 then 16 else 32
    ensures Canonical(sym, LENGTH_BASE[sym - 257] + e) <==> !(sym == 284 && e == 31)
    ensures LENGTH_BASE[sym - 257] + e == 258 <==> sym == 284 && e == 31
  {
    if sym < 277 {
    } else if sym < 281 {
    } else {
    }
  }

  // With complete codes, what is accepted outside the format are exactly those lengths.
  lemma OddItem(rest: seq<bool>, lit: seq<nat>, dist: seq<nat>)
    requires |lit| <= MAX_SYMBOLS && |dist| <= 32 && Lengths(lit) && Complete(lit) && Lengths(dist) && Complete(dist)
    requires NextItem(rest, lit, dist).Got?
    ensures !NextItem(rest, lit, dist).proper <==>
            NextItem(rest, lit, dist).value.Copy? && OddLength(NextSymbol(lit, rest).sym, NextItem(rest, lit, dist).value.len)
  {
    hide NextSymbol, Complete, Lengths, Canonical, OddLength, NextNumber, Pow2;
    CompleteIsProper(lit, rest);
    var y := NextSymbol(lit, rest);
    if y.sym > END_OF_BLOCK {
      OddCopy(rest[y.len..], y.sym, dist);
    }
  }

  lemma OddCopy(rest: seq<bool>, sym: nat, dist: seq<nat>)
    requires 257 <= sym < MAX_SYMBOLS && |dist| <= 32 && Lengths(dist) && Complete(dist) && NextCopy(rest, sym, dist).Got?
    ensures !NextCopy(rest, sym, dist).proper <==> OddLength(sym, NextCopy(rest, sym, dist).value.len)
  {
    hide NextSymbol, Complete, Lengths, Canonical, OddLength, NextNumber, Pow2;
    var x1 := NextNumber(rest, LENGTH_EXTRA[sym - 257]);
    LengthBack(sym, x1.value);
    CompleteIsProper(dist, x1.rest);
  }

  // A proper length and distance are those of a token.
  lemma CopyFrom(rest: seq<bool>, sym: nat, dist: seq<nat>)
    requires 257 <= sym < MAX_SYMBOLS && |dist| <= 32 && NextCopy(rest, sym, dist).Got? && NextCopy(rest, sym, dist).proper && NextCopy(rest, sym, dist).value.dist >= 1
    ensures var x := NextCopy(rest, sym, dist); var l, e := x.value.len - 3, x.value.dist - 1;
            0 <= l < 256 && 0 <= e < 32768 && sym == LenSym(l) && Used(dist, DistSym(e)) &&
            rest == Lsb(l, LenExtra(l)) + (Word(dist, DistSym(e)) + (Lsb(e, DistExtra(e)) + x.rest))
  {
    hide Lsb, Low, Word, LenSym, LenExtra, DistSym, DistExtra, NextNumber, NextSymbol, Pow2;
    var x := NextCopy(rest, sym, dist);
    var l, e := x.value.len - 3, x.value.dist - 1;
    var x1 := NextNumber(rest, LENGTH_EXTRA[sym - 257]);
    var y := NextSymbol(dist, x1.rest);
    var x2 := NextNumber(x1.rest[y.len..], DIST_EXTRA[y.sym]);
    NumberFrom(rest, LENGTH_EXTRA[sym - 257]);
    SymbolFrom(dist, x1.rest);
    NumberFrom(x1.rest[y.len..], DIST_EXTRA[y.sym]);
    DistanceBack(y.sym, x2.value);
    LengthRoundTrip(l);
    DistanceRoundTrip(e);
    ExtraFrom(l, x1.value, LENGTH_EXTRA[sym - 257]);
    ExtraFrom(e, x2.value, DIST_EXTRA[y.sym]);
  }

  lemma TokenFrom(rest: seq<bool>, lit: seq<nat>, dist: seq<nat>) returns (t: Token)
    requires |lit| <= MAX_SYMBOLS && |dist| <= 32 && NextItem(rest, lit, dist).Got? && NextItem(rest, lit, dist).proper
    requires !NextItem(rest, lit, dist).value.End? && (NextItem(rest, lit, dist).value.Copy? ==> NextItem(rest, lit, dist).value.dist >= 1)
    ensures Sayable(t, lit, dist) && ItemOf(t) == NextItem(rest, lit, dist).value && rest == TokenBits(t, lit, dist) + NextItem(rest, lit, dist).rest
  {
    hide Lsb, Word, LenSym, LenExtra, DistSym, DistExtra, NextSymbol, NextCopy;
    SymbolFrom(lit, rest);
    var y := NextSymbol(lit, rest);
    if y.sym < 256 {
      t := Literal(y.sym);
    } else {
      CopyFrom(rest[y.len..], y.sym, dist);
      var c := NextCopy(rest[y.len..], y.sym, dist);
      var l, e := c.value.len - 3, c.value.dist - 1;
      t := Match(c.value.len, c.value.dist);
      FourParts(Word(lit, LenSym(l)), Lsb(l, LenExtra(l)), Word(dist, DistSym(e)), Lsb(e, DistExtra(e)), c.rest);
    }
  }

  // ----- A whole block -----

  lemma {:induction false} ExpandCons(x: Text, t: Token, ts: seq<Token>)
    ensures Expand(x, [t] + ts) == Expand(Apply(x, t), ts)
    decreases |ts|
  {
    hide Apply;
    if ts == [] {
      assert [t] + ts == [t] && [t][..0] == [];
      assert Expand(x, [t]) == Apply(Expand(x, []), t);
    } else {
      assert ([t] + ts)[..|[t] + ts| - 1] == [t] + ts[..|ts| - 1];
      ExpandCons(x, t, ts[..|ts| - 1]);
    }
  }

  lemma {:induction false} BlockShift(t: Token, ts: seq<Token>, k: nat, lit: seq<nat>, dist: seq<nat>)
    requires AllSayable(ts, lit, dist) && AllSayable([t] + ts, lit, dist) && k <= |ts|
    ensures BlockBits([t] + ts, k + 1, lit, dist) == BlockBits(ts, k, lit, dist)
    decreases |ts| - k
  {
    hide TokenBits, Word;
    if k < |ts| {
      BlockShift(t, ts, k + 1, lit, dist);
    }
  }

  lemma BlockCons(t: Token, ts: seq<Token>, lit: seq<nat>, dist: seq<nat>)
    requires AllSayable(ts, lit, dist) && Sayable(t, lit, dist)
    ensures AllSayable([t] + ts, lit, dist) && BlockBits([t] + ts, 0, lit, dist) == TokenBits(t, lit, dist) + BlockBits(ts, 0, lit, dist)
  {
    hide TokenBits, Word, Sayable;
    BlockShift(t, ts, 0, lit, dist);
  }

  lemma GrownIs(t: Token, s: seq<byte>)
    requires TokenOk(t)
    ensures Apply(Text(s), t) == if Allowed(ItemOf(t), s) then Text(Grown(ItemOf(t), s)) else Bad
    ensures Size(ItemOf(t)) >= 1
  {
    hide CopyBack;
  }

  // Tokens are read back.
  lemma {:induction false} TokensRead(ts: seq<Token>, s: seq<byte>, room: nat, lit: seq<nat>, dist: seq<nat>, u: seq<byte>, more: seq<bool>, q: bool)
    requires AllSayable(ts, lit, dist) && Feasible(lit) && Feasible(dist) && |lit| <= MAX_SYMBOLS && |dist| <= 32
    requires |s| <= room && Expand(Text(s), ts) == Text(u) && |u| <= room
    ensures ReadItems(BlockBits(ts, 0, lit, dist) + more, s, room, lit, dist, q) == Got(u, more, q)
    decreases |ts|
  {
    hide Feasible, NextSymbol, NextCopy, Word, TokenBits, Apply, Grown, Sayable;
    if ts == [] {
      hide ReadItems, BlockBits;
      NothingRead(s, room, lit, dist, more, q);
    } else {
      var t, us := ts[0], ts[1..];
      assert ts == [t] + us;
      hide ReadItems, BlockBits, NextItem;
      BlockCons(t, us, lit, dist);
      TokenRead(t, lit, dist, BlockBits(us, 0, lit, dist) + more);
      assert (TokenBits(t, lit, dist) + BlockBits(us, 0, lit, dist)) + more == TokenBits(t, lit, dist) + (BlockBits(us, 0, lit, dist) + more);
      ExpandCons(Text(s), t, us);
      ExpandLength(Apply(Text(s), t), us);
      SayableOk(t, lit, dist);
      GrownIs(t, s);
      ItemStep(BlockBits(ts, 0, lit, dist) + more, s, room, lit, dist, q);
      TokensRead(us, Grown(ItemOf(t), s), room, lit, dist, u, more, q);
    }
  }

  lemma SayableOk(t: Token, lit: seq<nat>, dist: seq<nat>)
    requires Sayable(t, lit, dist)
    ensures TokenOk(t)
  {
  }

  lemma NothingRead(s: seq<byte>, room: nat, lit: seq<nat>, dist: seq<nat>, more: seq<bool>, q: bool)
    requires AllSayable([], lit, dist) && Feasible(lit) && |lit| <= MAX_SYMBOLS && |dist| <= 32 && |s| <= room
    ensures ReadItems(BlockBits([], 0, lit, dist) + more, s, room, lit, dist, q) == Got(s, more, q)
  {
    hide Feasible, NextSymbol, NextCopy, Word;
    SymbolRead(lit, END_OF_BLOCK, more);
  }

  // Whether everything before was proper makes no other difference.
  lemma {:induction false} OddOrNot(rest: seq<bool>, s: seq<byte>, room: nat, lit: seq<nat>, dist: seq<nat>, q: bool)
    requires |lit| <= MAX_SYMBOLS && |dist| <= 32 && |s| <= room
    ensures var x, y := ReadItems(rest, s, room, lit, dist, true), ReadItems(rest, s, room, lit, dist, q);
            if x.Got? then y == Got(x.value, x.rest, x.proper && q) else x == y
    decreases |rest|, room - |s|
  {
    hide NextItem, Grown, ReadItems;
    if NextItem(rest, lit, dist).Got? {
      ItemStep(rest, s, room, lit, dist, true);
      ItemStep(rest, s, room, lit, dist, q);
      var x := NextItem(rest, lit, dist);
      if !x.value.End? && Allowed(x.value, s) && |s| + Size(x.value) <= room {
        OddOrNot(x.rest, Grown(x.value, s), room, lit, dist, x.proper);
        OddOrNot(x.rest, Grown(x.value, s), room, lit, dist, q && x.proper);
      }
    } else {
      NothingThere(rest, s, room, lit, dist, true);
      NothingThere(rest, s, room, lit, dist, q);
    }
  }

  lemma NothingThere(rest: seq<bool>, s: seq<byte>, room: nat, lit: seq<nat>, dist: seq<nat>, q: bool)
    requires |lit| <= MAX_SYMBOLS && |dist| <= 32 && |s| <= room && !NextItem(rest, lit, dist).Got?
    ensures ReadItems(rest, s, room, lit, dist, q) == Starved
  {
    hide NextItem;
  }

  // One turn.
  lemma ItemStep(rest: seq<bool>, s: seq<byte>, room: nat, lit: seq<nat>, dist: seq<nat>, q: bool)
    requires |lit| <= MAX_SYMBOLS && |dist| <= 32 && |s| <= room && NextItem(rest, lit, dist).Got?
    ensures var x, y := NextItem(rest, lit, dist), ReadItems(rest, s, room, lit, dist, q);
            if x.value.End? then y == Got(s, x.rest, q && x.proper)
            else if !Allowed(x.value, s) then y == Corrupt
            else if |s| + Size(x.value) > room then y == Full
            else y == ReadItems(x.rest, Grown(x.value, s), room, lit, dist, q && x.proper)
  {
    hide NextItem, Grown, Allowed;
  }

  // Whatever is read properly are tokens.
  lemma {:induction false} TokensFrom(rest: seq<bool>, s: seq<byte>, room: nat, lit: seq<nat>, dist: seq<nat>, q: bool) returns (ts: seq<Token>)
    requires |lit| <= MAX_SYMBOLS && |dist| <= 32 && |s| <= room && ReadItems(rest, s, room, lit, dist, q).Got? && ReadItems(rest, s, room, lit, dist, q).proper
    ensures var x := ReadItems(rest, s, room, lit, dist, q);
            q && AllSayable(ts, lit, dist) && rest == BlockBits(ts, 0, lit, dist) + x.rest && Expand(Text(s), ts) == Text(x.value)
    decreases |rest|, room - |s|
  {
    hide NextItem, Grown, Apply, BlockBits, TokenBits, Expand, ItemOf;
    ghost var x, y := ReadItems(rest, s, room, lit, dist, q), NextItem(rest, lit, dist);
    ItemStep(rest, s, room, lit, dist, q);
    if y.value.End? {
      ts := [];
      EndFrom(rest, s, lit, dist);
    } else {
      var us := TokensFrom(y.rest, Grown(y.value, s), room, lit, dist, q && y.proper);
      var t := TokenFrom(rest, lit, dist);
      ts := [t] + us;
      BlockCons(t, us, lit, dist);
      assert TokenBits(t, lit, dist) + (BlockBits(us, 0, lit, dist) + x.rest) == (TokenBits(t, lit, dist) + BlockBits(us, 0, lit, dist)) + x.rest;
      SayableOk(t, lit, dist);
      GrownIs(t, s);
      ExpandCons(Text(s), t, us);
    }
  }

  lemma EndFrom(rest: seq<bool>, s: seq<byte>, lit: seq<nat>, dist: seq<nat>)
    requires |lit| <= MAX_SYMBOLS && |dist| <= 32 && NextItem(rest, lit, dist).Got? && NextItem(rest, lit, dist).proper && NextItem(rest, lit, dist).value.End?
    ensures AllSayable([], lit, dist) && rest == BlockBits([], 0, lit, dist) + NextItem(rest, lit, dist).rest && Expand(Text(s), []) == Text(s)
  {
    hide NextSymbol, NextCopy, Word;
    SymbolFrom(lit, rest);
  }

  // The bits are a block of tokens that make s into u, with more behind it.
  ghost predicate BlockMeans(ts: seq<Token>, rest: seq<bool>, s: seq<byte>, lit: seq<nat>, dist: seq<nat>, u: seq<byte>, more: seq<bool>) {
    AllSayable(ts, lit, dist) && rest == BlockBits(ts, 0, lit, dist) + more && Expand(Text(s), ts) == Text(u)
  }

  // The decompressor finishes properly with u exactly if the bits are a block that means u.
  lemma TokensMeaning(rest: seq<bool>, s: seq<byte>, room: nat, lit: seq<nat>, dist: seq<nat>, u: seq<byte>, more: seq<bool>)
    requires Acceptable(lit) && Acceptable(dist) && |lit| <= MAX_SYMBOLS && |dist| <= 32 && |s| <= room
    ensures ReadItems(rest, s, room, lit, dist, true) == Got(u, more, true) <==> |u| <= room && exists ts :: BlockMeans(ts, rest, s, lit, dist, u, more)
  {
    hide Acceptable, Feasible, AllSayable, ReadItems, Expand, BlockBits;
    AcceptableIsFeasible(lit);
    AcceptableIsFeasible(dist);
    if ts :| BlockMeans(ts, rest, s, lit, dist, u, more) && |u| <= room {
      TokensRead(ts, s, room, lit, dist, u, more, true);
    }
    if ReadItems(rest, s, room, lit, dist, true) == Got(u, more, true) {
      var ts := TokensFrom(rest, s, room, lit, dist, true);
      assert BlockMeans(ts, rest, s, lit, dist, u, more);
    }
  }
}
