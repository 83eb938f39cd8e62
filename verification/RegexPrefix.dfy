// The literal-prefix shortcut of re_match: skipping to the first occurrence of
// the pattern's leading literals does not change the answer.

module RegexPrefix {
  import opened Ints
  import opened RegexSpec
  import opened RegexMachine
  import opened RegexMeaning
  import opened RegexProgram
  import opened RegexMatch
  import opened Utf8

  // ----- bytes and characters ---------------------------------------------------------------

  predicate Encodable(xs: seq<int>) {
    forall k :: 0 <= k < |xs| ==> 0 <= xs[k] <= 0x10ffff
  }

  predicate NoZero(z: seq<byte>) {
    forall k :: 0 <= k < |z| ==> z[k] != 0
  }

  predicate OccursAt(xs: seq<int>, s: seq<int>, q: nat) {
    q + |xs| <= |s| && s[q..q + |xs|] == xs
  }

  predicate BytesAt(e: seq<byte>, z: seq<byte>, p: nat) {
    p + |e| <= |z| && z[p..p + |e|] == e
  }

  lemma BytesAtSplit(a: seq<byte>, b: seq<byte>, z: seq<byte>, p: nat)
    ensures BytesAt(a + b, z, p) <==> BytesAt(a, z, p) && BytesAt(b, z, p + |a|)
  {
    if BytesAt(a + b, z, p) {
      assert z[p..p + |a|] == z[p..p + |a + b|][..|a|] == a;
      assert z[p + |a|..p + |a| + |b|] == z[p..p + |a + b|][|a|..] == b;
    }
    if BytesAt(a, z, p) && BytesAt(b, z, p + |a|) {
      assert z[p..p + |a + b|] == z[p..p + |a|] + z[p + |a|..p + |a| + |b|];
    }
  }

  // The decoder consumes only trail bytes after the first byte of a character.
  lemma TrailsFollow(z: seq<byte>, i: nat, p: nat)
    requires i < |z| && i < p < NextChar(z, i).1
    ensures IsTrail(z[p])
  {
  }

  lemma Forward(z: seq<byte>, i: nat)
    requires i < |z|
    ensures i < NextChar(z, i).1 <= |z|
  {
  }

  // So every other byte starts a character, and what is read from it on is the rest of
  // what is read from the start.
  lemma {:induction false} LeadIsBoundary(z: seq<byte>, i: nat, p: nat) returns (d: nat)
    requires i <= p < |z| && !IsTrail(z[p])
    ensures d <= |DecodeFrom(z, i)| && DecodeFrom(z, p) == DecodeFrom(z, i)[d..] && Passed(z, i, d) == p
    decreases |z| - i
  {
    hide NextChar;
    if i == p {
      d := 0;
    } else {
      Forward(z, i);
      if p < NextChar(z, i).1 {
        TrailsFollow(z, i, p);
      }
      d := LeadIsBoundary(z, NextChar(z, i).1, p);
      d := d + 1;
    }
  }

  // The position after n characters.
  function Passed(z: seq<byte>, i: nat, n: nat): (p: nat)
    requires i <= |z| && n <= |DecodeFrom(z, i)|
    ensures i <= p <= |z| && (n > 0 ==> i < p) && DecodeFrom(z, p) == DecodeFrom(z, i)[n..]
    decreases n
  {
    if n == 0 then i else Passed(z, NextChar(z, i).1, n - 1)
  }

  lemma {:induction false} PassedMonotone(z: seq<byte>, i: nat, m: nat, n: nat)
    requires i <= |z| && m < n <= |DecodeFrom(z, i)|
    ensures Passed(z, i, m) < Passed(z, i, n)
    decreases m
  {
    if m > 0 {
      PassedMonotone(z, NextChar(z, i).1, m - 1, n - 1);
    }
  }

  lemma TwoBytesOf(c: int, t: int)
    requires 0xc0 <= c < 0xe0 && 0x80 <= t < 0xc0 && c % 32 * 64 + t % 64 >= 0x80
    ensures var v := c % 32 * 64 + t % 64; 0x7f < v <= 0x7ff && c == 0xc0 + v / 64 && t == 0x80 + v % 64
  {
  }

  lemma ThreeBytesOf(c: int, t: int, u: int)
    requires 0xe0 <= c < 0xf0 && 0x80 <= t < 0xc0 && 0x80 <= u < 0xc0
    ensures var v := c % 16 * 4096 + t % 64 * 64 + u % 64;
            v <= 0xffff && c == 0xe0 + v / 4096 && t == 0x80 + v / 64 % 64 && u == 0x80 + v % 64
  {
    Parts(c % 16 * 64 + t % 64, u % 64);
    Parts(c % 16, t % 64);
    Quarters(c % 16 * 4096 + t % 64 * 64 + u % 64);
  }

  lemma Parts(a: nat, b: nat)
    requires b < 64
    ensures (a * 64 + b) / 64 == a && (a * 64 + b) % 64 == b
  {
  }

  lemma Quarters(v: nat)
    ensures v / 4096 == v / 64 / 64 && v / 262144 == v / 64 / 64 / 64
  {
  }

  lemma FourBytesOf(c: int, t: int, u: int, w: int)
    requires 0xf0 <= c < 0xf8 && 0x80 <= t < 0xc0 && 0x80 <= u < 0xc0 && 0x80 <= w < 0xc0
    ensures var v := c % 8 * 262144 + t % 64 * 4096 + u % 64 * 64 + w % 64;
            c == 0xf0 + v / 262144 && t == 0x80 + v / 4096 % 64 && u == 0x80 + v / 64 % 64 && w == 0x80 + v % 64
  {
    Parts(c % 8 * 4096 + t % 64 * 64 + u % 64, w % 64);
    Parts(c % 8 * 64 + t % 64, u % 64);
    Parts(c % 8, t % 64);
    Quarters(c % 8 * 262144 + t % 64 * 4096 + u % 64 * 64 + w % 64);
  }

  // A character other than U+FFFD was read from exactly its encoding.
  lemma ReadIsEncoded(z: seq<byte>, i: nat)
    requires i < |z| && NoZero(z) && NextChar(z, i).0 != REPLACEMENT
    ensures var c := NextChar(z, i).0; IsScalar(c) && BytesAt(Encode1(c), z, i) && NextChar(z, i).1 == i + |Encode1(c)|
  {
    var c: int := z[i];
    var n := NextChar(z, i).1 - i;
    if n == 1 {
      assert z[i..i + 1] == [z[i]];
    } else if n == 2 {
      TwoBytesOf(c, z[i + 1]);
      assert z[i..i + 2] == [z[i], z[i + 1]];
    } else if n == 3 {
      ThreeBytesOf(c, z[i + 1], z[i + 2]);
      assert z[i..i + 3] == [z[i], z[i + 1], z[i + 2]];
    } else {
      FourBytesOf(c, z[i + 1], z[i + 2], z[i + 3]);
      assert z[i..i + 4] == [z[i], z[i + 1], z[i + 2], z[i + 3]];
    }
  }

  ghost predicate ValidUtf8(z: seq<byte>) {
    exists s: seq<int> :: AllScalar(s) && z == Encode(s)
  }

  // Every U+FFFD that is read from i on is there in the text.
  ghost predicate Proper(z: seq<byte>, i: nat)
    requires i <= |z|
    decreases |z| - i
  {
    i == |z| || ((NextChar(z, i).0 == REPLACEMENT ==> BytesAt(Encode1(REPLACEMENT), z, i) && NextChar(z, i).1 == i + 3) && Proper(z, NextChar(z, i).1))
  }

  lemma ThreeLong()
    ensures |Encode1(REPLACEMENT)| == 3
  {
  }

  lemma {:induction false} EncodedIsProper(s: seq<int>, z: seq<byte>, i: nat)
    requires AllScalar(s) && i <= |z| && z[i..] == Encode(s)
    ensures Proper(z, i)
    decreases |s|
  {
    hide NextChar, Encode1;
    ThreeLong();
    if s != [] {
      var e := Encode1(s[0]);
      assert z[i..][..|e|] == e;
      assert z[i..i + |e|] == z[i..][..|e|];
      NextCharOfEncoded(s[0], z, i);
      assert z[i + |e|..] == z[i..][|e|..] == Encode(s[1..]);
      EncodedIsProper(s[1..], z, i + |e|);
    }
  }

  lemma {:induction false} ProperOn(z: seq<byte>, i: nat, n: nat)
    requires i <= |z| && n <= |DecodeFrom(z, i)| && Proper(z, i)
    ensures Proper(z, Passed(z, i, n))
    decreases n
  {
    if n > 0 {
      ProperOn(z, NextChar(z, i).1, n - 1);
    }
  }

  // Literals that were read are there as bytes, unless a U+FFFD among them stands for
  // something malformed.
  lemma {:induction false} LiteralsAreBytes(xs: seq<int>, z: seq<byte>, i: nat)
    requires Encodable(xs) && i <= |z| && NoZero(z) && (REPLACEMENT !in xs || Proper(z, i)) && OccursAt(xs, DecodeFrom(z, i), 0)
    ensures BytesAt(Encode(xs), z, i)
    decreases |xs|
  {
    hide Encode1, NextChar;
    if xs != [] {
      var s := DecodeFrom(z, i);
      assert s[0] == s[0..|xs|][0] == xs[0];
      if xs[0] != REPLACEMENT {
        ReadIsEncoded(z, i);
      } else {
        ThreeLong();
      }
      assert s[1..][0..|xs| - 1] == s[0..|xs|][1..];
      LiteralsAreBytes(xs[1..], z, NextChar(z, i).1);
      BytesAtSplit(Encode1(xs[0]), Encode(xs[1..]), z, i);
    }
  }

  // ----- programs that start with .* and literals --------------------------------------------

  // The code starts with ANYSTAR and MATCH xs[0], MATCH xs[1], ...; an end-of-input
  // among them is followed by yet another MATCH.
  predicate StartsWith(code: seq<Inst>, xs: seq<int>) {
    1 + |xs| < |code| && code[0].op.ANYSTAR? &&
    (forall k :: 0 <= k < |xs| ==> code[1 + k] == Inst(MATCH, xs[k])) &&
    (forall k :: 0 <= k < |xs| && xs[k] == EOF_CHAR ==> code[2 + k].op.MATCH?)
  }

  // The literals stand at position q of the text.
  ghost predicate LiteralAt(xs: seq<int>, t: Text, q: nat) {
    q + |xs| <= |t.s| + 1 && forall k :: 0 <= k < |xs| ==> t.Char(q + k) == xs[k]
  }

  lemma {:induction false} ThroughLiterals(code: seq<Inst>, xs: seq<int>, t: Text, n: nat, i: nat, q: nat)
    requires StartsWith(code, xs) && i <= |xs| && q <= |t.s| + 1 && Accepts(code, t, n, 1 + i, q)
    ensures LiteralAt(xs[i..], t, q) && Accepting(code, t, 1 + |xs|, q + |xs| - i)
    decreases |xs| - i
  {
    if i < |xs| {
      assert code[1 + i] == Inst(MATCH, xs[i]);
      ThroughLiterals(code, xs, t, n - 1, i + 1, q + 1);
      assert xs[i..] == [xs[i]] + xs[i + 1..];
      forall k | 0 <= k < |xs[i..]| ensures t.Char(q + k) == xs[i..][k] {
        if k > 0 { assert t.Char(q + 1 + (k - 1)) == xs[i + 1..][k - 1]; }
      }
    }
  }

  lemma {:induction false} AlongLiterals(code: seq<Inst>, xs: seq<int>, t: Text, i: nat, q: nat)
    requires StartsWith(code, xs) && i <= |xs| && LiteralAt(xs, t, q)
    requires Accepting(code, t, 1 + |xs|, q + |xs|)
    ensures Accepting(code, t, 1 + i, q + i)
    decreases |xs| - i
  {
    if i < |xs| {
      AlongLiterals(code, xs, t, i + 1, q);
      var n: nat :| Accepts(code, t, n, 2 + i, q + i + 1);
      assert code[1 + i] == Inst(MATCH, xs[i]) && t.Char(q + i) == xs[i];
      assert Accepts(code, t, n + 1, 1 + i, q + i);
    }
  }

  lemma {:induction false} LeaveAnyStar(code: seq<Inst>, t: Text, n: nat, i: nat) returns (q: nat)
    requires 0 < |code| && code[0].op.ANYSTAR? && Accepts(code, t, n, 0, i)
    ensures i <= q <= |t.s| && Accepting(code, t, 1, q)
  {
    if Accepts(code, t, n - 1, 1, i) {
      q := i;
    } else {
      q := LeaveAnyStar(code, t, n - 1, i + 1);
    }
  }

  lemma {:induction false} ReachByAnyStar(code: seq<Inst>, t: Text, i: nat, q: nat)
    requires 0 < |code| && code[0].op.ANYSTAR? && i <= q <= |t.s| && Accepting(code, t, 1, q)
    ensures Accepting(code, t, 0, i)
    decreases q - i
  {
    if i == q {
      var n: nat :| Accepts(code, t, n, 1, q);
      assert Accepts(code, t, n + 1, 0, i);
    } else {
      ReachByAnyStar(code, t, i + 1, q);
      var n: nat :| Accepts(code, t, n, 0, i + 1);
      assert Accepts(code, t, n + 1, 0, i);
    }
  }

  // After the end of the input a MATCH is a dead end.
  lemma EndAmongLiterals(code: seq<Inst>, xs: seq<int>, t: Text, q: nat)
    requires StartsWith(code, xs) && LiteralAt(xs, t, q) && xs != [] && q + |xs| == |t.s| + 1
    ensures !Accepting(code, t, 1 + |xs|, q + |xs|)
  {
    var k := |xs| - 1;
    assert t.Char(q + k) == EOF_CHAR == xs[k];
    assert code[2 + k].op.MATCH?;
  }

  lemma LiteralIsText(code: seq<Inst>, xs: seq<int>, t: Text, q: nat)
    requires StartsWith(code, xs) && NoNul(t.s) && LiteralAt(xs, t, q) && q <= |t.s|
    requires Accepting(code, t, 1 + |xs|, q + |xs|)
    ensures OccursAt(xs, t.s, q)
  {
    if q + |xs| > |t.s| {
      EndAmongLiterals(code, xs, t, q);
    }
    forall k | 0 <= k < |xs| ensures t.s[q + k] == xs[k] {
      assert t.Char(q + k) == xs[k];
    }
    assert t.s[q..q + |xs|] == xs;
  }

  // Acceptance is acceptance after some occurrence of the literals.
  lemma AcceptsAfterLiterals(code: seq<Inst>, xs: seq<int>, t: Text) returns (q: nat)
    requires StartsWith(code, xs) && NoNul(t.s) && Accepting(code, t, 0, 0)
    ensures OccursAt(xs, t.s, q) && Accepting(code, t, 1 + |xs|, q + |xs|)
  {
    var n: nat :| Accepts(code, t, n, 0, 0);
    q := LeaveAnyStar(code, t, n, 0);
    var m: nat :| Accepts(code, t, m, 1, q);
    ThroughLiterals(code, xs, t, m, 0, q);
    assert xs[0..] == xs;
    LiteralIsText(code, xs, t, q);
  }

  lemma AcceptsFromLiterals(code: seq<Inst>, xs: seq<int>, t: Text, q: nat)
    requires StartsWith(code, xs) && OccursAt(xs, t.s, q) && Accepting(code, t, 1 + |xs|, q + |xs|)
    ensures Accepting(code, t, 0, 0)
  {
    forall k | 0 <= k < |xs| ensures t.Char(q + k) == xs[k] {
      assert t.s[q..q + |xs|][k] == t.s[q + k];
    }
    AlongLiterals(code, xs, t, 0, q);
    ReachByAnyStar(code, t, 0, q);
  }

  // Past its first character, a run sees nothing of what precedes the text.
  lemma {:induction false} Shift(code: seq<Inst>, t: Text, v: Text, d: nat, n: nat, pc: int, pos: nat)
    requires d <= |t.s| && v.s == t.s[d..] && pos >= 1
    ensures Accepts(code, t, n, pc, d + pos) <==> Accepts(code, v, n, pc, pos)
    decreases n
  {
    assert t.Live(d + pos) <==> v.Live(pos);
    if 0 <= pc < |code| && n > 0 {
      var inst := code[pc];
      Shift(code, t, v, d, n - 1, pc + inst.arg, pos);
      Shift(code, t, v, d, n - 1, pc + 1, pos);
      if v.Live(pos) {
        assert t.Char(d + pos) == v.Char(pos);
        assert t.Previous(d + pos) == v.Previous(pos);
        Shift(code, t, v, d, n - 1, pc, pos + 1);
        Shift(code, t, v, d, n - 1, pc + inst.arg, pos + 1);
        Shift(code, t, v, d, n - 1, pc + 1, pos + 1);
      }
    }
  }

  lemma ShiftAccepting(code: seq<Inst>, t: Text, v: Text, d: nat, pc: int, pos: nat)
    requires d <= |t.s| && v.s == t.s[d..] && pos >= 1
    ensures Accepting(code, t, pc, d + pos) <==> Accepting(code, v, pc, pos)
  {
    if Accepting(code, t, pc, d + pos) {
      var n: nat :| Accepts(code, t, n, pc, d + pos);
      Shift(code, t, v, d, n, pc, pos);
    }
    if Accepting(code, v, pc, pos) {
      var n: nat :| Accepts(code, v, n, pc, pos);
      Shift(code, t, v, d, n, pc, pos);
    }
  }

  lemma OccursShift(xs: seq<int>, s: seq<int>, d: nat, q: nat)
    requires d <= |s|
    ensures OccursAt(xs, s, d + q) <==> OccursAt(xs, s[d..], q)
  {
    if d + q + |xs| <= |s| {
      assert s[d..][q..q + |xs|] == s[d + q..d + q + |xs|];
    }
  }

  // The first occurrence of some bytes.
  ghost predicate FirstAt(e: seq<byte>, z: seq<byte>, p: nat) {
    BytesAt(e, z, p) && forall p': nat :: p' < p ==> !BytesAt(e, z, p')
  }

  // The answer without a prefix, and with one: the text before the first occurrence is
  // left out and with it the mark of the start.
  ghost predicate Answer(code: seq<Inst>, z: seq<byte>) {
    Accepting(code, Text(START_CHAR, DecodeFrom(z, 0)), 0, 0)
  }

  ghost predicate AnswerFrom(code: seq<Inst>, z: seq<byte>, p: nat) {
    p <= |z| && Accepting(code, Text(START_CHAR - 1, DecodeFrom(z, p)), 0, 0)
  }

  ghost predicate Skipped(code: seq<Inst>, zInit: seq<byte>, z: seq<byte>) {
    exists p: nat :: FirstAt(zInit, z, p) && AnswerFrom(code, z, p)
  }

  lemma FirstByteLeads(xs: seq<int>, z: seq<byte>, p: nat)
    requires Encodable(xs) && xs != [] && BytesAt(Encode(xs), z, p)
    ensures p < |z| && !IsTrail(z[p])
  {
    var e := Encode(xs);
    assert e[0] == Encode1(xs[0])[0];
    assert z[p..p + |e|][0] == z[p];
  }

  // Accepted literals are there as bytes, at a character that is not before their first occurrence.
  lemma AcceptedIsThere(code: seq<Inst>, xs: seq<int>, z: seq<byte>) returns (q: nat)
    requires StartsWith(code, xs) && xs != [] && Encodable(xs) && NoZero(z) && (REPLACEMENT !in xs || Proper(z, 0)) && Answer(code, z)
    ensures OccursAt(xs, DecodeFrom(z, 0), q) && Accepting(code, Text(START_CHAR, DecodeFrom(z, 0)), 1 + |xs|, q + |xs|)
    ensures q <= |DecodeFrom(z, 0)| && BytesAt(Encode(xs), z, Passed(z, 0, q))
  {
    hide Accepting, StartsWith, NextChar, Encode1;
    var s := DecodeFrom(z, 0);
    q := AcceptsAfterLiterals(code, xs, Text(START_CHAR, s));
    OccursShift(xs, s, q, 0);
    if REPLACEMENT in xs {
      ProperOn(z, 0, q);
    }
    LiteralsAreBytes(xs, z, Passed(z, 0, q));
  }

  // The skip is invisible on every text, valid or not, if no literal is U+FFFD, and on
  // valid UTF-8 in any case.
  lemma SkipInvisible(code: seq<Inst>, xs: seq<int>, z: seq<byte>)
    requires StartsWith(code, xs) && xs != [] && Encodable(xs) && NoZero(z) && (REPLACEMENT !in xs || ValidUtf8(z))
    ensures Answer(code, z) <==> Skipped(code, Encode(xs), z)
  {
    hide Accepting, StartsWith, NextChar, Encode1, Encode, OccursAt, BytesAt;
    if REPLACEMENT in xs {
      ValidIsProper(z);
    }
    var s := DecodeFrom(z, 0);
    if Answer(code, z) {
      var q := AcceptedIsThere(code, xs, z);
      var p := FirstOf(Encode(xs), z, Passed(z, 0, q));
      FirstByteLeads(xs, z, p);
      var d := LeadIsBoundary(z, 0, p);
      if q < d {
        PassedMonotone(z, 0, q, d);
      }
      OccursShift(xs, s, d, q - d);
      ShiftAccepting(code, Text(START_CHAR, s), Text(START_CHAR - 1, s[d..]), d, 1 + |xs|, q - d + |xs|);
      AcceptsFromLiterals(code, xs, Text(START_CHAR - 1, s[d..]), q - d);
      assert AnswerFrom(code, z, p);
    }
    if Skipped(code, Encode(xs), z) {
      SkippedIsAnswer(code, xs, z);
    }
  }

  lemma SkippedIsAnswer(code: seq<Inst>, xs: seq<int>, z: seq<byte>)
    requires StartsWith(code, xs) && xs != [] && Encodable(xs) && NoZero(z) && Skipped(code, Encode(xs), z)
    ensures Answer(code, z)
  {
    hide Accepting, StartsWith, NextChar, Encode1, Encode, OccursAt, BytesAt;
    var s := DecodeFrom(z, 0);
    var p: nat :| FirstAt(Encode(xs), z, p) && AnswerFrom(code, z, p);
    FirstByteLeads(xs, z, p);
    var d := LeadIsBoundary(z, 0, p);
    var q := AcceptsAfterLiterals(code, xs, Text(START_CHAR - 1, s[d..]));
    OccursShift(xs, s, d, q);
    ShiftAccepting(code, Text(START_CHAR, s), Text(START_CHAR - 1, s[d..]), d, 1 + |xs|, q + |xs|);
    AcceptsFromLiterals(code, xs, Text(START_CHAR, s), d + q);
  }

  lemma ValidIsProper(z: seq<byte>)
    requires ValidUtf8(z)
    ensures Proper(z, 0)
  {
    var s :| AllScalar(s) && z == Encode(s);
    assert z[0..] == z;
    EncodedIsProper(s, z, 0);
  }

  lemma {:induction false} FirstOf(e: seq<byte>, z: seq<byte>, q: nat) returns (p: nat)
    requires BytesAt(e, z, q)
    ensures p <= q && FirstAt(e, z, p)
    decreases q
  {
    hide BytesAt;
    if q': nat :| q' < q && BytesAt(e, z, q') {
      p := FirstOf(e, z, q');
    } else {
      p := q;
    }
  }

  // ----- where the skip does show ---------------------------------------------------------------

  // The same characters, with a malformed byte for every U+FFFD.
  function Masked(s: seq<int>): seq<byte>
    requires AllScalar(s)
  {
    if s == [] then [] else MaskedOne(s[0]) + Masked(s[1..])
  }

  function MaskedOne(c: int): (e: seq<byte>)
    requires IsScalar(c)
    ensures e != [] && !IsTrail(e[0]) && (forall k :: 1 <= k < |e| ==> IsTrail(e[k])) && NoZero(e)
  {
    if c == REPLACEMENT then [0xff] else Encode1(c)
  }

  lemma Masks(c: int)
    requires IsScalar(c)
    ensures MaskedOne(c) != []
  {
  }

  lemma MaskedReads(c: int, z: seq<byte>, i: nat)
    requires IsScalar(c) && BytesAt(MaskedOne(c), z, i)
    ensures NextChar(z, i) == (c, i + |MaskedOne(c)|)
  {
    var e := MaskedOne(c);
    if c == REPLACEMENT {
      assert z[i] == z[i..i + |e|][0] == 0xff;
    } else {
      hide NextChar;
      NextCharOfEncoded(c, z, i);
    }
  }

  lemma {:induction false} DecodeMasked(s: seq<int>, z: seq<byte>, i: nat)
    requires AllScalar(s) && i <= |z| && z[i..] == Masked(s)
    ensures DecodeFrom(z, i) == s
    decreases |s|
  {
    hide NextChar, MaskedOne;
    if s != [] {
      var e := MaskedOne(s[0]);
      assert z[i..][..|e|] == e && e != [] by { Masks(s[0]); }
      assert z[i..i + |e|] == z[i..][..|e|];
      MaskedReads(s[0], z, i);
      assert z[i + |e|..] == z[i..][|e|..] == Masked(s[1..]);
      DecodeMasked(s[1..], z, i + |e|);
    }
  }

  lemma {:induction false} MaskedNoNul(s: seq<int>)
    requires AllScalar(s)
    ensures NoZero(Masked(s))
  {
    if s != [] {
      MaskedNoNul(s[1..]);
    }
  }

  // The bytes of U+FFFD are nowhere in it.
  lemma {:induction false} NotInMasked(s: seq<int>, z: seq<byte>, p: nat)
    requires AllScalar(s) && z == Masked(s)
    ensures !BytesAt(Encode1(REPLACEMENT), z, p)
    decreases |s|
  {
    var r := Encode1(REPLACEMENT);
    if s != [] && BytesAt(r, z, p) {
      var e, rest := MaskedOne(s[0]), Masked(s[1..]);
      assert z[p] == z[p..p + |r|][0] == r[0];
      if p >= |e| {
        assert rest[p - |e|..p - |e| + |r|] == z[p..p + |r|];
        NotInMasked(s[1..], rest, p - |e|);
      } else {
        assert p == 0;
        assert z[0] == e[0];
        NotItsOwn(s[0], z);
      }
    }
  }

  lemma NotItsOwn(c: int, z: seq<byte>)
    requires IsScalar(c) && MaskedOne(c) <= z
    ensures !BytesAt(Encode1(REPLACEMENT), z, 0)
  {
    var e, r := MaskedOne(c), Encode1(REPLACEMENT);
    if BytesAt(r, z, 0) && c != REPLACEMENT {
      assert z[0..|r|][0] == z[0] && e[0] == z[0];
      EncodeWidth(c);
      EncodeWidth(REPLACEMENT);
      assert e == z[..|e|] == z[0..|r|];
      Encode1Injective(c, REPLACEMENT);
    }
  }

  lemma {:induction false} ReplacementBytes(xs: seq<int>, z: seq<byte>, p: nat) returns (p': nat)
    requires Encodable(xs) && REPLACEMENT in xs && BytesAt(Encode(xs), z, p)
    ensures BytesAt(Encode1(REPLACEMENT), z, p')
    decreases |xs|
  {
    hide Encode1;
    BytesAtSplit(Encode1(xs[0]), Encode(xs[1..]), z, p);
    if xs[0] == REPLACEMENT {
      p' := p;
    } else {
      p' := ReplacementBytes(xs[1..], z, p + |Encode1(xs[0])|);
    }
  }

  lemma {:induction false} DecodedScalar(z: seq<byte>, i: nat)
    requires i <= |z| && NoZero(z)
    ensures AllScalar(DecodeFrom(z, i))
    decreases |z| - i
  {
    if i < |z| {
      if NextChar(z, i).0 != REPLACEMENT {
        ReadIsEncoded(z, i);
      }
      hide NextChar;
      DecodedScalar(z, NextChar(z, i).1);
    }
  }

  // If a literal is U+FFFD, a text that matches has a form in which the code still accepts
  // it but the skip finds nothing.
  lemma SkipShows(code: seq<Inst>, xs: seq<int>, z: seq<byte>) returns (m: seq<byte>)
    requires Encodable(xs) && REPLACEMENT in xs && NoZero(z) && Answer(code, z)
    ensures NoZero(m) && Answer(code, m) && !Skipped(code, Encode(xs), m)
  {
    hide Accepting, NextChar, Encode1, Encode, BytesAt;
    DecodedScalar(z, 0);
    var s := DecodeFrom(z, 0);
    m := Masked(s);
    MaskedNoNul(s);
    assert m[0..] == m;
    DecodeMasked(s, m, 0);
    if Skipped(code, Encode(xs), m) {
      var p: nat :| FirstAt(Encode(xs), m, p) && AnswerFrom(code, m, p);
      var p' := ReplacementBytes(xs, m, p);
      NotInMasked(s, m, p');
    }
  }

  ghost predicate NeverShows(code: seq<Inst>, zInit: seq<byte>) {
    forall z :: NoZero(z) ==> (Answer(code, z) <==> Skipped(code, zInit, z))
  }

  // For a program that accepts anything at all, the skip never shows exactly if no literal
  // of the prefix is U+FFFD.
  lemma SkipExact(code: seq<Inst>, xs: seq<int>, z: seq<byte>)
    requires StartsWith(code, xs) && xs != [] && Encodable(xs) && NoZero(z) && Answer(code, z)
    ensures NeverShows(code, Encode(xs)) <==> REPLACEMENT !in xs
  {
    hide Accepting, StartsWith, Encode, Answer, Skipped;
    if REPLACEMENT in xs {
      var m := SkipShows(code, xs, z);
      assert NoZero(m) && !(Answer(code, m) <==> Skipped(code, Encode(xs), m));
    } else {
      forall z' | NoZero(z')
        ensures Answer(code, z') <==> Skipped(code, Encode(xs), z')
      {
        SkipInvisible(code, xs, z');
      }
    }
  }

  // ----- the matcher with its prefix search -----------------------------------------------------

  // re_match
  method Match(re: ReCompiled, z: seq<byte>) returns (rc: bool)
    requires re.Valid() && Safe(re.code) && 0 < |re.code| <= 0x10000
    requires NoZero(z)
    ensures rc <==> if re.zInit == [] then Answer(re.code, z) else Skipped(re.code, re.zInit, z)
  {
    hide Accepting;
    var i := 0;
    var c := START_CHAR;
    if re.zInit != [] {
      var n := |re.zInit|;
      while i + n <= |z| && (z[i] != re.zInit[0] || z[i..i + n] != re.zInit)
        invariant i <= |z|
        invariant forall p: nat :: p < i ==> !BytesAt(re.zInit, z, p)
      {
        i := i + 1;
      }
      if i + n > |z| {
        return false;
      }
      c := START_CHAR - 1;
      assert FirstAt(re.zInit, z, i);
    }
    rc := Simulate(re, z, i, c);
    if re.zInit != [] {
      OnlyFirst(re.code, re.zInit, z, i);
    }
  }

  lemma OnlyFirst(code: seq<Inst>, zInit: seq<byte>, z: seq<byte>, i: nat)
    requires FirstAt(zInit, z, i)
    ensures Skipped(code, zInit, z) <==> AnswerFrom(code, z, i)
  {
    hide Accepting, BytesAt;
    if Skipped(code, zInit, z) {
      var p: nat :| FirstAt(zInit, z, p) && AnswerFrom(code, z, p);
      assert p == i;
    }
  }
}
