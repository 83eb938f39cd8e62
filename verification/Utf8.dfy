// The character decoder of src/regexp.c, and the UTF-8 encoding it inverts.

module Utf8 {

  import opened Ints

  const REPLACEMENT: int := 0xfffd

  predicate IsTrail(b: byte) {
    0x80 <= b < 0xc0
  }

  // The six payload bits of a trail byte.
  function Low(b: byte): int {
    b % 64
  }

  // The next character of z at index i and the index just past it. Malformed,
  // overlong and surrogate sequences read as U+FFFD.
  function NextChar(z: seq<byte>, i: nat): (r: (int, nat))
    requires i <= |z|
    ensures i <= r.1 <= |z| && (i < |z| ==> i < r.1)
    ensures i < |z| && (forall k :: 0 <= k < |z| ==> z[k] != 0) ==> r.0 > 0
  {
    if i == |z| then (0, i)
    else
      var c: int := z[i];
      if c < 0x80 then (c, i + 1)
      else if 0xc0 <= c < 0xe0 && i + 1 < |z| && IsTrail(z[i + 1]) then
        var v := c % 32 * 64 + Low(z[i + 1]);
        (if v < 0x80 then REPLACEMENT else v, i + 2)
      else if 0xe0 <= c < 0xf0 && i + 2 < |z| && IsTrail(z[i + 1]) && IsTrail(z[i + 2]) then
        var v := c % 16 * 4096 + Low(z[i + 1]) * 64 + Low(z[i + 2]);
        (if v <= 0x7ff || 0xd800 <= v <= 0xdfff then REPLACEMENT else v, i + 3)
      else if 0xf0 <= c < 0xf8 && i + 3 < |z| && IsTrail(z[i + 1]) && IsTrail(z[i + 2]) && IsTrail(z[i + 3]) then
        var v := c % 8 * 262144 + Low(z[i + 1]) * 4096 + Low(z[i + 2]) * 64 + Low(z[i + 3]);
        (if v <= 0xffff || v > 0x10ffff then REPLACEMENT else v, i + 4)
      else (REPLACEMENT, i + 1)
  }

  // How many trail bytes follow, as far as three.
  function Trails(z: seq<byte>, i: nat): nat
    requires i < |z|
  {
    if i + 1 < |z| && 128 <= z[i + 1] <= 191 then
      (if i + 2 < |z| && 128 <= z[i + 2] <= 191 then (if i + 3 < |z| && 128 <= z[i + 3] <= 191 then 3 else 2) else 1)
    else 0
  }

  // What is read at a place: a lead byte with as many trail bytes as it announces stands for its
  // bits, unless fewer bytes would do or the value is no character; anything else is one byte
  // that stands for nothing.
  lemma ShortReads(z: seq<byte>, i: nat)
    requires i < |z|
    ensures z[i] < 128 ==> NextChar(z, i) == (z[i] as int, i + 1)
    ensures 192 <= z[i] <= 223 && Trails(z, i) >= 1 ==>
              var v := 64 * (z[i] as int - 192) + (z[i + 1] as int - 128);
              NextChar(z, i) == (if v < 128 then 0xfffd else v, i + 2)
    ensures 128 <= z[i] <= 191 || z[i] >= 248 || (z[i] >= 192 && Trails(z, i) == 0) || (z[i] >= 224 && Trails(z, i) == 1) || (z[i] >= 240 && Trails(z, i) == 2) ==>
              NextChar(z, i) == (0xfffd, i + 1)
  {
  }

  lemma ThreeByteReads(z: seq<byte>, i: nat)
    requires i < |z| && 224 <= z[i] <= 239 && Trails(z, i) >= 2
    ensures var v := 4096 * (z[i] as int - 224) + 64 * (z[i + 1] as int - 128) + (z[i + 2] as int - 128);
            NextChar(z, i) == (if v < 2048 || 55296 <= v < 57344 then 0xfffd else v, i + 3)
  {
  }

  lemma FourByteReads(z: seq<byte>, i: nat)
    requires i < |z| && 240 <= z[i] <= 247 && Trails(z, i) == 3
    ensures var v := 262144 * (z[i] as int - 240) + 4096 * (z[i + 1] as int - 128) + 64 * (z[i + 2] as int - 128) + (z[i + 3] as int - 128);
            NextChar(z, i) == (if v < 65536 || v > 1114111 then 0xfffd else v, i + 4)
  {
  }

  function DecodeFrom(z: seq<byte>, i: nat): (s: seq<int>)
    requires i <= |z|
    ensures (forall k :: 0 <= k < |z| ==> z[k] != 0) ==> forall k :: 0 <= k < |s| ==> s[k] > 0
    decreases |z| - i
  {
    if i == |z| then [] else [NextChar(z, i).0] + DecodeFrom(z, NextChar(z, i).1)
  }

  // The bytes that the compiler writes for character x of a literal prefix
  // (surrogates included); and, above U+FFFF, the standard four-byte form.
  function Encode1(x: int): (e: seq<byte>)
    requires 0 <= x <= 0x10ffff
    ensures 1 <= |e| <= 4 && !IsTrail(e[0])
    ensures forall k :: 1 <= k < |e| ==> IsTrail(e[k])
  {
    if x <= 0x7f then [x]
    else if x <= 0x7ff then [0xc0 + x / 64, 0x80 + x % 64]
    else if x <= 0xffff then [0xe0 + x / 4096, 0x80 + x / 64 % 64, 0x80 + x % 64]
    else [0xf0 + x / 262144, 0x80 + x / 4096 % 64, 0x80 + x / 64 % 64, 0x80 + x % 64]
  }

  function Encode(s: seq<int>): seq<byte>
    requires forall k :: 0 <= k < |s| ==> 0 <= s[k] <= 0x10ffff
  {
    if s == [] then [] else Encode1(s[0]) + Encode(s[1..])
  }

  // The ends of the four ranges and a character of each.
  lemma EncodedForms()
    ensures Encode1(0x24) == [0x24] && Encode1(0x7f) == [0x7f] && Encode1(0x80) == [0xc2, 0x80] && Encode1(0xa3) == [0xc2, 0xa3]
    ensures Encode1(0x7ff) == [0xdf, 0xbf] && Encode1(0x800) == [0xe0, 0xa0, 0x80] && Encode1(0x20ac) == [0xe2, 0x82, 0xac]
    ensures Encode1(0xffff) == [0xef, 0xbf, 0xbf] && Encode1(0x10000) == [0xf0, 0x90, 0x80, 0x80]
    ensures Encode1(0x10348) == [0xf0, 0x90, 0x8d, 0x88] && Encode1(0x10ffff) == [0xf4, 0x8f, 0xbf, 0xbf]
  {
  }

  // A Unicode scalar value other than NUL.
  predicate IsScalar(x: int) {
    0 < x < 0xd800 || 0xe000 <= x <= 0x10ffff
  }

  predicate AllScalar(s: seq<int>) {
    forall k :: 0 <= k < |s| ==> IsScalar(s[k])
  }

  // How many bytes the lead byte announces.
  function Width(lead: byte): nat {
    if lead < 0x80 then 1 else if lead < 0xe0 then 2 else if lead < 0xf0 then 3 else 4
  }

  lemma EncodeWidth(x: int)
    requires 0 <= x <= 0x10ffff
    ensures |Encode1(x)| == Width(Encode1(x)[0])
  {
  }

  lemma Encode1Injective(x: int, y: int)
    requires 0 <= x <= 0x10ffff && 0 <= y <= 0x10ffff && Encode1(x) == Encode1(y)
    ensures x == y
  {
    hide Encode1;
    Encoded(x);
    Encoded(y);
    Digits(x);
    Digits(y);
  }

  // The bytes by the length.
  lemma Encoded(x: int)
    requires 0 <= x <= 0x10ffff
    ensures var e := Encode1(x);
            (|e| == 1 && e[0] == x) ||
            (|e| == 2 && e[0] == 0xc0 + x / 64 && e[1] == 0x80 + x % 64) ||
            (|e| == 3 && e[0] == 0xe0 + x / 4096 && e[1] == 0x80 + x / 64 % 64 && e[2] == 0x80 + x % 64) ||
            (|e| == 4 && e[0] == 0xf0 + x / 262144 && e[1] == 0x80 + x / 4096 % 64 && e[2] == 0x80 + x / 64 % 64 && e[3] == 0x80 + x % 64)
  {
  }

  // The base-64 digits of a character.
  lemma Digits(x: int)
    requires 0 <= x <= 0x10ffff
    ensures x == x / 64 * 64 + x % 64
    ensures x == x / 4096 * 4096 + x / 64 % 64 * 64 + x % 64
    ensures x == x / 262144 * 262144 + x / 4096 % 64 * 4096 + x / 64 % 64 * 64 + x % 64
  {
    assert x / 4096 == x / 64 / 64 && x / 262144 == x / 4096 / 64;
  }

  lemma ReadTwo(x: int, z: seq<byte>, i: nat)
    requires 0x7f < x <= 0x7ff && i + 2 <= |z| && z[i] == 0xc0 + x / 64 && z[i + 1] == 0x80 + x % 64
    ensures NextChar(z, i) == (x, i + 2)
  {
    assert z[i] % 32 == x / 64 && Low(z[i + 1]) == x % 64;
  }

  lemma ReadThree(x: int, z: seq<byte>, i: nat)
    requires 0x7ff < x <= 0xffff && IsScalar(x) && i + 3 <= |z|
    requires z[i] == 0xe0 + x / 4096 && z[i + 1] == 0x80 + x / 64 % 64 && z[i + 2] == 0x80 + x % 64
    ensures NextChar(z, i) == (x, i + 3)
  {
    Digits(x);
    assert z[i] % 16 == x / 4096 && Low(z[i + 1]) == x / 64 % 64 && Low(z[i + 2]) == x % 64;
  }

  lemma ReadFour(x: int, z: seq<byte>, i: nat)
    requires 0xffff < x <= 0x10ffff && i + 4 <= |z|
    requires z[i] == 0xf0 + x / 262144 && z[i + 1] == 0x80 + x / 4096 % 64
    requires z[i + 2] == 0x80 + x / 64 % 64 && z[i + 3] == 0x80 + x % 64
    ensures NextChar(z, i) == (x, i + 4)
  {
    Digits(x);
    assert z[i] % 8 == x / 262144 && Low(z[i + 1]) == x / 4096 % 64;
    assert Low(z[i + 2]) == x / 64 % 64 && Low(z[i + 3]) == x % 64;
  }

  lemma NextCharOfEncoded(x: int, z: seq<byte>, i: nat)
    requires IsScalar(x) && i + |Encode1(x)| <= |z| && z[i..i + |Encode1(x)|] == Encode1(x)
    ensures NextChar(z, i) == (x, i + |Encode1(x)|)
  {
    hide NextChar;
    var e := Encode1(x);
    assert z[i] == e[0] by { assert z[i..i + |e|][0] == e[0]; }
    if x <= 0x7f {
      ReadOne(z, i);
    } else {
      assert z[i + 1] == e[1] by { assert z[i..i + |e|][1] == e[1]; }
      if x <= 0x7ff {
        ReadTwo(x, z, i);
      } else {
        assert z[i + 2] == e[2] by { assert z[i..i + |e|][2] == e[2]; }
        if x <= 0xffff {
          ReadThree(x, z, i);
        } else {
          assert z[i + 3] == e[3] by { assert z[i..i + |e|][3] == e[3]; }
          ReadFour(x, z, i);
        }
      }
    }
  }

  lemma ReadOne(z: seq<byte>, i: nat)
    requires i < |z| && z[i] < 0x80
    ensures NextChar(z, i) == (z[i], i + 1)
  {
  }

  // Decoding inverts encoding, from any character boundary on.
  lemma {:induction false} DecodeEncoded(s: seq<int>, z: seq<byte>, i: nat)
    requires AllScalar(s) && i <= |z| && z[i..] == Encode(s)
    ensures DecodeFrom(z, i) == s
    decreases |s|
  {
    if s != [] {
      var e := Encode1(s[0]);
      assert z[i..][..|e|] == e;
      assert z[i..i + |e|] == z[i..][..|e|];
      NextCharOfEncoded(s[0], z, i);
      assert z[i + |e|..] == z[i..][|e|..] == Encode(s[1..]);
      DecodeEncoded(s[1..], z, i + |e|);
    }
  }

  lemma {:induction false} EncodeConcat(a: seq<int>, b: seq<int>)
    requires forall k :: 0 <= k < |a + b| ==> 0 <= (a + b)[k] <= 0x10ffff
    requires forall k :: 0 <= k < |a| ==> 0 <= a[k] <= 0x10ffff
    requires forall k :: 0 <= k < |b| ==> 0 <= b[k] <= 0x10ffff
    ensures Encode(a + b) == Encode(a) + Encode(b)
  {
    if a == [] {
      assert a + b == b;
    } else {
      assert (a + b)[1..] == a[1..] + b;
      EncodeConcat(a[1..], b);
    }
  }
}
