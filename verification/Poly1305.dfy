// The Poly1305 message digest in 26-bit limbs, against its definition as a polynomial
// modulo 2^130 - 5 (section 2.5 of RFC 8439).

module Poly1305 {
  import opened Bits
  import opened Ints

  const L26: nat := 0x400_0000
  const L52: nat := 0x10_0000_0000_0000
  const L78: nat := 0x4000_0000_0000_0000_0000
  const L104: nat := 0x100_0000_0000_0000_0000_0000_0000
  const L128: nat := 0x1_0000_0000_0000_0000_0000_0000_0000_0000
  const L130: nat := 0x4_0000_0000_0000_0000_0000_0000_0000_0000
  const PRIME: nat := L130 - 5

  // ----- The definition -----

  function Little(s: seq<byte>): nat {
    if s == [] then 0 else s[0] + 256 * Little(s[1..])
  }

  // The first half of the key with the bits cleared that the standard clears.
  function Clamped(key: seq<byte>): (r: seq<byte>)
    requires |key| == 32
    ensures |r| == 16
  {
    [key[0], key[1], key[2], key[3] % 16, key[4] - key[4] % 4, key[5], key[6], key[7] % 16,
     key[8] - key[8] % 4, key[9], key[10], key[11] % 16, key[12] - key[12] % 4, key[13], key[14], key[15] % 16]
  }

  function First(msg: seq<byte>): seq<byte> {
    if |msg| <= 16 then msg else msg[..16]
  }

  function Rest(msg: seq<byte>): (r: seq<byte>)
    ensures msg != [] ==> |r| < |msg|
  {
    if |msg| <= 16 then [] else msg[16..]
  }

  // A block of the message read as a number with a one above it.
  function Coefficient(block: seq<byte>): nat {
    Little(block + [1])
  }

  // The accumulator after a message, block by block.
  function Accumulate(msg: seq<byte>, r: nat, acc: nat): nat
    decreases |msg|
  {
    if msg == [] then acc else Accumulate(Rest(msg), r, (acc + Coefficient(First(msg))) * r % PRIME)
  }

  function Tag(msg: seq<byte>, key: seq<byte>): nat
    requires |key| == 32
  {
    (Accumulate(msg, Little(Clamped(key)), 0) + Little(key[16..])) % L128
  }

  // ----- The polynomial -----

  function Power(r: nat, n: nat): nat {
    if n == 0 then 1 else r * Power(r, n - 1)
  }

  function BlockCount(msg: seq<byte>): nat {
    (|msg| + 15) / 16
  }

  // The blocks as coefficients of falling powers of r.
  function Polynomial(msg: seq<byte>, r: nat): nat
    decreases |msg|
  {
    if msg == [] then 0 else Coefficient(First(msg)) * Power(r, BlockCount(msg)) + Polynomial(Rest(msg), r)
  }

  lemma SameRemainder(a: int, b: int, k: int)
    requires a == b + k * PRIME
    ensures a % PRIME == b % PRIME
  {
  }

  lemma ProductRemainder(a: nat, b: nat, c: nat)
    requires a % PRIME == b % PRIME
    ensures (a * c) % PRIME == (b * c) % PRIME
  {
    var k := a / PRIME - b / PRIME;
    assert a == b + k * PRIME;
    assert a * c == b * c + (k * c) * PRIME by {
      assert (k * PRIME) * c == (k * c) * PRIME;
    }
    SameRemainder(a * c, b * c, k * c);
  }

  lemma SumRemainder(a: nat, b: nat, c: nat)
    requires a % PRIME == b % PRIME
    ensures (a + c) % PRIME == (b + c) % PRIME
  {
    SameRemainder(a + c, b + c, a / PRIME - b / PRIME);
  }

  // Block by block is the polynomial, with the start value above it.
  lemma {:induction false} HornerFrom(msg: seq<byte>, r: nat, acc: nat)
    ensures Accumulate(msg, r, acc) % PRIME == (acc * Power(r, BlockCount(msg)) + Polynomial(msg, r)) % PRIME
    decreases |msg|
  {
    if msg != [] {
      hide Coefficient;
      var c, rest, n := Coefficient(First(msg)), Rest(msg), BlockCount(msg);
      assert BlockCount(rest) == n - 1;
      HornerFrom(rest, r, (acc + c) * r % PRIME);
      HornerStep(acc, c, r, Power(r, n - 1), Polynomial(rest, r));
    }
  }

  lemma HornerStep(acc: nat, c: nat, r: nat, power: nat, tail: nat)
    ensures (((acc + c) * r % PRIME) * power + tail) % PRIME == (acc * (r * power) + (c * (r * power) + tail)) % PRIME
  {
    var x := (acc + c) * r;
    ProductRemainder(x % PRIME, x, power);
    SumRemainder((x % PRIME) * power, x * power, tail);
    assert x * power == (acc + c) * (r * power);
    assert (acc + c) * (r * power) == acc * (r * power) + c * (r * power);
  }

  lemma {:induction false} AccumulateReduced(msg: seq<byte>, r: nat, acc: nat)
    requires acc < PRIME
    ensures Accumulate(msg, r, acc) < PRIME
    decreases |msg|
  {
    if msg != [] {
      AccumulateReduced(Rest(msg), r, (acc + Coefficient(First(msg))) * r % PRIME);
    }
  }

  // The tag as the standard defines it.
  lemma TagIsPolynomial(msg: seq<byte>, key: seq<byte>)
    requires |key| == 32
    ensures Tag(msg, key) == (Polynomial(msg, Little(Clamped(key))) % PRIME + Little(key[16..])) % L128
  {
    hide Little, Clamped, Accumulate, Polynomial;
    var r := Little(Clamped(key));
    HornerFrom(msg, r, 0);
    AccumulateReduced(msg, r, 0);
  }

  // ----- Limbs -----

  datatype Limbs = Limbs(h0: nat, h1: nat, h2: nat, h3: nat, h4: nat)

  function Value(l: Limbs): nat {
    l.h0 + L26 * l.h1 + L52 * l.h2 + L78 * l.h3 + L104 * l.h4
  }

  // Between blocks the lowest limb is left uncarried.
  predicate Carried(l: Limbs) {
    l.h0 <= 42 * L26 && l.h1 < L26 && l.h2 < L26 && l.h3 < L26 && l.h4 < L26
  }

  predicate KeyLimbs(r: Limbs) {
    r.h0 < L26 && r.h1 < L26 && r.h2 < L26 && r.h3 < L26 && r.h4 < 0x10_0000
  }

  function Load32(s: seq<byte>, i: nat): u32
    requires i + 4 <= |s|
  {
    (s[i] as nat) + 0x100 * (s[i + 1] as nat) + 0x1_0000 * (s[i + 2] as nat) + 0x100_0000 * (s[i + 3] as nat)
  }

  lemma LittleWord(s: seq<byte>)
    requires |s| >= 4
    ensures Little(s) == Load32(s, 0) + 0x1_0000_0000 * Little(s[4..])
  {
    assert s[1..][1..] == s[2..] && s[2..][1..] == s[3..] && s[3..][1..] == s[4..];
    assert Little(s) == s[0] + 256 * Little(s[1..]);
    assert Little(s[1..]) == s[1] + 256 * Little(s[2..]);
    assert Little(s[2..]) == s[2] + 256 * Little(s[3..]);
    assert Little(s[3..]) == s[3] + 256 * Little(s[4..]);
  }

  lemma LittleWords(s: seq<byte>)
    requires |s| >= 16
    ensures Little(s) == Load32(s, 0) + 0x1_0000_0000 * Load32(s, 4) + 0x1_0000_0000_0000_0000 * Load32(s, 8) +
                         0x1_0000_0000_0000_0000_0000_0000 * Load32(s, 12) + L128 * Little(s[16..])
  {
    LittleWord(s);
    LittleWord(s[4..]);
    LittleWord(s[8..]);
    LittleWord(s[12..]);
    assert s[4..][4..] == s[8..] && s[8..][4..] == s[12..] && s[12..][4..] == s[16..];
  }

  // ----- Masks -----

  lemma Split(x: nat, n: nat, p: nat)
    requires p == Pow2(n)
    ensures x == Low(x, n) + p * High(x, n) && Low(x, n) < p
  {
    LowHigh(x, n);
  }

  lemma Mask26(x: nat)
    ensures And(x, 0x03FF_FFFF) == x % L26
  {
    hide And, Low, High, Pow2;
    MorePow2Values();
    AndOnes(x, 0x03FF_FFFF, 26);
    Split(x, 26, L26);
  }

  // A mask of a low ones and m ones from bit n.
  lemma MaskParts(x: nat, low: nat, mid: nat, high: nat, a: nat, n: nat, m: nat)
    requires a <= n && low + 1 == Pow2(a) && mid == Pow2(n) && high + 1 == Pow2(m)
    ensures And(x, low + mid * high) == Low(x, a) + mid * Low(High(x, n), m)
  {
    hide And, Low, High, Pow2;
    Pow2Monotone(a, n);
    AndParts(x, low, high, n);
    AndOnes(High(x, n), high, m);
    AndOnes(Low(x, n), low, a);
    LowOfLow(x, a, n);
  }

  lemma {:induction false} LowOfLow(x: nat, a: nat, n: nat)
    requires a <= n
    ensures Low(Low(x, n), a) == Low(x, a)
  {
    if a > 0 {
      LowOfLow(x / 2, a - 1, n - 1);
    }
  }

  // The masks of the clamp.
  lemma Mask1(x: nat)
    ensures And(x, 0x03FF_FF03) == x % 4 + 0x100 * (x / 0x100 % 0x4_0000)
  {
    hide And, Low, High, Pow2;
    Pow2Values();
    MorePow2Values();
    MaskParts(x, 3, 0x100, 0x3_FFFF, 2, 8, 18);
    Split(x, 2, 4);
    Split(x, 8, 0x100);
    Split(High(x, 8), 18, 0x4_0000);
  }

  lemma Mask2(x: nat)
    ensures And(x, 0x03FF_C0FF) == x % 0x100 + 0x4000 * (x / 0x4000 % 0x1000)
  {
    hide And, Low, High, Pow2;
    Pow2Values();
    MorePow2Values();
    MaskParts(x, 0xFF, 0x4000, 0xFFF, 8, 14, 12);
    assert Low(x, 8) == x % 0x100 by { Split(x, 8, 0x100); }
    assert High(x, 14) == x / 0x4000 by { Split(x, 14, 0x4000); }
    assert Low(High(x, 14), 12) == High(x, 14) % 0x1000 by { Split(High(x, 14), 12, 0x1000); }
  }

  lemma Mask3(x: nat)
    ensures And(x, 0x03F0_3FFF) == x % 0x4000 + 0x10_0000 * (x / 0x10_0000 % 0x40)
  {
    hide And, Low, High, Pow2;
    Pow2Values();
    MorePow2Values();
    MaskParts(x, 0x3FFF, 0x10_0000, 0x3F, 14, 20, 6);
    Split(x, 14, 0x4000);
    Split(x, 20, 0x10_0000);
    Split(High(x, 20), 6, 0x40);
  }

  lemma Mask4(x: nat)
    ensures And(x, 0x000F_FFFF) == x % 0x10_0000
  {
    hide And, Low, High, Pow2;
    MorePow2Values();
    AndOnes(x, 0x000F_FFFF, 20);
    Split(x, 20, 0x10_0000);
  }

  // ----- One block -----

  // A word of four bytes.
  function Word(a: nat, b: nat, c: nat, d: nat): nat {
    a + 0x100 * b + 0x1_0000 * c + 0x100_0000 * d
  }

  lemma Limb0(a: byte, b: byte, c: byte, d: byte)
    ensures Word(a, b, c, d) % L26 == a + 0x100 * b + 0x1_0000 * c + 0x100_0000 * (d % 4)
  {
    assert Word(a, b, c, d) == a + 0x100 * b + 0x1_0000 * c + 0x100_0000 * (d % 4) + L26 * (d / 4);
  }

  lemma Limb1(a: byte, b: byte, c: byte, d: byte)
    ensures Word(a, b, c, d) / 4 % L26 == a / 4 + 0x40 * b + 0x4000 * c + 0x40_0000 * (d % 16)
  {
    assert Word(a, b, c, d) / 4 == a / 4 + 0x40 * b + 0x4000 * c + 0x40_0000 * d;
    assert Word(a, b, c, d) / 4 == a / 4 + 0x40 * b + 0x4000 * c + 0x40_0000 * (d % 16) + L26 * (d / 16);
  }

  lemma Limb2(a: byte, b: byte, c: byte, d: byte)
    ensures Word(a, b, c, d) / 0x10 % L26 == a / 0x10 + 0x10 * b + 0x1000 * c + 0x10_0000 * (d % 0x40)
  {
    assert Word(a, b, c, d) / 0x10 == a / 0x10 + 0x10 * b + 0x1000 * c + 0x10_0000 * d;
    assert Word(a, b, c, d) / 0x10 == a / 0x10 + 0x10 * b + 0x1000 * c + 0x10_0000 * (d % 0x40) + L26 * (d / 0x40);
  }

  lemma Limb3(a: byte, b: byte, c: byte, d: byte)
    ensures Word(a, b, c, d) / 0x40 % L26 == Word(a, b, c, d) / 0x40 == a / 0x40 + 4 * b + 0x400 * c + 0x4_0000 * d
  {
  }

  lemma Limb4(a: byte, b: byte, c: byte, d: byte)
    ensures Word(a, b, c, d) / 0x100 == b + 0x100 * c + 0x1_0000 * d
  {
  }

  lemma LoadIsWord(s: seq<byte>, i: nat)
    requires i + 4 <= |s|
    ensures Load32(s, i) == Word(s[i], s[i + 1], s[i + 2], s[i + 3])
  {
  }

  // The limbs of a block in terms of its bytes; three bytes are shared by two limbs.
  lemma LimbSum(m: seq<byte>, l: Limbs)
    requires |m| == 16
    requires l.h0 == Word(m[0], m[1], m[2], m[3] % 4)
    requires l.h1 == m[3] / 4 + 0x40 * Word(m[4], m[5], m[6] % 16, 0)
    requires l.h2 == m[6] / 0x10 + 0x10 * Word(m[7], m[8], m[9] % 0x40, 0)
    requires l.h3 == m[9] / 0x40 + 4 * Word(m[10], m[11], m[12], 0)
    requires l.h4 == Word(m[13], m[14], m[15], 0)
    ensures Value(l) == Little(m) && l.h0 < L26 && l.h1 < L26 && l.h2 < L26 && l.h3 < L26 && l.h4 < 0x100_0000
  {
    hide Little;
    LittleWords(m);
    NoMore(m);
    assert m[3] == m[3] % 4 + 4 * (m[3] / 4) && m[6] == m[6] % 16 + 16 * (m[6] / 16) && m[9] == m[9] % 0x40 + 0x40 * (m[9] / 0x40);
  }

  // The five limbs of a block hold its value.
  lemma BlockLimbs(m: seq<byte>)
    requires |m| == 16
    ensures var l := Limbs(And(Load32(m, 0), 0x03FF_FFFF), And(Load32(m, 3) / 4, 0x03FF_FFFF), And(Load32(m, 6) / 0x10, 0x03FF_FFFF),
                           And(Load32(m, 9) / 0x40, 0x03FF_FFFF), Load32(m, 12) / 0x100);
            Value(l) == Little(m) && l.h0 < L26 && l.h1 < L26 && l.h2 < L26 && l.h3 < L26 && l.h4 < 0x100_0000
  {
    hide Little, And, Load32, Word, Value;
    var l := Limbs(And(Load32(m, 0), 0x03FF_FFFF), And(Load32(m, 3) / 4, 0x03FF_FFFF), And(Load32(m, 6) / 0x10, 0x03FF_FFFF),
                   And(Load32(m, 9) / 0x40, 0x03FF_FFFF), Load32(m, 12) / 0x100);
    assert l.h0 == Word(m[0], m[1], m[2], m[3] % 4) by { Middle0(m); }
    assert l.h1 == m[3] / 4 + 0x40 * Word(m[4], m[5], m[6] % 16, 0) by { Middle1(m); }
    assert l.h2 == m[6] / 0x10 + 0x10 * Word(m[7], m[8], m[9] % 0x40, 0) by { Middle2(m); }
    assert l.h3 == m[9] / 0x40 + 4 * Word(m[10], m[11], m[12], 0) by { Middle3(m); }
    assert l.h4 == Word(m[13], m[14], m[15], 0) by { Middle4(m); }
    LimbSum(m, l);
  }

  lemma Middle0(m: seq<byte>)
    requires |m| >= 16
    ensures And(Load32(m, 0), 0x03FF_FFFF) == Word(m[0], m[1], m[2], m[3] % 4)
  {
    hide And;
    Mask26(Load32(m, 0));
    Limb0(m[0], m[1], m[2], m[3]);
  }

  lemma Middle1(m: seq<byte>)
    requires |m| >= 16
    ensures And(Load32(m, 3) / 4, 0x03FF_FFFF) == m[3] / 4 + 0x40 * Word(m[4], m[5], m[6] % 16, 0)
  {
    hide And;
    Mask26(Load32(m, 3) / 4);
    Limb1(m[3], m[4], m[5], m[6]);
  }

  lemma Middle2(m: seq<byte>)
    requires |m| >= 16
    ensures And(Load32(m, 6) / 0x10, 0x03FF_FFFF) == m[6] / 0x10 + 0x10 * Word(m[7], m[8], m[9] % 0x40, 0)
  {
    hide And;
    Mask26(Load32(m, 6) / 0x10);
    Limb2(m[6], m[7], m[8], m[9]);
  }

  lemma Middle3(m: seq<byte>)
    requires |m| >= 16
    ensures And(Load32(m, 9) / 0x40, 0x03FF_FFFF) == m[9] / 0x40 + 4 * Word(m[10], m[11], m[12], 0)
  {
    hide And;
    Mask26(Load32(m, 9) / 0x40);
    Limb3(m[9], m[10], m[11], m[12]);
  }

  lemma Middle4(m: seq<byte>)
    requires |m| >= 16
    ensures Load32(m, 12) / 0x100 == Word(m[13], m[14], m[15], 0)
  {
    Limb4(m[12], m[13], m[14], m[15]);
  }

  lemma NoMore(m: seq<byte>)
    requires |m| == 16
    ensures Little(m[16..]) == 0
  {
  }

  // ----- The key -----

  // Each mask on a key limb gives the limb of the clamped key.
  lemma ClampLimb1(key: seq<byte>)
    requires |key| == 32
    ensures And(Load32(key, 3) / 4, 0x03FF_FF03) == And(Load32(Clamped(key), 3) / 4, 0x03FF_FFFF)
  {
    hide And, Load32, Word;
    var a, b, c, d, x := key[3], key[4], key[5], key[6], Load32(key, 3) / 4;
    Mask1(x);
    Middle1(Clamped(key));
    LoadIsWord(key, 3);
    ClampArith1(a, b, c, d, x);
  }

  lemma ClampArith1(a: byte, b: byte, c: byte, d: byte, x: nat)
    requires x == Word(a, b, c, d) / 4
    ensures x % 4 + 0x100 * (x / 0x100 % 0x4_0000) == a % 16 / 4 + 0x40 * Word(b - b % 4, c, d % 16, 0)
  {
    var a0, a1, b0, b1, d0, d1 := a / 4 % 4, a / 16, b % 4, b / 4, d % 16, d / 16;
    Limb1(a, b, c, d);
    assert a / 4 == 4 * a1 + a0 && b == 4 * b1 + b0 && d == 16 * d1 + d0 && a % 16 / 4 == a0;
    Take1(a0, a1, b0, b1, c, d0, d1, x);
  }

  lemma Take1(a0: nat, a1: nat, b0: nat, b1: nat, c: byte, d0: nat, d1: nat, x: nat)
    requires a0 < 4 && a1 < 16 && b0 < 4 && b1 < 64 && d0 < 16 && d1 < 16
    requires x == (4 * a1 + a0) + 0x40 * (4 * b1 + b0) + 0x4000 * c + 0x40_0000 * (16 * d1 + d0)
    ensures x % 4 == a0 && x / 0x100 % 0x4_0000 == b1 + 0x40 * c + 0x4000 * d0
  {
    var high := b1 + 0x40 * c + 0x4000 * (16 * d1 + d0);
    QuotientIs(x, 4, a1 + 0x10 * (4 * b1 + b0) + 0x1000 * c + 0x10_0000 * (16 * d1 + d0), a0);
    QuotientIs(x, 0x100, high, 4 * a1 + a0 + 0x40 * b0);
    QuotientIs(high, 0x4_0000, d1, b1 + 0x40 * c + 0x4000 * d0);
  }

  lemma ClampLimb2(key: seq<byte>)
    requires |key| == 32
    ensures And(Load32(key, 6) / 0x10, 0x03FF_C0FF) == And(Load32(Clamped(key), 6) / 0x10, 0x03FF_FFFF)
  {
    hide And, Load32, Word;
    var a, b, c, d, x := key[6], key[7], key[8], key[9], Load32(key, 6) / 0x10;
    Mask2(x);
    Middle2(Clamped(key));
    LoadIsWord(key, 6);
    ClampArith2(a, b, c, d, x);
  }

  lemma ClampArith2(a: byte, b: byte, c: byte, d: byte, x: nat)
    requires x == Word(a, b, c, d) / 0x10
    ensures x % 0x100 + 0x4000 * (x / 0x4000 % 0x1000) == a / 0x10 + 0x10 * Word(b % 16, c - c % 4, d % 0x40, 0)
  {
    var a1, b0, b1, c0, c1, d0, d1 := a / 16, b % 16, b / 16, c % 4, c / 4, d % 0x40, d / 0x40;
    assert x == a1 + 0x10 * b + 0x1000 * c + 0x10_0000 * d;
    assert b == 16 * b1 + b0 && c == 4 * c1 + c0 && d == 0x40 * d1 + d0;
    Take2(a1, b0, b1, c0, c1, d0, d1, x);
  }

  lemma Take2(a1: nat, b0: nat, b1: nat, c0: nat, c1: nat, d0: nat, d1: nat, x: nat)
    requires a1 < 16 && b0 < 16 && b1 < 16 && c0 < 4 && c1 < 64 && d0 < 64 && d1 < 4
    requires x == a1 + 0x10 * (16 * b1 + b0) + 0x1000 * (4 * c1 + c0) + 0x10_0000 * (0x40 * d1 + d0)
    ensures x % 0x100 == a1 + 0x10 * b0 && x / 0x4000 % 0x1000 == c1 + 0x40 * d0
  {
    var high := c1 + 0x40 * (0x40 * d1 + d0);
    QuotientIs(x, 0x100, b1 + 0x10 * (4 * c1 + c0) + 0x1000 * (0x40 * d1 + d0), a1 + 0x10 * b0);
    QuotientIs(x, 0x4000, high, a1 + 0x10 * (16 * b1 + b0) + 0x1000 * c0);
    QuotientIs(high, 0x1000, d1, c1 + 0x40 * d0);
  }

  lemma ClampLimb3(key: seq<byte>)
    requires |key| == 32
    ensures And(Load32(key, 9) / 0x40, 0x03F0_3FFF) == And(Load32(Clamped(key), 9) / 0x40, 0x03FF_FFFF)
  {
    hide And, Load32, Word;
    var a, b, c, d, x := key[9], key[10], key[11], key[12], Load32(key, 9) / 0x40;
    Mask3(x);
    Middle3(Clamped(key));
    LoadIsWord(key, 9);
    ClampArith3(a, b, c, d, x);
  }

  lemma ClampArith3(a: byte, b: byte, c: byte, d: byte, x: nat)
    requires x == Word(a, b, c, d) / 0x40
    ensures x % 0x4000 + 0x10_0000 * (x / 0x10_0000 % 0x40) == a / 0x40 + 4 * Word(b, c % 16, d - d % 4, 0)
  {
    var a1, c0, c1, d0, d1 := a / 0x40, c % 16, c / 16, d % 4, d / 4;
    assert x == a1 + 4 * b + 0x400 * c + 0x4_0000 * d;
    assert c == 16 * c1 + c0 && d == 4 * d1 + d0;
    Take3(a1, b, c0, c1, d0, d1, x);
  }

  lemma Take3(a1: nat, b: byte, c0: nat, c1: nat, d0: nat, d1: nat, x: nat)
    requires a1 < 4 && c0 < 16 && c1 < 16 && d0 < 4 && d1 < 64
    requires x == a1 + 4 * b + 0x400 * (16 * c1 + c0) + 0x4_0000 * (4 * d1 + d0)
    ensures x % 0x4000 == a1 + 4 * b + 0x400 * c0 && x / 0x10_0000 % 0x40 == d1
  {
    QuotientIs(x, 0x4000, c1 + 0x10 * (4 * d1 + d0), a1 + 4 * b + 0x400 * c0);
    QuotientIs(x, 0x10_0000, d1, a1 + 4 * b + 0x400 * (16 * c1 + c0) + 0x4_0000 * d0);
  }

  lemma ClampLimb4(key: seq<byte>)
    requires |key| == 32
    ensures And(Load32(key, 12) / 0x100, 0x000F_FFFF) == Load32(Clamped(key), 12) / 0x100 < 0x10_0000
  {
    hide And, Load32, Word;
    Mask4(Load32(key, 12) / 0x100);
    Middle4(Clamped(key));
    Middle4(key);
    Take4(key[13], key[14], key[15], Load32(key, 12) / 0x100);
  }

  lemma Take4(b: byte, c: byte, d: byte, x: nat)
    requires x == Word(b, c, d, 0)
    ensures x % 0x10_0000 == Word(b, c, d % 16, 0) < 0x10_0000
  {
    assert d == 16 * (d / 16) + d % 16;
    QuotientIs(x, 0x10_0000, d / 16, Word(b, c, d % 16, 0));
  }

  lemma ClampLimb0(key: seq<byte>)
    requires |key| == 32
    ensures And(Load32(key, 0), 0x03FF_FFFF) == And(Load32(Clamped(key), 0), 0x03FF_FFFF)
  {
    hide And, Load32;
    Middle0(key);
    Middle0(Clamped(key));
  }

  // The masks of the key limbs clear exactly the bits the standard clears.
  lemma ClampedLimbs(key: seq<byte>)
    requires |key| == 32
    ensures var l := Limbs(And(Load32(key, 0), 0x03FF_FFFF), And(Load32(key, 3) / 4, 0x03FF_FF03), And(Load32(key, 6) / 0x10, 0x03FF_C0FF),
                           And(Load32(key, 9) / 0x40, 0x03F0_3FFF), And(Load32(key, 12) / 0x100, 0x000F_FFFF));
            Value(l) == Little(Clamped(key)) && KeyLimbs(l)
  {
    hide Little, And, Load32, Clamped;
    BlockLimbs(Clamped(key));
    ClampLimb0(key);
    ClampLimb1(key);
    ClampLimb2(key);
    ClampLimb3(key);
    ClampLimb4(key);
  }

  // ----- Multiplication -----

  lemma MulBound(a: nat, m: nat, b: nat, n: nat)
    requires a <= m && b <= n
    ensures 0 <= a * b <= m * n
  {
    assert m * n - a * b == (m - a) * n + a * (n - b);
  }

  // One limb times the key value.
  lemma Scale(a: nat, r: Limbs)
    ensures a * Value(r) == a * r.h0 + L26 * (a * r.h1) + L52 * (a * r.h2) + L78 * (a * r.h3) + L104 * (a * r.h4)
  {
  }

  lemma Distribute(h: Limbs, v: nat)
    ensures Value(h) * v == h.h0 * v + L26 * (h.h1 * v) + L52 * (h.h2 * v) + L78 * (h.h3 * v) + L104 * (h.h4 * v)
  {
  }

  lemma Five(a: nat, b: nat)
    ensures a * (b * 5) == 5 * (a * b)
  {
  }

  // The five sums of the schoolbook product, with what lies above 2^130 folded in as
  // five times itself.
  function Sums(h: Limbs, r: Limbs): Limbs {
    Limbs(h.h0 * r.h0 + h.h1 * (r.h4 * 5) + h.h2 * (r.h3 * 5) + h.h3 * (r.h2 * 5) + h.h4 * (r.h1 * 5),
          h.h0 * r.h1 + h.h1 * r.h0 + h.h2 * (r.h4 * 5) + h.h3 * (r.h3 * 5) + h.h4 * (r.h2 * 5),
          h.h0 * r.h2 + h.h1 * r.h1 + h.h2 * r.h0 + h.h3 * (r.h4 * 5) + h.h4 * (r.h3 * 5),
          h.h0 * r.h3 + h.h1 * r.h2 + h.h2 * r.h1 + h.h3 * r.h0 + h.h4 * (r.h4 * 5),
          h.h0 * r.h4 + h.h1 * r.h3 + h.h2 * r.h2 + h.h3 * r.h1 + h.h4 * r.h0)
  }

  lemma SumsAreProduct(h: Limbs, r: Limbs)
    ensures Value(Sums(h, r)) % PRIME == (Value(h) * Value(r)) % PRIME
  {
    Distribute(h, Value(r));
    Scale(h.h0, r);
    Scale(h.h1, r);
    Scale(h.h2, r);
    Scale(h.h3, r);
    Scale(h.h4, r);
    Five(h.h1, r.h4);
    Five(h.h2, r.h3);
    Five(h.h2, r.h4);
    Five(h.h3, r.h2);
    Five(h.h3, r.h3);
    Five(h.h3, r.h4);
    Five(h.h4, r.h1);
    Five(h.h4, r.h2);
    Five(h.h4, r.h3);
    Five(h.h4, r.h4);
    var above := (h.h1 * r.h4 + h.h2 * r.h3 + h.h3 * r.h2 + h.h4 * r.h1) + L26 * (h.h2 * r.h4 + h.h3 * r.h3 + h.h4 * r.h2) +
                 L52 * (h.h3 * r.h4 + h.h4 * r.h3) + L78 * (h.h4 * r.h4);
    SameRemainder(Value(h) * Value(r), Value(Sums(h, r)), above);
  }

  // How large the sums get: 2^60 for each, and well below for the one that is folded back.
  lemma SumsBound(h: Limbs, r: Limbs)
    requires h.h0 <= 43 * L26 && h.h1 < 2 * L26 && h.h2 < 2 * L26 && h.h3 < 2 * L26 && h.h4 < L26 + 0x200_0000 && KeyLimbs(r)
    ensures var d := Sums(h, r);
            d.h0 <= 72 * L52 && d.h1 <= 72 * L52 && d.h2 <= 72 * L52 && d.h3 <= 72 * L52 && d.h4 <= 43 * L52 / 64 + 15 * L52 / 2
  {
    RowBound(h.h0, 43 * L26, r);
    RowBound(h.h1, 2 * L26, r);
    RowBound(h.h2, 2 * L26, r);
    RowBound(h.h3, 2 * L26, r);
    RowBound(h.h4, L26 + 0x200_0000, r);
  }

  lemma RowBound(a: nat, m: nat, r: Limbs)
    requires a <= m && KeyLimbs(r)
    ensures a * r.h0 <= m * L26 && a * r.h1 <= m * L26 && a * r.h2 <= m * L26 && a * r.h3 <= m * L26 && a * r.h4 <= m * 0x10_0000
    ensures a * (r.h1 * 5) <= 5 * m * L26 && a * (r.h2 * 5) <= 5 * m * L26 && a * (r.h3 * 5) <= 5 * m * L26
    ensures a * (r.h4 * 5) <= 5 * m * 0x10_0000
  {
    MulBound(a, m, r.h0, L26);
    MulBound(a, m, r.h1, L26);
    MulBound(a, m, r.h2, L26);
    MulBound(a, m, r.h3, L26);
    MulBound(a, m, r.h4, 0x10_0000);
    MulBound(a, m, r.h1 * 5, L26 * 5);
    MulBound(a, m, r.h2 * 5, L26 * 5);
    MulBound(a, m, r.h3 * 5, L26 * 5);
    MulBound(a, m, r.h4 * 5, 0x10_0000 * 5);
  }

  // The carries after a multiplication, the last of them folded in at the bottom.
  method Carry(ghost d: Limbs, e0: u64, e1: u64, e2: u64, e3: u64, e4: u64) returns (o: Limbs)
    requires d == Limbs(e0, e1, e2, e3, e4)
    requires d.h0 <= 72 * L52 && d.h1 <= 72 * L52 && d.h2 <= 72 * L52 && d.h3 <= 72 * L52 && d.h4 <= 43 * L52 / 64 + 15 * L52 / 2
    ensures Carried(o) && Value(o) % PRIME == Value(d) % PRIME
  {
    hide And;
    var d0, d1, d2, d3, d4 := e0, e1, e2, e3, e4;
    Mask26(d0);
    var h0: u32 := And(d0, 0x03FF_FFFF);
    d1 := d1 + d0 / L26;
    Mask26(d1);
    var h1: u32 := And(d1, 0x03FF_FFFF);
    d2 := d2 + d1 / L26;
    Mask26(d2);
    var h2: u32 := And(d2, 0x03FF_FFFF);
    d3 := d3 + d2 / L26;
    Mask26(d3);
    var h3: u32 := And(d3, 0x03FF_FFFF);
    d4 := d4 + d3 / L26;
    Mask26(d4);
    var h4: u32 := And(d4, 0x03FF_FFFF);
    var top: u32 := d4 / L26;
    var fold: u32 := top * 5;
    h0 := h0 + fold;
    o := Limbs(h0, h1, h2, h3, h4);
    SameRemainder(Value(d), Value(o), top);
  }

  // The loop body: add a block, multiply by the key, carry. Every assignment to a 32- or
  // 64-bit variable is proved not to overflow.
  method ProcessBlock(l: Limbs, r: Limbs, m: seq<byte>, one: nat) returns (o: Limbs)
    requires Carried(l) && KeyLimbs(r) && |m| == 16 && (one == 0 || one == 0x100_0000)
    ensures Carried(o) && Value(o) % PRIME == ((Value(l) + Little(m) + one * L104) * Value(r)) % PRIME
  {
    hide And, Little, Sums;
    BlockLimbs(m);
    var h0: u32 := l.h0 + And(Load32(m, 0), 0x03FF_FFFF);
    var h1: u32 := l.h1 + And(Load32(m, 3) / 4, 0x03FF_FFFF);
    var h2: u32 := l.h2 + And(Load32(m, 6) / 0x10, 0x03FF_FFFF);
    var h3: u32 := l.h3 + And(Load32(m, 9) / 0x40, 0x03FF_FFFF);
    var h4: u32 := l.h4 + one + Load32(m, 12) / 0x100;
    ghost var h := Limbs(h0, h1, h2, h3, h4);
    assert Value(h) == Value(l) + Little(m) + one * L104;
    o := Multiply(h0, h1, h2, h3, h4, r, h);
  }

  method Multiply(h0: u32, h1: u32, h2: u32, h3: u32, h4: u32, r: Limbs, ghost h: Limbs) returns (o: Limbs)
    requires h == Limbs(h0, h1, h2, h3, h4) && KeyLimbs(r)
    requires h.h0 <= 43 * L26 && h.h1 < 2 * L26 && h.h2 < 2 * L26 && h.h3 < 2 * L26 && h.h4 < L26 + 0x200_0000
    ensures Carried(o) && Value(o) % PRIME == (Value(h) * Value(r)) % PRIME
  {
    SumsBound(h, r);
    SumsAreProduct(h, r);
    hide Value;
    var r0, r1, r2, r3, r4 := r.h0, r.h1, r.h2, r.h3, r.h4;
    var s1: u32, s2: u32, s3: u32, s4: u32 := r1 * 5, r2 * 5, r3 * 5, r4 * 5;
    var d0: u64 := h0 * r0 + h1 * s4 + h2 * s3 + h3 * s2 + h4 * s1;
    var d1: u64 := h0 * r1 + h1 * r0 + h2 * s4 + h3 * s3 + h4 * s2;
    var d2: u64 := h0 * r2 + h1 * r1 + h2 * r0 + h3 * s4 + h4 * s3;
    var d3: u64 := h0 * r3 + h1 * r2 + h2 * r1 + h3 * r0 + h4 * s4;
    var d4: u64 := h0 * r4 + h1 * r3 + h2 * r2 + h3 * r1 + h4 * r0;
    o := Carry(Sums(h, r), d0, d1, d2, d3, d4);
  }

  // ----- The end of the computation -----

  // One conditional subtraction is enough, although the lowest limb was never carried:
  // the last carry of adding five tells whether the value has reached the prime.
  lemma OneSubtraction(l: Limbs, q0: nat, q1: nat, q2: nat, q3: nat, q4: nat)
    requires Carried(l)
    requires q0 == (l.h0 + 5) / L26 && q1 == (l.h1 + q0) / L26 && q2 == (l.h2 + q1) / L26 && q3 == (l.h3 + q2) / L26
    requires q4 == (l.h4 + q3) / L26
    ensures q4 <= 1 && (Value(l) + 5 * q4) % L130 == Value(l) % PRIME
  {
    var low := CarryChain(l, q0, q1, q2, q3, q4);
    CarriedBelow(l);
    hide Carried, Value;
    Subtracted(Value(l), low, q4);
  }

  // The chain adds five and cuts off what goes beyond 130 bits.
  lemma CarryChain(l: Limbs, q0: nat, q1: nat, q2: nat, q3: nat, q4: nat) returns (low: nat)
    requires Carried(l)
    requires q0 == (l.h0 + 5) / L26 && q1 == (l.h1 + q0) / L26 && q2 == (l.h2 + q1) / L26 && q3 == (l.h3 + q2) / L26
    requires q4 == (l.h4 + q3) / L26
    ensures Value(l) + 5 == low + L130 * q4 && low < L130
  {
    low := (l.h0 + 5) % L26 + L26 * ((l.h1 + q0) % L26) + L52 * ((l.h2 + q1) % L26) + L78 * ((l.h3 + q2) % L26) +
           L104 * ((l.h4 + q3) % L26);
  }

  lemma CarriedBelow(l: Limbs)
    requires Carried(l)
    ensures Value(l) < 2 * PRIME
  {
  }

  lemma Subtracted(v: nat, low: nat, q4: nat)
    requires v + 5 == low + L130 * q4 && low < L130 && v < 2 * PRIME
    ensures q4 <= 1 && (v + 5 * q4) % L130 == v % PRIME
  {
  }

  // The words of the tag put the limbs together again and add the second half of the key.
  lemma Words(l: Limbs, k1: u32, k2: u32, k3: u32, k4: u32, d1: nat, d2: nat, d3: nat, d4: nat)
    requires l.h0 < W32 && l.h1 < L26 && l.h2 < L26 && l.h3 < L26 && l.h4 < L26
    requires d1 == k1 + l.h0 + (l.h1 % 0x40) * L26
    requires d2 == k2 + l.h1 / 0x40 + (l.h2 % 0x1000) * 0x10_0000 + d1 / W32
    requires d3 == k3 + l.h2 / 0x1000 + (l.h3 % 0x4_0000) * 0x4000 + d2 / W32
    requires d4 == k4 + l.h3 / 0x4_0000 + (l.h4 % 0x100_0000) * 0x100 + d3 / W32
    ensures d1 % W32 + W32 * (d2 % W32) + W64 * (d3 % W32) + W96 * (d4 % W32) ==
            (Value(l) + (k1 + W32 * k2 + W64 * k3 + W96 * k4)) % L128
  {
    var out := d1 % W32 + W32 * (d2 % W32) + W64 * (d3 % W32) + W96 * (d4 % W32);
    assert l.h1 == 0x40 * (l.h1 / 0x40) + l.h1 % 0x40;
    assert l.h2 == 0x1000 * (l.h2 / 0x1000) + l.h2 % 0x1000;
    assert l.h3 == 0x4_0000 * (l.h3 / 0x4_0000) + l.h3 % 0x4_0000;
    assert l.h4 == 0x100_0000 * (l.h4 / 0x100_0000) + l.h4 % 0x100_0000;
    assert d1 == W32 * (d1 / W32) + d1 % W32 && d2 == W32 * (d2 / W32) + d2 % W32;
    assert d3 == W32 * (d3 / W32) + d3 % W32 && d4 == W32 * (d4 / W32) + d4 % W32;
    QuotientIs(Value(l) + (k1 + W32 * k2 + W64 * k3 + W96 * k4), L128, d4 / W32 + l.h4 / 0x100_0000, out);
  }

  const W32: nat := 0x1_0000_0000
  const W64: nat := 0x1_0000_0000_0000_0000
  const W96: nat := 0x1_0000_0000_0000_0000_0000_0000

  lemma {:induction false} LittleAppend(s: seq<byte>, t: seq<byte>)
    ensures Little(s + t) == Little(s) + Power(256, |s|) * Little(t)
  {
    if s == [] {
      assert s + t == t;
    } else {
      assert (s + t)[1..] == s[1..] + t;
      LittleAppend(s[1..], t);
      assert 256 * (Power(256, |s| - 1) * Little(t)) == Power(256, |s|) * Little(t);
    }
  }

  lemma FullCoefficient(m: seq<byte>)
    requires |m| == 16
    ensures Coefficient(m) == Little(m) + L128
  {
    hide Little;
    LittleWords(m);
    LittleWords(m + [1]);
    NoMore(m);
    JustOne(m);
  }

  lemma JustOne(m: seq<byte>)
    requires |m| == 16
    ensures Little((m + [1])[16..]) == 1
  {
    assert (m + [1])[16..] == [1];
  }

  lemma {:induction false} LittleZeros(z: seq<byte>)
    requires forall k :: 0 <= k < |z| ==> z[k] == 0
    ensures Little(z) == 0
  {
    if z != [] {
      LittleZeros(z[1..]);
    }
  }

  // The padded last block stands for its bytes with a one above.
  lemma PaddedCoefficient(m: seq<byte>, p: seq<byte>)
    requires 0 < |m| < 16 && |p| == 16 && p[..|m|] == m && p[|m|] == 1
    requires forall k :: |m| < k < 16 ==> p[k] == 0
    ensures Little(p) == Coefficient(m)
  {
    var z := p[|m| + 1..];
    assert p == (m + [1]) + z;
    LittleAppend(m + [1], z);
    LittleZeros(z);
  }

  // One turn of the loop is one step of the definition.
  lemma AccumulateStep(msg: seq<byte>, r: nat, acc: nat, v: nat, c: nat, w: nat)
    requires msg != [] && acc == v % PRIME && c == Coefficient(First(msg)) && w % PRIME == ((v + c) * r) % PRIME
    ensures Accumulate(msg, r, acc) == Accumulate(Rest(msg), r, w % PRIME)
  {
    hide Coefficient;
    SumRemainder(acc, v, c);
    ProductRemainder(acc + c, v + c, r);
  }

  lemma FourBytes(v: u32)
    ensures v == v % 0x100 + 0x100 * (v / 0x100 % 0x100) + 0x1_0000 * (v / 0x1_0000 % 0x100) + 0x100_0000 * (v / 0x100_0000)
  {
  }

  method StoreWord(tag: array<byte>, at: nat, v: u32)
    requires at + 4 <= tag.Length
    modifies tag
    ensures Load32(tag[..], at) == v
    ensures forall k :: 0 <= k < tag.Length && !(at <= k < at + 4) ==> tag[k] == old(tag[k])
  {
    FourBytes(v);
    tag[at] := v % 0x100;
    tag[at + 1] := v / 0x100 % 0x100;
    tag[at + 2] := v / 0x1_0000 % 0x100;
    tag[at + 3] := v / 0x100_0000;
  }

  // The last carries and the conditional subtraction.
  method Finish(l: Limbs, key: seq<byte>, tag: array<byte>)
    requires Carried(l) && |key| == 32 && tag.Length == 16
    modifies tag
    ensures Little(tag[..]) == (Value(l) % PRIME + Little(key[16..])) % L128
  {
    hide Little, Value;
    var q0: u32 := (l.h0 + 5) / L26;
    var q1: u32 := (l.h1 + q0) / L26;
    var q2: u32 := (l.h2 + q1) / L26;
    var q3: u32 := (l.h3 + q2) / L26;
    var q4: u32 := (l.h4 + q3) / L26;
    OneSubtraction(l, q0, q1, q2, q3, q4);
    var h0: u32 := l.h0 + q4 * 5;
    ValueOfRaised(l, 5 * q4);
    TagRemainder(Value(l) + 5 * q4, Value(l) % PRIME, Little(key[16..]));
    Serialize(h0, l.h1, l.h2, l.h3, l.h4, key, tag);
  }

  // The limbs as four words, with the second half of the key added.
  method Serialize(h0: u32, h1: u32, h2: u32, h3: u32, h4: u32, key: seq<byte>, tag: array<byte>)
    requires h1 < L26 && h2 < L26 && h3 < L26 && h4 < L26 && |key| == 32 && tag.Length == 16
    modifies tag
    ensures Little(tag[..]) == (Value(Limbs(h0, h1, h2, h3, h4)) + Little(key[16..])) % L128
  {
    hide Little, Value, Load32;
    var k1, k2, k3, k4 := Load32(key, 16), Load32(key, 20), Load32(key, 24), Load32(key, 28);
    SecondHalf(key);
    var u1: u32, u2: u32, u3: u32, u4: u32 := (h1 * L26) % W32, (h2 * 0x10_0000) % W32, (h3 * 0x4000) % W32, (h4 * 0x100) % W32;
    assert u1 == (h1 % 0x40) * L26 by { QuotientIs(h1 * L26, W32, h1 / 0x40, (h1 % 0x40) * L26); }
    assert u2 == (h2 % 0x1000) * 0x10_0000 by { QuotientIs(h2 * 0x10_0000, W32, h2 / 0x1000, (h2 % 0x1000) * 0x10_0000); }
    assert u3 == (h3 % 0x4_0000) * 0x4000 by { QuotientIs(h3 * 0x4000, W32, h3 / 0x4_0000, (h3 % 0x4_0000) * 0x4000); }
    assert u4 == (h4 % 0x100_0000) * 0x100 by { QuotientIs(h4 * 0x100, W32, h4 / 0x100_0000, (h4 % 0x100_0000) * 0x100); }
    var d1: u64 := k1 + h0 + u1;
    var d2: u64 := k2 + h1 / 0x40 + u2 + d1 / W32;
    var d3: u64 := k3 + h2 / 0x1000 + u3 + d2 / W32;
    var d4: u64 := k4 + h3 / 0x4_0000 + u4 + d3 / W32;
    Words(Limbs(h0, h1, h2, h3, h4), k1, k2, k3, k4, d1, d2, d3, d4);
    StoreTag(tag, d1 % W32, d2 % W32, d3 % W32, d4 % W32);
  }

  lemma ValueOfRaised(l: Limbs, k: nat)
    ensures Value(Limbs(l.h0 + k, l.h1, l.h2, l.h3, l.h4)) == Value(l) + k
  {
  }

  lemma SecondHalf(key: seq<byte>)
    requires |key| == 32
    ensures Little(key[16..]) == Load32(key, 16) + W32 * Load32(key, 20) + W64 * Load32(key, 24) + W96 * Load32(key, 28)
  {
    hide Little;
    LittleWords(key[16..]);
    NoMore(key[16..]);
  }

  lemma TagRemainder(a: nat, b: nat, s: nat)
    requires a % L130 == b % L130
    ensures (a + s) % L128 == (b + s) % L128
  {
    var k := a / L130 - b / L130;
    QuotientIs(a + s, L128, (b + s) / L128 + 4 * k, (b + s) % L128);
  }

  method StoreTag(tag: array<byte>, s1: u32, s2: u32, s3: u32, s4: u32)
    requires tag.Length == 16
    modifies tag
    ensures Little(tag[..]) == s1 + W32 * s2 + W64 * s3 + W96 * s4
  {
    hide Little;
    StoreWord(tag, 0, s1);
    StoreWord(tag, 4, s2);
    StoreWord(tag, 8, s3);
    StoreWord(tag, 12, s4);
    LittleWords(tag[..]);
    NoMore(tag[..]);
  }

  // poly1305: the tag buffer also serves for padding the last block.
  method Poly1305(msg: seq<byte>, key: seq<byte>, tag: array<byte>)
    requires |key| == 32 && tag.Length == 16
    modifies tag
    ensures Little(tag[..]) == Tag(msg, key)
  {
    hide Little, And, Accumulate, Value, Coefficient, Clamped;
    var l := Limbs(0, 0, 0, 0, 0);
    var r := Limbs(And(Load32(key, 0), 0x03FF_FFFF), And(Load32(key, 3) / 4, 0x03FF_FF03), And(Load32(key, 6) / 0x10, 0x03FF_C0FF),
                   And(Load32(key, 9) / 0x40, 0x03F0_3FFF), And(Load32(key, 12) / 0x100, 0x000F_FFFF));
    ClampedLimbs(key);
    ghost var k := Value(r);
    ValueOfZero();
    var at := 0;
    while |msg| - at >= 16
      invariant at <= |msg| && Carried(l)
      invariant Accumulate(msg, k, 0) == Accumulate(msg[at..], k, Value(l) % PRIME)
      decreases |msg| - at
    {
      var m := msg[at..at + 16];
      var o := ProcessBlock(l, r, m, 0x100_0000);
      assert First(msg[at..]) == m && Rest(msg[at..]) == msg[at + 16..];
      FullCoefficient(m);
      AccumulateStep(msg[at..], k, Value(l) % PRIME, Value(l), Coefficient(m), Value(o));
      l := o;
      at := at + 16;
    }
    if at < |msg| {
      var n := |msg| - at;
      Pad(msg, at, tag);
      var o := ProcessBlock(l, r, tag[..], 0);
      assert First(msg[at..]) == msg[at..] && Rest(msg[at..]) == [];
      PaddedCoefficient(msg[at..], tag[..]);
      AccumulateStep(msg[at..], k, Value(l) % PRIME, Value(l), Coefficient(msg[at..]), Value(o));
      l := o;
    } else {
      assert msg[at..] == [];
    }
    AccumulateNothing(k, Value(l) % PRIME);
    Finish(l, key, tag);
  }

  lemma ValueOfZero()
    ensures Value(Limbs(0, 0, 0, 0, 0)) == 0
  {
  }

  lemma AccumulateNothing(r: nat, acc: nat)
    ensures Accumulate([], r, acc) == acc
  {
  }

  method Pad(msg: seq<byte>, at: nat, tag: array<byte>)
    requires at < |msg| < at + 16 && tag.Length == 16
    modifies tag
    ensures tag[..|msg| - at] == msg[at..] && tag[|msg| - at] == 1
    ensures forall k :: |msg| - at < k < 16 ==> tag[k] == 0
  {
    var i := 0;
    while i < |msg| - at
      invariant i <= |msg| - at && forall k :: 0 <= k < i ==> tag[k] == msg[at + k]
    {
      tag[i] := msg[at + i];
      i := i + 1;
    }
    tag[i] := 1;
    i := i + 1;
    while i < 16
      invariant |msg| - at < i <= 16 && tag[|msg| - at] == 1 && forall k :: 0 <= k < |msg| - at ==> tag[k] == msg[at + k]
      invariant forall k :: |msg| - at < k < i ==> tag[k] == 0
    {
      tag[i] := 0;
      i := i + 1;
    }
    assert forall k :: 0 <= k < |msg| - at ==> tag[..|msg| - at][k] == msg[at..][k];
  }

  // ----- The example of section 2.5.2 ------------------------------------------------------------

  const FRONT: seq<byte> := [0x85, 0xd6, 0xbe, 0x78, 0x57, 0x55, 0x6d, 0x33, 0x7f, 0x44, 0x52, 0xfe, 0x42, 0xd5, 0x06, 0xa8]
  const BACK: seq<byte> := [0x01, 0x03, 0x80, 0x8a, 0xfb, 0x0d, 0xb2, 0xfd, 0x4a, 0xbf, 0xf6, 0xaf, 0x41, 0x49, 0xf5, 0x1b]

  // "Cryptographic Forum Research Group"
  const ONE: seq<byte> := [0x43, 0x72, 0x79, 0x70, 0x74, 0x6f, 0x67, 0x72, 0x61, 0x70, 0x68, 0x69, 0x63, 0x20, 0x46, 0x6f]
  const TWO: seq<byte> := [0x72, 0x75, 0x6d, 0x20, 0x52, 0x65, 0x73, 0x65, 0x61, 0x72, 0x63, 0x68, 0x20, 0x47, 0x72, 0x6f]
  const THREE: seq<byte> := [0x75, 0x70]

  lemma BlockNumber(s: seq<byte>, more: seq<byte>, a: u32, b: u32, c: u32, d: u32)
    requires |s| == 16 && Load32(s, 0) == a && Load32(s, 4) == b && Load32(s, 8) == c && Load32(s, 12) == d
    ensures Little(s + more) == a + 0x1_0000_0000 * b + 0x1_0000_0000_0000_0000 * c + 0x1_0000_0000_0000_0000_0000_0000 * d + L128 * Little(more)
  {
    hide Little;
    var t := s + more;
    LittleWords(t);
    assert t[16..] == more;
  }

  lemma FewNumbers()
    ensures Little([]) == 0 && Little([1]) == 1 && Little(THREE + [1]) == 0x17075
  {
    var t := THREE + [1];
    assert [1 as byte][1..] == [];
    assert t == [0x75, 0x70, 1] && t[1..] == [0x70, 1] && t[1..][1..] == [1];
  }

  lemma OneWords()
    ensures Load32(ONE, 0) == 0x70797243 && Load32(ONE, 4) == 0x72676f74 && Load32(ONE, 8) == 0x69687061 && Load32(ONE, 12) == 0x6f462063
  {
  }

  lemma TwoWords()
    ensures Load32(TWO, 0) == 0x206d7572 && Load32(TWO, 4) == 0x65736552 && Load32(TWO, 8) == 0x68637261 && Load32(TWO, 12) == 0x6f724720
  {
  }

  lemma BackWords()
    ensures Load32(BACK, 0) == 0x8a800301 && Load32(BACK, 4) == 0xfdb20dfb && Load32(BACK, 8) == 0xaff6bf4a && Load32(BACK, 12) == 0x1bf54941
  {
  }

  lemma ClampedWords()
    ensures |FRONT| == 16
    ensures forall key :: |key| == 32 && key[..16] == FRONT ==> var c := Clamped(key);
            Load32(c, 0) == 0x8bed685 && Load32(c, 4) == 0x36d5554 && Load32(c, 8) == 0xe52447c && Load32(c, 12) == 0x806d540
  {
    forall key: seq<byte> | |key| == 32 && key[..16] == FRONT
      ensures var c := Clamped(key);
              Load32(c, 0) == 0x8bed685 && Load32(c, 4) == 0x36d5554 && Load32(c, 8) == 0xe52447c && Load32(c, 12) == 0x806d540
    {
      assert forall k :: 0 <= k < 16 ==> key[k] == FRONT[k] by {
        assert forall k :: 0 <= k < 16 ==> key[k] == key[..16][k];
      }
    }
  }

  lemma Blocks()
    ensures Coefficient(ONE) == 0x16f4620636968706172676f7470797243 && Coefficient(TWO) == 0x16f7247206863726165736552206d7572 && Coefficient(THREE) == 0x17075
    ensures Little(Clamped(FRONT + BACK)) == 0x806d5400e52447c036d555408bed685 && Little((FRONT + BACK)[16..]) == 0x1bf54941aff6bf4afdb20dfb8a800301
  {
    hide Little, Clamped, Load32;
    FewNumbers();
    OneWords();
    TwoWords();
    BackWords();
    ClampedWords();
    BlockNumber(ONE, [1], 0x70797243, 0x72676f74, 0x69687061, 0x6f462063);
    BlockNumber(TWO, [1], 0x206d7572, 0x65736552, 0x68637261, 0x6f724720);
    BlockNumber(BACK, [], 0x8a800301, 0xfdb20dfb, 0xaff6bf4a, 0x1bf54941);
    assert (FRONT + BACK)[..16] == FRONT && (FRONT + BACK)[16..] == BACK + [];
    BlockNumber(Clamped(FRONT + BACK), [], 0x8bed685, 0x36d5554, 0xe52447c, 0x806d540);
    assert Clamped(FRONT + BACK) + [] == Clamped(FRONT + BACK);
  }

  lemma Reduced(x: nat, q: nat, y: nat)
    requires x == q * PRIME + y && y < PRIME
    ensures x % PRIME == y
  {
  }

  // The accumulator after block 1.
  lemma Step1()
    ensures (0x0 + 0x16f4620636968706172676f7470797243) * 0x806d5400e52447c036d555408bed685 % PRIME == 0x2c88c77849d64ae9147ddeb88e69c83fc
  {
    Reduced((0x0 + 0x16f4620636968706172676f7470797243) * 0x806d5400e52447c036d555408bed685, 0x2e0ffa647299a001224557735a7a109, 0x2c88c77849d64ae9147ddeb88e69c83fc);
  }

  // The accumulator after block 2.
  lemma Step2()
    ensures (0x2c88c77849d64ae9147ddeb88e69c83fc + 0x16f7247206863726165736552206d7572) * 0x806d5400e52447c036d555408bed685 % PRIME == 0x2d8adaf23b0337fa7cccfb4ea344b30de
  {
    Reduced((0x2c88c77849d64ae9147ddeb88e69c83fc + 0x16f7247206863726165736552206d7572) * 0x806d5400e52447c036d555408bed685, 0x8773264b431966e900dbd96edfe2158, 0x2d8adaf23b0337fa7cccfb4ea344b30de);
  }

  // The accumulator after block 3.
  lemma Step3()
    ensures (0x2d8adaf23b0337fa7cccfb4ea344b30de + 0x17075) * 0x806d5400e52447c036d555408bed685 % PRIME == 0x28d31b7caff946c77c8844335369d03a7
  {
    Reduced((0x2d8adaf23b0337fa7cccfb4ea344b30de + 0x17075) * 0x806d5400e52447c036d555408bed685, 0x5b6382283cff87793f9285521ab29e8, 0x28d31b7caff946c77c8844335369d03a7);
  }

  lemma StandardTag()
    ensures Tag(ONE + TWO + THREE, FRONT + BACK) == 0xa927010caf8b2bc2c6365130c11d06a8
  {
    hide Coefficient, Little, Clamped;
    Blocks();
    Step1();
    Step2();
    Step3();
    var r, msg := 0x806d5400e52447c036d555408bed685, ONE + TWO + THREE;
    assert First(msg) == ONE && Rest(msg) == TWO + THREE && First(TWO + THREE) == TWO && Rest(TWO + THREE) == THREE;
    assert Accumulate(THREE, r, 0x2d8adaf23b0337fa7cccfb4ea344b30de) == Accumulate([], r, 0x28d31b7caff946c77c8844335369d03a7);
    assert Accumulate(TWO + THREE, r, 0x2c88c77849d64ae9147ddeb88e69c83fc) == Accumulate(THREE, r, 0x2d8adaf23b0337fa7cccfb4ea344b30de);
    assert Accumulate(msg, r, 0) == Accumulate(TWO + THREE, r, 0x2c88c77849d64ae9147ddeb88e69c83fc);
  }
}
