// Powers of two and the bitwise "and" of naturals.

module Bits {

  function Pow2(n: nat): (p: nat)
    ensures p >= 1
  {
    if n == 0 then 1 else 2 * Pow2(n - 1)
  }

  lemma Pow2Values()
    ensures Pow2(0) == 1 && Pow2(1) == 2 && Pow2(2) == 4 && Pow2(3) == 8 && Pow2(4) == 16
    ensures Pow2(5) == 32 && Pow2(6) == 64 && Pow2(7) == 128 && Pow2(8) == 256
  {
    assert Pow2(2) == 2 * Pow2(1);
    assert Pow2(4) == 2 * Pow2(3);
    assert Pow2(6) == 2 * Pow2(5);
    assert Pow2(8) == 2 * Pow2(7);
  }

  lemma Pow2Positive(n: nat)
    ensures Pow2(n) >= 1
  {
  }

  lemma {:induction false} Pow2Monotone(m: nat, n: nat)
    requires m <= n
    ensures Pow2(m) <= Pow2(n)
    decreases n
  {
    if m < n {
      Pow2Monotone(m, n - 1);
    }
  }

  lemma {:induction false} Pow2Sum(m: nat, n: nat)
    ensures Pow2(m + n) == Pow2(m) * Pow2(n)
  {
    if n > 0 {
      Pow2Sum(m, n - 1);
      assert Pow2(m) * (2 * Pow2(n - 1)) == 2 * (Pow2(m) * Pow2(n - 1));
    }
  }

  lemma MorePow2Values()
    ensures Pow2(12) == 0x1000 && Pow2(14) == 0x4000 && Pow2(18) == 0x4_0000 && Pow2(20) == 0x10_0000 && Pow2(26) == 0x400_0000
  {
    hide Pow2;
    Pow2Values();
    Pow2Sum(8, 4);
    Pow2Sum(8, 6);
    Pow2Sum(12, 6);
    Pow2Sum(12, 8);
    Pow2Sum(20, 6);
  }

  function And(x: nat, m: nat): nat {
    if x == 0 || m == 0 then 0 else (if x % 2 == 1 && m % 2 == 1 then 1 else 0) + 2 * And(x / 2, m / 2)
  }

  // The n lowest bits, and the others.
  function Low(x: nat, n: nat): nat {
    if n == 0 then 0 else x % 2 + 2 * Low(x / 2, n - 1)
  }

  function High(x: nat, n: nat): nat {
    if n == 0 then x else High(x / 2, n - 1)
  }

  lemma {:induction false} LowHigh(x: nat, n: nat)
    ensures x == Low(x, n) + Pow2(n) * High(x, n) && Low(x, n) < Pow2(n)
  {
    if n > 0 {
      LowHigh(x / 2, n - 1);
      assert 2 * (Pow2(n - 1) * High(x, n)) == Pow2(n) * High(x, n);
    }
  }

  // A mask of n ones keeps the lowest bits.
  lemma {:induction false} AndOnes(x: nat, m: nat, n: nat)
    requires m + 1 == Pow2(n)
    ensures And(x, m) == Low(x, n)
  {
    if n == 0 {
    } else if x == 0 {
      LowHigh(0, n);
    } else {
      AndOnes(x / 2, m / 2, n - 1);
    }
  }

  // A mask in two parts takes them apart.
  lemma {:induction false} AndParts(x: nat, low: nat, high: nat, n: nat)
    requires low < Pow2(n)
    ensures And(x, low + Pow2(n) * high) == And(Low(x, n), low) + Pow2(n) * And(High(x, n), high)
  {
    if n > 0 {
      AndParts(x / 2, low / 2, high, n - 1);
      AndPartsMore(x, low, high, n);
    } else {
      NothingOfNothing(low);
    }
  }

  lemma AndPartsMore(x: nat, low: nat, high: nat, n: nat)
    requires n > 0 && And(x / 2, low / 2 + Pow2(n - 1) * high) == And(Low(x / 2, n - 1), low / 2) + Pow2(n - 1) * And(High(x / 2, n - 1), high)
    ensures And(x, low + Pow2(n) * high) == And(Low(x, n), low) + Pow2(n) * And(High(x, n), high)
  {
    var l, a, p := Low(x / 2, n - 1), And(High(x, n), high), Pow2(n - 1);
    assert High(x, n) == High(x / 2, n - 1) && Low(x, n) == x % 2 + 2 * l && Pow2(n) == 2 * p;
    hide And, Low, High, Pow2;
    Twice(p, high);
    Twice(p, a);
    AndPartsStep(x, low, p * high, l, p * a);
  }

  lemma NothingOfNothing(m: nat)
    ensures And(0, m) == 0
  {
  }

  lemma AndPartsStep(x: nat, low: nat, ph: nat, l: nat, pa: nat)
    requires And(x / 2, low / 2 + ph) == And(l, low / 2) + pa
    ensures And(x, low + 2 * ph) == And(x % 2 + 2 * l, low) + 2 * pa
  {
    hide And;
    HalfOf(low, ph);
    HalfOf(x % 2, l);
    AndHalf(x, low + 2 * ph);
    AndHalf(x % 2 + 2 * l, low);
  }

  lemma HalfOf(a: nat, b: nat)
    ensures (a + 2 * b) % 2 == a % 2 && (a + 2 * b) / 2 == a / 2 + b
  {
  }

  lemma Twice(p: nat, k: nat)
    ensures (2 * p) * k == 2 * (p * k)
  {
  }

  lemma AndHalf(x: nat, m: nat)
    ensures And(x, m) == (if x % 2 == 1 && m % 2 == 1 then 1 else 0) + 2 * And(x / 2, m / 2)
  {
  }

  lemma GrowsBy(d: nat, k: int)
    requires k >= 1
    ensures d * k >= d
  {
    assert d * k == d + d * (k - 1);
  }

  lemma QuotientIs(x: nat, d: nat, q: nat, r: nat)
    requires r < d && x == d * q + r
    ensures x / d == q && x % d == r
  {
    var k := q - x / d;
    assert d * k == d * q - d * (x / d);
    assert x == d * (x / d) + x % d;
    if k >= 1 {
      GrowsBy(d, k);
    } else if k <= -1 {
      GrowsBy(d, -k);
    }
  }

  // The n lowest bits of x, lowest first.
  function Lsb(x: nat, n: nat): (w: seq<bool>)
    ensures |w| == n
  {
    if n == 0 then [] else [x % 2 == 1] + Lsb(x / 2, n - 1)
  }

  function Num(w: seq<bool>): nat {
    if w == [] then 0 else (if w[0] then 1 else 0) + 2 * Num(w[1..])
  }

  lemma {:induction false} NumOfLsb(x: nat, n: nat)
    ensures Num(Lsb(x, n)) == Low(x, n)
  {
    if n > 0 {
      NumOfLsb(x / 2, n - 1);
      assert Lsb(x, n)[1..] == Lsb(x / 2, n - 1);
    }
  }

  lemma {:induction false} LsbOfNum(w: seq<bool>)
    ensures Num(w) < Pow2(|w|) && Lsb(Num(w), |w|) == w
  {
    if w != [] {
      LsbOfNum(w[1..]);
      assert w == [w[0]] + w[1..];
    }
  }

  lemma {:induction false} LsbPrefix(x: nat, m: nat, n: nat)
    requires m <= n
    ensures Lsb(x, n)[..m] == Lsb(x, m)
  {
    if m > 0 {
      LsbPrefix(x / 2, m - 1, n - 1);
      assert Lsb(x, n)[..m] == [x % 2 == 1] + Lsb(x / 2, n - 1)[..m - 1];
    }
  }

  // The next bit up.
  lemma {:induction false} LsbNext(x: nat, n: nat)
    ensures Lsb(x, n + 1) == Lsb(x, n) + [High(x, n) % 2 == 1]
  {
    if n == 0 {
      assert Lsb(x, 1) == [x % 2 == 1] + Lsb(x / 2, 0);
    } else {
      LsbNext(x / 2, n - 1);
      var b := High(x, n) % 2 == 1;
      assert Lsb(x, n + 1) == [x % 2 == 1] + (Lsb(x / 2, n - 1) + [b]);
    }
  }

  lemma {:induction false} HighTwice(x: nat, m: nat, n: nat)
    ensures High(High(x, m), n) == High(x, m + n)
  {
    if m > 0 {
      HighTwice(x / 2, m - 1, n);
    }
  }

  // Numbers with the same low bits are a multiple of the power apart.
  lemma Factor(p: nat, a: int, b: int)
    ensures p * b - p * a == p * (b - a)
  {
  }

  lemma SameLow(x: nat, y: nat, n: nat)
    requires Low(x, n) == Low(y, n) && x < y
    ensures y - x >= Pow2(n)
  {
    LowHigh(x, n);
    LowHigh(y, n);
    var k, p := High(y, n) - High(x, n), Pow2(n);
    Factor(p, High(x, n), High(y, n));
    if k >= 1 {
      GrowsBy(p, k);
    } else {
      NotAbove(p, k);
    }
  }

  lemma NotAbove(d: nat, k: int)
    requires k <= 0
    ensures d * k <= 0
  {
  }

  lemma {:induction false} LowAfter(x: nat, n: nat)
    ensures Low(x + Pow2(n), n) == Low(x, n)
  {
    if n > 0 {
      assert (x + Pow2(n)) / 2 == x / 2 + Pow2(n - 1);
      LowAfter(x / 2, n - 1);
    }
  }

  lemma LowIsMod1024(x: nat)
    ensures Low(x, 10) == x % 1024
  {
    Pow2Values();
    Pow2Sum(8, 2);
    LowHigh(x, 10);
    QuotientIs(x, 1024, High(x, 10), Low(x, 10));
  }
}
