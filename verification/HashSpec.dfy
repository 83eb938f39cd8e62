// Hash functions that iterate a compression function over padded blocks, HMAC over them
// (section 2 of RFC 2104) and PBKDF2 with it (section 5.2 of RFC 8018).

module HashSpec {
  import opened Bits
  import opened Ints

  const TWO32: nat := 0x1_0000_0000

  // States and digests are the same bytes here: a digest is the state written out.
  datatype Hash = Hash(blockSize: nat, hashSize: nat, lengthSize: nat, init: seq<bv8>, comp: (seq<bv8>, seq<bv8>) -> seq<bv8>)

  // A digest with its padding fits into one block, and 32 bits count two blocks.
  ghost predicate Good(f: Hash) {
    0 < f.hashSize && |f.init| == f.hashSize && 4 <= f.lengthSize && f.hashSize + 1 + f.lengthSize <= f.blockSize && 2 * f.blockSize < TWO32 &&
    forall h, b :: |f.comp(h, b)| == f.hashSize
  }

  function Zeros(n: nat): (s: seq<bv8>)
    ensures |s| == n
  {
    seq(n, _ => 0)
  }

  function BigEndian(v: nat, n: nat): (s: seq<bv8>)
    ensures |s| == n
  {
    if n == 0 then [] else BigEndian(v / 256, n - 1) + [(v % 256) as bv8]
  }

  // The state after whole blocks.
  function Iterate(f: Hash, h: seq<bv8>, s: seq<bv8>): (r: seq<bv8>)
    requires f.blockSize > 0
    decreases |s|
  {
    if |s| < f.blockSize then h else Iterate(f, f.comp(h, s[..f.blockSize]), s[f.blockSize..])
  }

  // The zeros that bring n bytes, the byte 0x80 and the length to whole blocks.
  function Gap(f: Hash, n: nat): (k: nat)
    requires f.blockSize > 0
    ensures k < f.blockSize && (n + 1 + k + f.lengthSize) % f.blockSize == 0
  {
    var m := (n + 1 + f.lengthSize) % f.blockSize;
    RoundedUp(n + 1 + f.lengthSize, f.blockSize);
    if m == 0 then 0 else f.blockSize - m
  }

  lemma RoundedUp(x: nat, b: nat)
    requires b > 0
    ensures x % b != 0 ==> (x + (b - x % b)) % b == 0
  {
    if x % b != 0 {
      assert x + (b - x % b) == b * (x / b) + b == b * (x / b + 1) + 0;
      QuotientIs(x + (b - x % b), b, x / b + 1, 0);
    }
  }

  // The length in the padding is that of the standard, or the 32 bits of it that the code
  // writes, behind zeros.
  datatype Width = Standard | Code

  function Padding(f: Hash, w: Width, n: nat): seq<bv8>
    requires f.blockSize > 0 && f.lengthSize >= 4
  {
    match w
    case Standard => [0x80] + Zeros(Gap(f, n)) + BigEndian(8 * n, f.lengthSize)
    case Code => [0x80] + Zeros(Gap(f, n) + f.lengthSize - 4) + BigEndian(8 * n % TWO32, 4)
  }

  function Digest(f: Hash, w: Width, m: seq<bv8>): (d: seq<bv8>)
    requires Good(f)
    ensures |d| == f.hashSize
  {
    IterateLength(f, f.init, m + Padding(f, w, |m|));
    Iterate(f, f.init, m + Padding(f, w, |m|))
  }

  function XorAll(s: seq<bv8>, t: seq<bv8>): (r: seq<bv8>)
    requires |s| == |t|
    ensures |r| == |s|
  {
    seq(|s|, k requires 0 <= k < |s| => s[k] ^ t[k])
  }

  function XorEach(b: bv8, s: seq<bv8>): (r: seq<bv8>)
    ensures |r| == |s|
  {
    seq(|s|, k requires 0 <= k < |s| => b ^ s[k])
  }

  // The key brought to one block.
  function BlockKey(f: Hash, w: Width, key: seq<bv8>): (k: seq<bv8>)
    requires Good(f)
    ensures |k| == f.blockSize
  {
    var k := if |key| > f.blockSize then Digest(f, w, key) else key;
    k + Zeros(f.blockSize - |k|)
  }

  lemma {:induction false} IterateLength(f: Hash, h: seq<bv8>, s: seq<bv8>)
    requires Good(f) && |h| == f.hashSize
    ensures |Iterate(f, h, s)| == f.hashSize
    decreases |s|
  {
    if |s| >= f.blockSize {
      IterateLength(f, f.comp(h, s[..f.blockSize]), s[f.blockSize..]);
    }
  }

  // Section 2 of RFC 2104
  function Hmac(f: Hash, w: Width, key: seq<bv8>, m: seq<bv8>): (d: seq<bv8>)
    requires Good(f)
    ensures |d| == f.hashSize
  {
    var k := BlockKey(f, w, key);
    Digest(f, w, XorEach(0x5c, k) + Digest(f, w, XorEach(0x36, k) + m))
  }

  // Section 5.2 of RFC 8018: the chain U_1, U_2, ... and the exclusive or of its first n.
  function Chain(f: Hash, w: Width, pw: seq<bv8>, salt: seq<bv8>, i: nat, n: nat): (u: seq<bv8>)
    requires Good(f) && n >= 1
    ensures |u| == f.hashSize
  {
    if n == 1 then Hmac(f, w, pw, salt + BigEndian(i, 4)) else Hmac(f, w, pw, Chain(f, w, pw, salt, i, n - 1))
  }

  function Block(f: Hash, w: Width, pw: seq<bv8>, salt: seq<bv8>, i: nat, n: nat): (t: seq<bv8>)
    requires Good(f) && n >= 1
    ensures |t| == f.hashSize
  {
    if n == 1 then Chain(f, w, pw, salt, i, 1) else XorAll(Block(f, w, pw, salt, i, n - 1), Chain(f, w, pw, salt, i, n))
  }

  // T_1 || T_2 || ... || T_l
  function Blocks(f: Hash, w: Width, pw: seq<bv8>, salt: seq<bv8>, n: nat, l: nat): (s: seq<bv8>)
    requires Good(f) && n >= 1
    ensures |s| == l * f.hashSize
  {
    if l == 0 then [] else Blocks(f, w, pw, salt, n, l - 1) + Block(f, w, pw, salt, l, n)
  }

  // The derived key of n bytes, as the standard defines it.
  function DerivedKey(f: Hash, pw: seq<bv8>, salt: seq<bv8>, c: nat, n: nat): (s: seq<bv8>)
    requires Good(f) && c >= 1
  {
    var l := (n + f.hashSize - 1) / f.hashSize;
    var t := Blocks(f, Standard, pw, salt, c, l);
    t[..if n <= |t| then n else |t|]
  }

  // ----- What the pieces are -------------------------------------------------------------

  function Power(n: nat): (p: nat)
    ensures p > 0
  {
    if n == 0 then 1 else 256 * Power(n - 1)
  }

  // The number whose digits in base 256 are the bytes, the highest first.
  function Number(s: seq<bv8>): nat {
    if s == [] then 0 else s[0] as nat * Power(|s| - 1) + Number(s[1..])
  }

  lemma {:induction false} NumberBack(s: seq<bv8>)
    requires s != []
    ensures Number(s) == 256 * Number(s[..|s| - 1]) + s[|s| - 1] as nat
  {
    var t, n := s[1..], |s| - 1;
    if n > 0 {
      NumberBack(t);
      assert s[..n][1..] == t[..n - 1] && t[n - 1] == s[n];
      Shifted(s[0] as nat, Power(n - 1));
    } else {
      assert t == [] && s[..n] == [];
    }
  }

  lemma Shifted(a: nat, p: nat)
    ensures a * (256 * p) == 256 * (a * p)
  {
  }

  lemma {:induction false} BigEndianIs(v: nat, n: nat)
    requires v < Power(n)
    ensures Number(BigEndian(v, n)) == v
  {
    if n > 0 {
      var s := BigEndian(v / 256, n - 1);
      BigEndianIs(v / 256, n - 1);
      NumberBack(s + [(v % 256) as bv8]);
      assert (s + [(v % 256) as bv8])[..n - 1] == s;
      ByteBack(v % 256);
    }
  }

  // Exclusive or works byte by byte and undoes itself.
  lemma XorAllIs(s: seq<bv8>, t: seq<bv8>)
    requires |s| == |t|
    ensures XorAll(XorAll(s, t), t) == s && XorAll(s, t) == XorAll(t, s) && XorAll(s, Zeros(|s|)) == s && XorAll(s, s) == Zeros(|s|)
  {
    forall k | 0 <= k < |s|
      ensures XorAll(XorAll(s, t), t)[k] == s[k] && XorAll(s, t)[k] == XorAll(t, s)[k] && XorAll(s, Zeros(|s|))[k] == s[k] && XorAll(s, s)[k] == 0
    {
    }
  }

  // The message with its padding is whole blocks: one bit, then zeros, then the number of bits.
  lemma PaddingIs(f: Hash, n: nat)
    requires Good(f)
    ensures var p := Padding(f, Standard, n);
            (n + |p|) % f.blockSize == 0 && 1 + f.lengthSize <= |p| < 1 + f.lengthSize + f.blockSize && p[0] as nat == 128 &&
            (forall k :: 1 <= k < |p| - f.lengthSize ==> p[k] == 0) && (8 * n < Power(f.lengthSize) ==> Number(p[|p| - f.lengthSize..]) == 8 * n)
  {
    var g := Gap(f, n);
    var p, v := Padding(f, Standard, n), BigEndian(8 * n, f.lengthSize);
    assert p[|p| - f.lengthSize..] == v;
    assert n + |p| == n + 1 + g + f.lengthSize;
    if 8 * n < Power(f.lengthSize) {
      BigEndianIs(8 * n, f.lengthSize);
    }
  }

  // HMAC over a key of at most one block: every byte of it, and the zeros behind it, under the
  // inner and the outer constant.
  lemma HmacIs(f: Hash, w: Width, key: seq<bv8>, m: seq<bv8>, inner: seq<bv8>, outer: seq<bv8>)
    requires Good(f) && |key| <= f.blockSize == |inner| == |outer|
    requires forall k :: 0 <= k < f.blockSize ==> inner[k] == (if k < |key| then key[k] else 0) ^ 54
    requires forall k :: 0 <= k < f.blockSize ==> outer[k] == (if k < |key| then key[k] else 0) ^ 92
    ensures Hmac(f, w, key, m) == Digest(f, w, outer + Digest(f, w, inner + m))
  {
    hide Digest;
    var b := BlockKey(f, w, key);
    forall k | 0 <= k < f.blockSize
      ensures XorEach(0x36, b)[k] == inner[k] && XorEach(0x5c, b)[k] == outer[k]
    {
    }
    assert XorEach(0x36, b) == inner && XorEach(0x5c, b) == outer;
  }

  // A longer key counts as its digest.
  lemma HmacLong(f: Hash, w: Width, key: seq<bv8>, m: seq<bv8>)
    requires Good(f) && |key| > f.blockSize
    ensures Hmac(f, w, key, m) == Hmac(f, w, Digest(f, w, key), m)
  {
    hide Digest;
  }

  // U_1, U_2, ...: each is the digest under HMAC of the one before, the first that of the salt
  // and the number of the block.
  ghost predicate IsChain(f: Hash, w: Width, pw: seq<bv8>, salt: seq<bv8>, i: nat, us: seq<seq<bv8>>)
    requires Good(f)
  {
    us != [] && (exists v :: |v| == 4 && Number(v) == i && us[0] == Hmac(f, w, pw, salt + v)) &&
    forall k :: 1 <= k < |us| ==> us[k] == Hmac(f, w, pw, us[k - 1])
  }

  // Byte k of all of them, combined.
  function XorOver(us: seq<seq<bv8>>, k: nat): bv8
    requires forall j :: 0 <= j < |us| ==> k < |us[j]|
  {
    if us == [] then 0 else XorOver(us[..|us| - 1], k) ^ us[|us| - 1][k]
  }

  lemma {:induction false} NumberUnique(s: seq<bv8>, t: seq<bv8>)
    requires |s| == |t| && Number(s) == Number(t)
    ensures s == t
  {
    if s != [] {
      NumberBack(s);
      NumberBack(t);
      var n := |s| - 1;
      assert s[n] as nat == t[n] as nat;
      NumberUnique(s[..n], t[..n]);
      assert s == s[..n] + [s[n]] && t == t[..n] + [t[n]];
    }
  }

  lemma {:induction false} ChainIs(f: Hash, w: Width, pw: seq<bv8>, salt: seq<bv8>, i: nat, us: seq<seq<bv8>>)
    requires Good(f) && i < Power(4) && IsChain(f, w, pw, salt, i, us)
    ensures us[|us| - 1] == Chain(f, w, pw, salt, i, |us|)
  {
    hide Hmac;
    var n := |us|;
    if n == 1 {
      var v :| |v| == 4 && Number(v) == i && us[0] == Hmac(f, w, pw, salt + v);
      BigEndianIs(i, 4);
      NumberUnique(v, BigEndian(i, 4));
    } else {
      ChainIs(f, w, pw, salt, i, us[..n - 1]);
    }
  }

  // A block of the derived key is the exclusive or of its chain, byte by byte.
  lemma {:induction false} BlockIs(f: Hash, w: Width, pw: seq<bv8>, salt: seq<bv8>, i: nat, us: seq<seq<bv8>>, k: nat)
    requires Good(f) && i < Power(4) && IsChain(f, w, pw, salt, i, us) && k < f.hashSize
    ensures forall j :: 0 <= j < |us| ==> |us[j]| == f.hashSize
    ensures Block(f, w, pw, salt, i, |us|)[k] == XorOver(us, k)
  {
    hide Hmac;
    var n := |us|;
    ChainIs(f, w, pw, salt, i, us);
    if n == 1 {
      assert us[..0] == [];
      ZeroFirst(us[0][k]);
    } else {
      BlockIs(f, w, pw, salt, i, us[..n - 1], k);
    }
  }

  lemma ZeroFirst(b: bv8)
    ensures 0 ^ b == b
  {
  }

  // Byte j of block i + 1 of the derived key.
  lemma DerivedIs(f: Hash, pw: seq<bv8>, salt: seq<bv8>, c: nat, n: nat, i: nat, j: nat, p: nat)
    requires Good(f) && c >= 1 && j < f.hashSize && p == i * f.hashSize + j && p < n
    ensures |DerivedKey(f, pw, salt, c, n)| == n
    ensures DerivedKey(f, pw, salt, c, n)[p] == Block(f, Standard, pw, salt, i + 1, c)[j]
  {
    hide Block, Blocks;
    var h := f.hashSize;
    var l := (n + h - 1) / h;
    EnoughBlocks(n, h);
    SmallerBlock(i, l, h, j);
    BlocksAt(f, Standard, pw, salt, c, l, i);
    var t := Blocks(f, Standard, pw, salt, c, l);
    assert t[p] == t[h * i..h * i + h][j];
  }

  lemma EnoughBlocks(n: nat, h: nat)
    requires h > 0
    ensures ((n + h - 1) / h) * h >= n
  {
    var x := n + h - 1;
    assert x == h * (x / h) + x % h;
  }

  lemma SmallerBlock(i: nat, l: nat, h: nat, j: nat)
    requires i * h + j < l * h
    ensures i < l
  {
    Factor(h, i, l);
    if l - i <= 0 {
      NotAbove(h, l - i);
    }
  }

  // The i-th part of h bytes.
  predicate PartIs(s: seq<bv8>, h: nat, i: nat, b: seq<bv8>) {
    h * i + h <= |s| && s[h * i..h * i + h] == b
  }

  lemma PartInFront(s: seq<bv8>, t: seq<bv8>, h: nat, i: nat, b: seq<bv8>)
    requires PartIs(s, h, i, b)
    ensures PartIs(s + t, h, i, b)
  {
  }

  lemma PartAtEnd(s: seq<bv8>, h: nat, i: nat, b: seq<bv8>)
    requires |s| == i * h && |b| == h
    ensures PartIs(s + b, h, i, b)
  {
    assert h * i == i * h;
  }

  lemma {:induction false} BlocksAt(f: Hash, w: Width, pw: seq<bv8>, salt: seq<bv8>, c: nat, l: nat, i: nat)
    requires Good(f) && c >= 1 && i < l
    ensures PartIs(Blocks(f, w, pw, salt, c, l), f.hashSize, i, Block(f, w, pw, salt, i + 1, c))
  {
    hide Block, PartIs;
    var s, b := Blocks(f, w, pw, salt, c, l - 1), Block(f, w, pw, salt, l, c);
    if i < l - 1 {
      BlocksAt(f, w, pw, salt, c, l - 1, i);
      PartInFront(s, b, f.hashSize, i, Block(f, w, pw, salt, i + 1, c));
    } else {
      PartAtEnd(s, f.hashSize, i, b);
    }
  }
}
