// The hash contexts of the repository, fed piece by piece: blocks are compressed as soon as
// they are full, and the end is padded with a length of 32 bits.

module HashContext {
  import opened Ints
  import opened Bits
  import opened HashSpec

  function Min(a: nat, b: nat): nat {
    if a <= b then a else b
  }

  // ----- The hash that the code computes -----

  lemma {:induction false} BigEndianOfSmall(v: nat, k: nat, n: nat)
    requires k <= n && v < Power(k)
    ensures BigEndian(v, n) == Zeros(n - k) + BigEndian(v, k)
    decreases k
  {
    if k == 0 {
      BigEndianOfZero(n);
      assert v == 0;
    } else {
      BigEndianOfSmall(v / 256, k - 1, n - 1);
      assert Zeros(n - k) + BigEndian(v / 256, k - 1) + [(v % 256) as bv8] == Zeros(n - k) + (BigEndian(v / 256, k - 1) + [(v % 256) as bv8]);
    }
  }

  lemma {:induction false} BigEndianOfZero(n: nat)
    ensures BigEndian(0, n) == Zeros(n)
  {
    if n > 0 {
      BigEndianOfZero(n - 1);
    }
  }

  lemma {:induction false} BigEndianInjective(v: nat, w: nat, n: nat)
    requires v < Power(n) && w < Power(n) && BigEndian(v, n) == BigEndian(w, n)
    ensures v == w
  {
    if n > 0 {
      var a, b := BigEndian(v / 256, n - 1), BigEndian(w / 256, n - 1);
      assert BigEndian(v, n)[n - 1] == (v % 256) as bv8 && BigEndian(w, n)[n - 1] == (w % 256) as bv8;
      assert a == BigEndian(v, n)[..n - 1] && b == BigEndian(w, n)[..n - 1];
      SameByte(v % 256, w % 256);
      BigEndianInjective(v / 256, w / 256, n - 1);
    }
  }

  lemma SameByte(v: nat, w: nat)
    requires v < 256 && w < 256 && v as bv8 == w as bv8
    ensures v == w
  {
    ByteBack(v);
    ByteBack(w);
  }

  lemma PowerFour()
    ensures Power(4) == TWO32
  {
    assert Power(2) == 256 * Power(1) && Power(1) == 256;
    assert Power(4) == 256 * Power(3) && Power(3) == 256 * Power(2);
  }

  lemma {:induction false} PowerMonotone(m: nat, n: nat)
    requires m <= n
    ensures Power(m) <= Power(n)
    decreases n
  {
    if m < n {
      PowerMonotone(m, n - 1);
    }
  }

  // The padding is that of the standard exactly for messages below 2^29 bytes, as far as the
  // standard's own length reaches.
  lemma PaddingExact(f: Hash, n: nat)
    requires f.blockSize > 0 && f.lengthSize >= 4 && 8 * n < Power(f.lengthSize)
    ensures Padding(f, Code, n) == Padding(f, Standard, n) <==> n < 0x2000_0000
  {
    var l, v := f.lengthSize, 8 * n % TWO32;
    hide BigEndian, Power, Gap, Good, Zeros;
    PowerFour();
    PowerMonotone(4, l);
    BigEndianOfSmall(v, 4, l);
    Remainder(8 * n);
    var g, k := [0x80] + Zeros(Gap(f, n)), Gap(f, n);
    LongZeros(k, l - 4, BigEndian(v, 4));
    assert Padding(f, Code, n) == g + BigEndian(v, l) && Padding(f, Standard, n) == g + BigEndian(8 * n, l);
    SameBehind(g, BigEndian(v, l), BigEndian(8 * n, l));
    if BigEndian(v, l) == BigEndian(8 * n, l) {
      BigEndianInjective(v, 8 * n, l);
    }
  }

  lemma Remainder(x: nat)
    ensures x % TWO32 == x <==> x < TWO32
  {
  }

  lemma LongZeros(k: nat, m: nat, t: seq<bv8>)
    ensures [0x80] + Zeros(k + m) + t == ([0x80] + Zeros(k)) + (Zeros(m) + t)
  {
    assert Zeros(k + m) == Zeros(k) + Zeros(m);
    assert ([0x80] + Zeros(k)) + (Zeros(m) + t) == [0x80] + (Zeros(k) + Zeros(m)) + t;
  }

  lemma SameBehind(g: seq<bv8>, s: seq<bv8>, t: seq<bv8>)
    ensures g + s == g + t <==> s == t
  {
    assert (g + s)[|g|..] == s && (g + t)[|g|..] == t;
  }

  lemma DigestExact(f: Hash, m: seq<bv8>)
    requires Good(f) && |m| < 0x2000_0000
    ensures Digest(f, Code, m) == Digest(f, Standard, m)
  {
    PowerFour();
    PowerMonotone(4, f.lengthSize);
    PaddingExact(f, |m|);
  }

  // ----- Iterating in pieces -----

  lemma {:induction false} IterateBoth(f: Hash, h: seq<bv8>, s: seq<bv8>, t: seq<bv8>)
    requires f.blockSize > 0 && |s| % f.blockSize == 0
    ensures Iterate(f, h, s + t) == Iterate(f, Iterate(f, h, s), t)
    decreases |s|
  {
    var n := f.blockSize;
    if |s| < n {
      assert s == [] && s + t == t;
    } else {
      assert (s + t)[..n] == s[..n] && (s + t)[n..] == s[n..] + t;
      Less(|s|, n);
      IterateBoth(f, f.comp(h, s[..n]), s[n..], t);
    }
  }

  lemma Less(x: nat, b: nat)
    requires b > 0 && x >= b
    ensures (x - b) % b == x % b
  {
    QuotientIs(x - b, b, x / b - 1, x % b);
  }

  lemma IterateOne(f: Hash, h: seq<bv8>, s: seq<bv8>)
    requires f.blockSize > 0 && |s| == f.blockSize
    ensures Iterate(f, h, s) == f.comp(h, s)
  {
    assert s[..f.blockSize] == s && s[f.blockSize..] == [];
  }

  // ----- The context -----

  lemma GoodSize(f: Hash)
    requires Good(f)
    ensures 0 < f.blockSize < TWO32
  {
  }

  // The message so far: start is compressed, and tail is less than a block.
  ghost predicate Fed(f: Hash, msg: seq<bv8>, start: seq<bv8>, tail: seq<bv8>, totLen: nat, h: seq<bv8>) {
    msg == start + tail && 0 < f.blockSize && |start| % f.blockSize == 0 && totLen == |start| % TWO32 && h == Iterate(f, f.init, start)
  }

  // What a context with len waiting bytes has been fed after one more message.
  function After(msg: seq<bv8>, len: nat, message: seq<bv8>): seq<bv8>
    requires |message| < TWO32 && len <= |msg|
  {
    if len + |message| < TWO32 then msg + message else msg[..|msg| + |message| - TWO32]
  }

  lemma FedAfter(f: Hash, msg: seq<bv8>, start: seq<bv8>, was: seq<bv8>, totLen: nat, h: seq<bv8>, message: seq<bv8>)
    requires Fed(f, msg, start, was, totLen, h) && |message| < TWO32
    ensures |was| <= |msg| && Fed(f, After(msg, |was|, message), start, After(was, |was|, message), totLen, h)
  {
    hide Iterate;
    if |was| + |message| < TWO32 {
      assert (start + was) + message == start + (was + message);
    } else {
      var k := |was| + |message| - TWO32;
      assert (start + was)[..|start| + k] == start + was[..k];
    }
  }

  lemma FrontIs(s: seq<bv8>, t: seq<bv8>)
    requires |t| <= |s| && s[0..|t|] == t
    ensures s[..|t|] == t
  {
  }

  lemma FullSum(len: nat, n: nat, b: nat)
    requires len < b < TWO32 && n < TWO32 && (len + n) % TWO32 >= b
    ensures b <= len + n < TWO32
  {
    if len + n >= TWO32 {
      QuotientIs(len + n, TWO32, 1, len + n - TWO32);
    }
  }

  lemma WholeAfter(msg: seq<bv8>, len: nat, message: seq<bv8>)
    requires len <= |msg| && len + |message| < TWO32
    ensures After(msg, len, message) == msg + message
  {
  }

  lemma OpenBuffer(buf: seq<bv8>, was: seq<bv8>, message: seq<bv8>, remLen: nat, b: nat)
    requires |was| < b <= |buf| && b < TWO32 && |message| < TWO32 && remLen == Min(|message|, b - |was|) && (|was| + |message|) % TWO32 < b
    requires buf[..|was| + remLen] == was + message[..remLen]
    ensures buf[..(|was| + |message|) % TWO32] == After(was, |was|, message)
  {
    var n := (|was| + |message|) % TWO32;
    if |was| + |message| < TWO32 {
      assert remLen == |message| && message[..remLen] == message;
    } else {
      QuotientIs(|was| + |message|, TWO32, 1, |was| + |message| - TWO32);
      assert buf[..n] == buf[..|was| + remLen][..n];
    }
  }

  lemma Reassembled(start: seq<bv8>, was: seq<bv8>, message: seq<bv8>, r: nat, k: nat)
    requires r + k <= |message|
    ensures (start + was) + message == (start + (was + message[..r]) + message[r..][..k]) + message[r..][k..]
  {
    assert message == message[..r] + (message[r..][..k] + message[r..][k..]);
  }

  lemma FedBlocks(f: Hash, msg: seq<bv8>, start: seq<bv8>, was: seq<bv8>, totLen: nat, h: seq<bv8>, message: seq<bv8>, r: nat, n: nat)
    requires Fed(f, msg, start, was, totLen, h) && r <= |message| && |was| + r == f.blockSize && r + n * f.blockSize <= |message|
    ensures var k := n * f.blockSize;
            var first, second := was + message[..r], message[r..][..k];
            |second| == k && Fed(f, msg + message, start + first + second, message[r..][k..], (totLen + (n + 1) * f.blockSize) % TWO32,
                                 Iterate(f, Iterate(f, h, first), second))
  {
    hide Iterate;
    var b, k := f.blockSize, n * f.blockSize;
    var first, second := was + message[..r], message[r..][..k];
    WholeBlocks(|start|, b, n);
    Pieces(f, start, first, second);
    Reassembled(start, was, message, r, k);
  }

  class Context {
    const f: Hash
    var h: seq<bv8>
    const block: array<bv8>   // two blocks long
    var len: nat              // bytes in block
    var totLen: nat           // bytes compressed, 32 bits
    ghost var msg: seq<bv8>   // everything fed so far

    ghost predicate Valid()
      reads this, block
    {
      Good(f) && block.Length == 2 * f.blockSize && len < f.blockSize && len <= |msg| && (|msg| - len) % f.blockSize == 0 &&
      totLen == (|msg| - len) % TWO32 && h == Iterate(f, f.init, msg[..|msg| - len]) && block[..len] == msg[|msg| - len..]
    }

    // sha1_init, sha256_init, sha512_init
    constructor (f: Hash)
      requires Good(f)
      ensures Valid() && msg == [] && this.f == f && fresh(block) && len == 0 && h == f.init
    {
      this.f, h, len, totLen, msg := f, f.init, 0, 0, [];
      block := new bv8[2 * f.blockSize](_ => 0);
    }

    // sha256_transf over n blocks
    method Transform(s: seq<bv8>, n: nat)
      requires Good(f) && |s| == n * f.blockSize
      modifies this`h
      ensures h == Iterate(f, old(h), s)
    {
      var b, rest := f.blockSize, s;
      for i := 0 to n
        invariant |rest| == (n - i) * b && Iterate(f, h, rest) == Iterate(f, old(h), s)
      {
        NextBlock(n - i, b);
        h := f.comp(h, rest[..b]);
        rest := rest[b..];
      }
    }

    // The bytes from at on.
    method Put(at: nat, s: seq<bv8>)
      requires at + |s| <= block.Length
      modifies block
      ensures block[..at] == old(block[..at]) && block[at..at + |s|] == s && block[at + |s|..] == old(block[at + |s|..])
    {
      for i := 0 to |s|
        invariant block[..at] == old(block[..at]) && block[at..at + i] == s[..i] && block[at + i..] == old(block[at + i..])
      {
        assert old(block[at + i..])[1..] == old(block[at + i + 1..]);
        block[at + i] := s[i];
      }
    }

    // sha256_update: the sum of the lengths has 32 bits; when it wraps, the message is lost and
    // with it bytes that were waiting.
    method Update(message: seq<bv8>)
      requires Valid() && |message| < TWO32
      modifies this`h, this`len, this`totLen, this`msg, block
      ensures Valid() && msg == After(old(msg), old(len), message)
    {
      hide Iterate, Good, Fed, After, Valid;
      IsValid();
      GoodSize(f);
      var b, n := f.blockSize, |message|;
      var remLen := Min(n, b - len);
      ghost var start, was := ValidFed();
      Put(len, message[..remLen]);
      assert block[..len + remLen] == block[..len] + block[len..len + remLen];
      if (len + n) % TWO32 < b {
        UpdateOpen(message, remLen, start, was);
        return;
      }
      FullSum(len, n, b);
      WholeAfter(msg, len, message);
      UpdateBlocks(message, remLen, start, was);
    }

    // The rest of it, when the sum of the lengths is less than a block.
    method UpdateOpen(message: seq<bv8>, ghost remLen: nat, ghost start: seq<bv8>, ghost was: seq<bv8>)
      requires Good(f) && block.Length == 2 * f.blockSize && Fed(f, msg, start, was, totLen, h) && len == |was| < f.blockSize
      requires |message| < TWO32 && (len + |message|) % TWO32 < f.blockSize && remLen == Min(|message|, f.blockSize - len)
      requires block[..len + remLen] == was + message[..remLen]
      modifies this`len, this`msg
      ensures Valid() && msg == After(old(msg), old(len), message)
    {
      hide Iterate, Good, Fed, After;
      GoodSize(f);
      FedAfter(f, msg, start, was, totLen, h, message);
      OpenBuffer(block[..], was, message, remLen, f.blockSize);
      msg := After(msg, len, message);
      len := (len + |message|) % TWO32;
      FedValid(start);
    }

    // The rest of it, when a block is full.
    method UpdateBlocks(message: seq<bv8>, remLen: nat, ghost start: seq<bv8>, ghost was: seq<bv8>)
      requires Good(f) && block.Length == 2 * f.blockSize && Fed(f, msg, start, was, totLen, h) && remLen <= |message|
      requires |was| + remLen == f.blockSize && 0 < f.blockSize && block[..f.blockSize] == was + message[..remLen]
      modifies this`h, this`len, this`totLen, this`msg, block
      ensures Valid() && msg == old(msg) + message
    {
      hide *;
      GoodSize(f);
      var b := f.blockSize;
      var newLen := |message| - remLen;
      var blockNb := newLen / b;
      var shifted := message[remLen..];
      QuotientFits(newLen, b);
      var last := shifted[blockNb * b..];
      FedBlocks(f, msg, start, was, totLen, h, message, remLen, blockNb);
      Transform(block[..b], 1);
      Transform(shifted[..blockNb * b], blockNb);
      Put(0, last);
      FrontIs(block[..], last);
      totLen := (totLen + (blockNb + 1) * b) % TWO32;
      len := newLen % b;
      msg := msg + message;
      FedValid(start + (was + message[..remLen]) + shifted[..blockNb * b]);
    }

    lemma IsValid()
      requires Valid()
      ensures Good(f) && block.Length == 2 * f.blockSize && len < f.blockSize && len <= |msg|
    {
      hide Good, Iterate;
    }

    lemma ValidFed() returns (start: seq<bv8>, was: seq<bv8>)
      requires Valid()
      ensures Fed(f, msg, start, was, totLen, h) && was == block[..len] && len < f.blockSize && block.Length == 2 * f.blockSize
    {
      hide Iterate;
      start, was := msg[..|msg| - len], msg[|msg| - len..];
      assert msg == start + was;
    }

    lemma FedValid(start: seq<bv8>)
      requires Good(f) && block.Length == 2 * f.blockSize && len < f.blockSize && Fed(f, msg, start, block[..len], totLen, h)
      ensures Valid()
    {
      hide Iterate;
      assert msg[..|msg| - len] == start && msg[|msg| - len..] == block[..len];
    }

    // Behind what is left of the message: zeros, the first byte of the padding and the length.
    method PutPadding(pmLen: nat, length: seq<bv8>, ghost tail: seq<bv8>)
      requires |length| == 4 && len + 5 <= pmLen <= block.Length && block[..len] == tail
      modifies block
      ensures block[..pmLen] == (tail + ([0x80] + Zeros(pmLen - len - 5))) + length
    {
      Put(len, Zeros(pmLen - len));
      block[len] := 0x80;
      ghost var padded := tail + [0x80] + Zeros(pmLen - len - 1);
      assert block[..pmLen] == padded;
      PaddedIs(tail, pmLen - len - 1, pmLen - len - 5);
      Put(pmLen - 4, length);
      assert block[..pmLen] == block[..pmLen - 4] + block[pmLen - 4..pmLen];
      assert block[..pmLen - 4] == padded[..pmLen - 4];
    }

    // sha256_final: the digest, which is left in the state as well
    method Final() returns (digest: seq<bv8>)
      requires Valid()
      modifies this`h, block
      ensures digest == h == Digest(f, Code, old(msg))
    {
      hide Iterate, Gap, BigEndian;
      var b, l := f.blockSize, f.lengthSize;
      var blockNb := if b - l - 1 < len then 2 else 1;
      var lenB := (totLen + len) * 8 % TWO32;
      var pmLen := blockNb * b;
      ghost var start, tail := msg[..|msg| - len], msg[|msg| - len..];
      GapIs(f, |msg|, len);
      LengthIs(|msg|, len, totLen);
      PutPadding(pmLen, BigEndian(lenB, 4), tail);
      assert msg == start + tail;
      Regrouped(start, tail, [0x80] + Zeros(Gap(f, |msg|) + l - 4), BigEndian(lenB, 4));
      IterateBoth(f, f.init, start, block[..pmLen]);
      Transform(block[..pmLen], blockNb);
      digest := h;
    }
  }

  lemma PaddedIs(tail: seq<bv8>, n: nat, k: nat)
    requires n == k + 4
    ensures (tail + [0x80] + Zeros(n))[..|tail| + 1 + k] == tail + ([0x80] + Zeros(k))
  {
  }

  lemma Regrouped(a: seq<bv8>, b: seq<bv8>, c: seq<bv8>, d: seq<bv8>)
    ensures (a + b) + (c + d) == a + ((b + c) + d)
  {
  }

  lemma NextBlock(n: nat, b: nat)
    requires n > 0
    ensures n * b == b + (n - 1) * b && n * b >= b
  {
  }

  lemma QuotientFits(n: nat, b: nat)
    requires b > 0
    ensures n / b * b <= n && n - n / b * b == n % b
  {
  }

  lemma SumCut(n: nat, m: nat)
    ensures (n + m) % TWO32 == (n % TWO32 + m) % TWO32
  {
  }

  lemma WholeBlocks(n: nat, b: nat, k: nat)
    requires b > 0 && n % b == 0
    ensures (n + b + k * b) % b == 0 && (k * b) % b == 0 && (n + (k + 1) * b) % TWO32 == (n % TWO32 + (k + 1) * b) % TWO32
    ensures n + (k + 1) * b == n + b + k * b
  {
    var q := n / b;
    assert n == b * q by { QuotientIs(n, b, q, 0); }
    assert n + b + k * b == b * (q + 1 + k) && (k + 1) * b == b + k * b && k * b == b * k;
    QuotientIs(n + b + k * b, b, q + 1 + k, 0);
    QuotientIs(k * b, b, k, 0);
    SumCut(n, b + k * b);
  }

  lemma Pieces(f: Hash, start: seq<bv8>, first: seq<bv8>, second: seq<bv8>)
    requires f.blockSize > 0 && |start| % f.blockSize == 0 && |first| == f.blockSize && |second| % f.blockSize == 0
    ensures Iterate(f, f.init, start + first + second) == Iterate(f, Iterate(f, Iterate(f, f.init, start), first), second)
    ensures (|start + first + second|) % f.blockSize == 0
  {
    hide Iterate;
    MultiplesAdd(|start|, |first|, f.blockSize);
    MultiplesAdd(|start + first|, |second|, f.blockSize);
    IterateBoth(f, f.init, start, first);
    IterateBoth(f, f.init, start + first, second);
  }

  lemma MultiplesAdd(x: nat, y: nat, b: nat)
    requires b > 0 && x % b == 0 && (y % b == 0 || y == b)
    ensures (x + y) % b == 0
  {
    var q := if y == b then 1 else y / b;
    assert y == b * q;
    assert x + y == b * (x / b) + b * q == b * (x / b + q) + 0;
    QuotientIs(x + y, b, x / b + q, 0);
  }

  // How many blocks the padding fills.
  lemma GapIs(f: Hash, n: nat, len: nat)
    requires Good(f) && len < f.blockSize && len <= n && (n - len) % f.blockSize == 0
    ensures len + 1 + Gap(f, n) + f.lengthSize == if f.blockSize - f.lengthSize - 1 < len then 2 * f.blockSize else f.blockSize
  {
    var b, q, x := f.blockSize, (n - len) / f.blockSize, len + 1 + f.lengthSize;
    if x <= b {
      QuotientIs(n + 1 + f.lengthSize, b, if x == b then q + 1 else q, if x == b then 0 else x);
    } else {
      QuotientIs(n + 1 + f.lengthSize, b, q + 1, x - b);
    }
  }

  lemma LengthIs(n: nat, len: nat, totLen: nat)
    requires len <= n && totLen == (n - len) % TWO32
    ensures (totLen + len) * 8 % TWO32 == 8 * n % TWO32
  {
    var q := (n - len) / TWO32;
    assert 8 * n == TWO32 * (8 * q) + (totLen + len) * 8;
    var x := (totLen + len) * 8;
    QuotientIs(8 * n, TWO32, 8 * q + x / TWO32, x % TWO32);
  }
}
