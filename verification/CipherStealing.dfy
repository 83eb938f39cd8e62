// CBC with ciphertext stealing over a block cipher: decryption undoes encryption at every
// length from one block on, in place or into another buffer.

module CipherStealing {
  const BLOCK: nat := 16

  // A block cipher under one key: a permutation of blocks and its inverse.
  datatype Cipher = Cipher(enc: seq<bv8> -> seq<bv8>, dec: seq<bv8> -> seq<bv8>)

  ghost predicate IsBlock(b: seq<bv8>) {
    |b| == BLOCK
  }

  ghost predicate Inverse(c: Cipher) {
    (forall b :: IsBlock(b) ==> IsBlock(c.enc(b)) && c.dec(c.enc(b)) == b) &&
    (forall b :: IsBlock(b) ==> IsBlock(c.dec(b)) && c.enc(c.dec(b)) == b)
  }

  lemma InverseAt(c: Cipher, b: seq<bv8>)
    requires Inverse(c) && |b| == BLOCK
    ensures |c.enc(b)| == BLOCK && c.dec(c.enc(b)) == b && |c.dec(b)| == BLOCK && c.enc(c.dec(b)) == b
  {
    assert IsBlock(b);
  }

  function Xor(s: seq<bv8>, t: seq<bv8>): (r: seq<bv8>)
    requires |s| == |t|
    ensures |r| == |s|
  {
    seq(|s|, k requires 0 <= k < |s| => s[k] ^ t[k])
  }

  lemma XorTwice(s: seq<bv8>, t: seq<bv8>)
    requires |s| == |t|
    ensures Xor(Xor(s, t), t) == s && Xor(t, Xor(t, s)) == s
  {
    forall k | 0 <= k < |s|
      ensures Xor(Xor(s, t), t)[k] == s[k] && Xor(t, Xor(t, s))[k] == s[k]
    {
      BitsTwice(s[k], t[k]);
    }
  }

  lemma BitsTwice(a: bv8, b: bv8)
    ensures (a ^ b) ^ b == a && b ^ (b ^ a) == a
  {
  }

  function Zeros(n: nat): (s: seq<bv8>)
    ensures |s| == n
  {
    seq(n, _ => 0)
  }

  function BlockAt(s: seq<bv8>, k: nat): (b: seq<bv8>)
    requires BLOCK * (k + 1) <= |s|
    ensures |b| == BLOCK
  {
    s[BLOCK * k..BLOCK * (k + 1)]
  }

  // The block before block k, or the initial vector.
  function Before(iv: seq<bv8>, s: seq<bv8>, k: nat): (b: seq<bv8>)
    requires |iv| == BLOCK && BLOCK * k <= |s|
    ensures |b| == BLOCK
  {
    if k == 0 then iv else BlockAt(s, k - 1)
  }

  // The first k blocks encrypted.
  ghost function Chained(c: Cipher, iv: seq<bv8>, p: seq<bv8>, k: nat): (s: seq<bv8>)
    requires Inverse(c) && |iv| == BLOCK && BLOCK * k <= |p|
    ensures |s| == BLOCK * k
  {
    if k == 0 then []
    else
      var s := Chained(c, iv, p, k - 1);
      InverseAt(c, Xor(BlockAt(p, k - 1), Before(iv, s, k - 1)));
      s + c.enc(Xor(BlockAt(p, k - 1), Before(iv, s, k - 1)))
  }

  // The first k blocks decrypted.
  ghost function Unchained(c: Cipher, iv: seq<bv8>, s: seq<bv8>, k: nat): (p: seq<bv8>)
    requires Inverse(c) && |iv| == BLOCK && BLOCK * k <= |s|
    ensures |p| == BLOCK * k
  {
    if k == 0 then []
    else
      InverseAt(c, BlockAt(s, k - 1));
      Unchained(c, iv, s, k - 1) + Xor(c.dec(BlockAt(s, k - 1)), Before(iv, s, k - 1))
  }

  // A fragment at the end takes the place of the last block's rest: it is padded, encrypted
  // into that place, and the block's own beginning stands for it.
  ghost function Encrypted(c: Cipher, iv: seq<bv8>, p: seq<bv8>): (s: seq<bv8>)
    requires Inverse(c) && |iv| == BLOCK && (|p| % BLOCK == 0 || |p| >= BLOCK)
    ensures |s| == |p|
  {
    var n, f := |p| / BLOCK, |p| % BLOCK;
    var s := Chained(c, iv, p, n);
    if f == 0 then s
    else
      var stolen := BlockAt(s, n - 1);
      InverseAt(c, Xor(p[BLOCK * n..] + Zeros(BLOCK - f), stolen));
      s[..BLOCK * (n - 1)] + c.enc(Xor(p[BLOCK * n..] + Zeros(BLOCK - f), stolen)) + stolen[..f]
  }

  ghost function Decrypted(c: Cipher, iv: seq<bv8>, s: seq<bv8>): (p: seq<bv8>)
    requires Inverse(c) && |iv| == BLOCK && (|s| % BLOCK == 0 || |s| >= BLOCK)
    ensures |p| == |s|
  {
    var n, f := |s| / BLOCK, |s| % BLOCK;
    if f == 0 then Unchained(c, iv, s, n)
    else
      var d := c.dec(BlockAt(s, n - 1));
      InverseAt(c, BlockAt(s, n - 1));
      var stolen := s[BLOCK * n..] + d[f..];
      InverseAt(c, stolen);
      Unchained(c, iv, s, n - 1) + Xor(c.dec(stolen), Before(iv, s, n - 1)) + Xor(d, stolen)[..f]
  }

  // ----- Decryption undoes encryption -----

  lemma ChainedMore(c: Cipher, iv: seq<bv8>, p: seq<bv8>, k: nat)
    requires Inverse(c) && |iv| == BLOCK && 0 < k && BLOCK * k <= |p|
    ensures Chained(c, iv, p, k - 1) <= Chained(c, iv, p, k)
  {
    hide Inverse, Xor;
  }

  lemma {:induction false} ChainPrefix(c: Cipher, iv: seq<bv8>, p: seq<bv8>, j: nat, k: nat)
    requires Inverse(c) && |iv| == BLOCK && j <= k && BLOCK * k <= |p|
    ensures Chained(c, iv, p, j) <= Chained(c, iv, p, k)
    decreases k
  {
    hide *;
    if j < k {
      ChainPrefix(c, iv, p, j, k - 1);
      ChainedMore(c, iv, p, k);
    }
  }

  // Whatever follows them, k encrypted blocks are decrypted to the blocks they were.
  lemma {:induction false} Unchains(c: Cipher, iv: seq<bv8>, p: seq<bv8>, s: seq<bv8>, k: nat)
    requires Inverse(c) && |iv| == BLOCK && BLOCK * k <= |p| && BLOCK * k <= |s| && s[..BLOCK * k] == Chained(c, iv, p, k)
    ensures Unchained(c, iv, s, k) == p[..BLOCK * k]
  {
    hide Inverse, Xor;
    if k > 0 {
      var t := Chained(c, iv, p, k - 1);
      assert t == Chained(c, iv, p, k)[..BLOCK * (k - 1)] == s[..BLOCK * (k - 1)];
      Unchains(c, iv, p, s, k - 1);
      var x := Xor(BlockAt(p, k - 1), Before(iv, t, k - 1));
      assert BlockAt(s, k - 1) == c.enc(x) by { assert BlockAt(s, k - 1) == s[..BLOCK * k][BLOCK * (k - 1)..]; }
      SameBefore(iv, s, t, k - 1);
      InverseAt(c, x);
      XorTwice(BlockAt(p, k - 1), Before(iv, t, k - 1));
      assert p[..BLOCK * k] == p[..BLOCK * (k - 1)] + BlockAt(p, k - 1);
    }
  }

  lemma SameBefore(iv: seq<bv8>, s: seq<bv8>, t: seq<bv8>, k: nat)
    requires |iv| == BLOCK && BLOCK * k == |t| && t <= s
    ensures Before(iv, s, k) == Before(iv, t, k)
  {
    if k > 0 {
      assert s[BLOCK * (k - 1)..BLOCK * k] == s[..|t|][BLOCK * (k - 1)..BLOCK * k];
    }
  }

  // The rest of the stolen block comes back from the padding.
  lemma StolenBlock(fragment: seq<bv8>, stolen: seq<bv8>)
    requires |stolen| == BLOCK && |fragment| < BLOCK
    ensures var x := Xor(fragment + Zeros(BLOCK - |fragment|), stolen);
            stolen[..|fragment|] + x[|fragment|..] == stolen && Xor(x, stolen)[..|fragment|] == fragment
  {
    var x := Xor(fragment + Zeros(BLOCK - |fragment|), stolen);
    XorTwice(fragment + Zeros(BLOCK - |fragment|), stolen);
    forall k | |fragment| <= k < BLOCK
      ensures x[k] == stolen[k]
    {
      NoBits(stolen[k]);
    }
  }

  lemma NoBits(b: bv8)
    ensures 0 ^ b == b
  {
  }

  // Every block but a stolen one is the encryption of the text combined with the block before it,
  // the first with the initial vector.
  lemma BlocksAre(c: Cipher, iv: seq<bv8>, p: seq<bv8>, k: nat)
    requires Inverse(c) && |iv| == BLOCK && (|p| % BLOCK == 0 || |p| >= BLOCK)
    requires k < |p| / BLOCK && (|p| % BLOCK > 0 ==> k + 1 < |p| / BLOCK)
    ensures var s := Encrypted(c, iv, p);
            s[16 * k..16 * k + 16] == c.enc(Xor(p[16 * k..16 * k + 16], if k == 0 then iv else s[16 * k - 16..16 * k]))
  {
    hide Inverse, Xor;
    var n := |p| / BLOCK;
    var s, t := Encrypted(c, iv, p), Chained(c, iv, p, n);
    ChainedBlock(c, iv, p, k, n);
    assert s[..16 * k + 16] == t[..16 * k + 16] by {
      assert s[..16 * k + 16] == s[..if |p| % BLOCK == 0 then 16 * n else 16 * (n - 1)][..16 * k + 16];
    }
    assert s[16 * k..16 * k + 16] == s[..16 * k + 16][16 * k..] && t[16 * k..16 * k + 16] == t[..16 * k + 16][16 * k..];
    if k > 0 {
      assert s[16 * k - 16..16 * k] == s[..16 * k + 16][16 * k - 16..16 * k] && t[16 * k - 16..16 * k] == t[..16 * k + 16][16 * k - 16..16 * k];
    }
  }

  lemma {:induction false} ChainedBlock(c: Cipher, iv: seq<bv8>, p: seq<bv8>, k: nat, n: nat)
    requires Inverse(c) && |iv| == BLOCK && k < n && BLOCK * n <= |p|
    ensures var s := Chained(c, iv, p, n);
            s[16 * k..16 * k + 16] == c.enc(Xor(p[16 * k..16 * k + 16], if k == 0 then iv else s[16 * k - 16..16 * k]))
    decreases n
  {
    hide Inverse, Xor;
    var s, t := Chained(c, iv, p, n), Chained(c, iv, p, n - 1);
    assert t == s[..16 * (n - 1)] && |t| == 16 * (n - 1);
    if k < n - 1 {
      ChainedBlock(c, iv, p, k, n - 1);
      assert s[16 * k..16 * k + 16] == t[16 * k..16 * k + 16];
      assert k > 0 ==> s[16 * k - 16..16 * k] == t[16 * k - 16..16 * k];
    } else {
      assert s[16 * k..16 * k + 16] == c.enc(Xor(BlockAt(p, k), Before(iv, t, k)));
      assert k > 0 ==> s[16 * k - 16..16 * k] == t[16 * k - 16..16 * k];
    }
  }

  // With a fragment of f bytes behind n blocks, the last block of all goes to the end, cut to f
  // bytes, and in its place stands the padded fragment, combined with it and encrypted.
  lemma StolenAre(c: Cipher, iv: seq<bv8>, p: seq<bv8>, last: seq<bv8>, padded: seq<bv8>)
    requires Inverse(c) && |iv| == BLOCK && |p| >= BLOCK && |p| % BLOCK > 0 && |last| == |padded| == BLOCK
    requires last == Encrypted(c, iv, p[..|p| - |p| % BLOCK])[|p| - |p| % BLOCK - 16..]
    requires padded[..|p| % BLOCK] == p[|p| - |p| % BLOCK..] && forall k :: |p| % BLOCK <= k < BLOCK ==> padded[k] == 0
    ensures var s, m := Encrypted(c, iv, p), |p| - |p| % BLOCK;
            s[m - 16..m] == c.enc(Xor(padded, last)) && s[m..] == last[..|p| % BLOCK] &&
            s[..m - 16] == Encrypted(c, iv, p[..m])[..m - 16]
  {
    hide Inverse, Xor;
    var n, f := |p| / BLOCK, |p| % BLOCK;
    var m := BLOCK * n;
    FrontChained(c, iv, p, n);
    assert padded == p[m..] + Zeros(BLOCK - f);
    assert last == BlockAt(Chained(c, iv, p, n), n - 1);
    InverseAt(c, Xor(padded, last));
  }

  // The chain does not look ahead.
  lemma {:induction false} FrontChained(c: Cipher, iv: seq<bv8>, p: seq<bv8>, n: nat)
    requires Inverse(c) && |iv| == BLOCK && BLOCK * n <= |p|
    ensures Encrypted(c, iv, p[..BLOCK * n]) == Chained(c, iv, p, n)
  {
    hide Inverse, Xor;
    SameChain(c, iv, p, p[..BLOCK * n], n);
  }

  lemma {:induction false} SameChain(c: Cipher, iv: seq<bv8>, p: seq<bv8>, q: seq<bv8>, n: nat)
    requires Inverse(c) && |iv| == BLOCK && BLOCK * n <= |p| && BLOCK * n <= |q| && p[..BLOCK * n] == q[..BLOCK * n]
    ensures Chained(c, iv, p, n) == Chained(c, iv, q, n)
  {
    hide Inverse, Xor;
    if n > 0 {
      assert p[..BLOCK * (n - 1)] == p[..BLOCK * n][..BLOCK * (n - 1)] && q[..BLOCK * (n - 1)] == q[..BLOCK * n][..BLOCK * (n - 1)];
      SameChain(c, iv, p, q, n - 1);
      assert BlockAt(p, n - 1) == p[..BLOCK * n][BLOCK * (n - 1)..] && BlockAt(q, n - 1) == q[..BLOCK * n][BLOCK * (n - 1)..];
    }
  }

  lemma RoundTrip(c: Cipher, iv: seq<bv8>, p: seq<bv8>)
    requires Inverse(c) && |iv| == BLOCK && (|p| % BLOCK == 0 || |p| >= BLOCK)
    ensures Decrypted(c, iv, Encrypted(c, iv, p)) == p
  {
    hide Inverse, Xor, Chained, Unchained;
    var n, f := |p| / BLOCK, |p| % BLOCK;
    var s, e := Chained(c, iv, p, n), Encrypted(c, iv, p);
    if f == 0 {
      assert s[..BLOCK * n] == s;
      Unchains(c, iv, p, s, n);
      assert p[..BLOCK * n] == p;
    } else {
      var stolen, fragment := BlockAt(s, n - 1), p[BLOCK * n..];
      var x := Xor(fragment + Zeros(BLOCK - f), stolen);
      InverseAt(c, x);
      StolenBlock(fragment, stolen);
      ChainPrefix(c, iv, p, n - 1, n);
      var t := Chained(c, iv, p, n - 1);
      assert e == t + c.enc(x) + stolen[..f];
      assert BlockAt(e, n - 1) == c.enc(x) && e[BLOCK * n..] == stolen[..f] && e[..BLOCK * (n - 1)] == t;
      Unchains(c, iv, p, e, n - 1);
      LastBlock(c, iv, p, e, n - 1);
      assert p == p[..BLOCK * (n - 1)] + BlockAt(p, n - 1) + fragment;
    }
  }

  lemma LastBlock(c: Cipher, iv: seq<bv8>, p: seq<bv8>, e: seq<bv8>, k: nat)
    requires Inverse(c) && |iv| == BLOCK && BLOCK * (k + 1) <= |p| && BLOCK * k <= |e| && e[..BLOCK * k] == Chained(c, iv, p, k)
    ensures Xor(c.dec(BlockAt(Chained(c, iv, p, k + 1), k)), Before(iv, e, k)) == BlockAt(p, k)
  {
    var t := Chained(c, iv, p, k);
    var x := Xor(BlockAt(p, k), Before(iv, t, k));
    InverseAt(c, x);
    assert BlockAt(Chained(c, iv, p, k + 1), k) == c.enc(x);
    SameBefore(iv, e, t, k);
    XorTwice(BlockAt(p, k), Before(iv, t, k));
  }

  // ----- The buffers -----

  method Load(a: array<bv8>, at: nat, n: nat) returns (s: seq<bv8>)
    requires at + n <= a.Length
    ensures s == a[at..at + n]
  {
    s := a[at..at + n];
  }

  method Store(a: array<bv8>, at: nat, s: seq<bv8>)
    requires at + |s| <= a.Length
    modifies a
    ensures a[..at] == old(a[..at]) && a[at..at + |s|] == s && a[at + |s|..] == old(a[at + |s|..])
  {
    for i := 0 to |s|
      invariant a[..at] == old(a[..at]) && a[at..at + i] == s[..i] && a[at + i..] == old(a[at + i..])
    {
      assert old(a[at + i..])[1..] == old(a[at + i + 1..]);
      a[at + i] := s[i];
    }
  }

  // The loop over whole blocks of aesEncryptCBC
  method EncryptBlocks(c: Cipher, input: array<bv8>, out: array<bv8>, iv: seq<bv8>, n: nat) returns (feedback: seq<bv8>)
    requires Inverse(c) && |iv| == BLOCK && BLOCK * n <= input.Length && BLOCK * n <= out.Length
    modifies out
    ensures out[..BLOCK * n] == Chained(c, iv, old(input[..]), n) && out[BLOCK * n..] == old(out[BLOCK * n..])
    ensures feedback == Before(iv, out[..BLOCK * n], n) && input[BLOCK * n..] == old(input[BLOCK * n..])
  {
    hide Inverse, Xor, BlockAt, Chained, Before;
    feedback := iv;
    ghost var p, o := input[..], out[..];
    NoneChained(c, iv, p, out[..0]);
    for i := 0 to n
      invariant out[..BLOCK * i] == Chained(c, iv, p, i) && out[BLOCK * i..] == o[BLOCK * i..] && feedback == Before(iv, out[..BLOCK * i], i) && |feedback| == BLOCK
      invariant input[BLOCK * i..] == p[BLOCK * i..]
    {
      DropBlock(input[..], i);
      DropBlock(p, i);
      DropBlock(o, i);
      ghost var was := out[..BLOCK * i];
      feedback := EncryptBlock(c, input, out, BLOCK * i, feedback, BlockAt(p, i));
      OneChained(c, iv, p, was, feedback, i);
    }
  }

  // The blocks from block i on, without that block.
  lemma DropBlock(s: seq<bv8>, i: nat)
    requires BLOCK * (i + 1) <= |s|
    ensures BlockAt(s, i) == s[BLOCK * i..BLOCK * i + BLOCK] == s[BLOCK * i..][..BLOCK] && s[BLOCK * i..][BLOCK..] == s[BLOCK * (i + 1)..]
  {
  }

  lemma NoneChained(c: Cipher, iv: seq<bv8>, p: seq<bv8>, s: seq<bv8>)
    requires Inverse(c) && |iv| == BLOCK && s == []
    ensures s == Chained(c, iv, p, 0) && Before(iv, s, 0) == iv
  {
  }

  lemma OneChained(c: Cipher, iv: seq<bv8>, p: seq<bv8>, s: seq<bv8>, b: seq<bv8>, i: nat)
    requires Inverse(c) && |iv| == BLOCK && BLOCK * (i + 1) <= |p| && s == Chained(c, iv, p, i) && |b| == BLOCK
    requires b == c.enc(Xor(BlockAt(p, i), Before(iv, s, i)))
    ensures s + b == Chained(c, iv, p, i + 1) && b == Before(iv, s + b, i + 1)
  {
    hide Inverse, Xor;
  }

  method EncryptBlock(c: Cipher, input: array<bv8>, out: array<bv8>, at: nat, feedback: seq<bv8>, ghost b: seq<bv8>) returns (s: seq<bv8>)
    requires Inverse(c) && |feedback| == BLOCK && at + BLOCK <= input.Length && at + BLOCK <= out.Length && input[at..at + BLOCK] == b
    modifies out
    ensures |s| == BLOCK && s == c.enc(Xor(b, feedback)) && out[..at + BLOCK] == old(out[..at]) + s
    ensures out[at + BLOCK..] == old(out[at + BLOCK..]) && input[at + BLOCK..] == old(input[at + BLOCK..])
  {
    hide Inverse, Xor;
    var data := Load(input, at, BLOCK);
    InverseAt(c, Xor(data, feedback));
    s := c.enc(Xor(data, feedback));
    Store(out, at, s);
    assert out[..at + BLOCK] == out[..at] + out[at..at + BLOCK];
  }

  // aesEncryptCBC: out may be the input buffer itself.
  method EncryptCBC(c: Cipher, input: array<bv8>, out: array<bv8>, iv: seq<bv8>, length: nat)
    requires Inverse(c) && |iv| == BLOCK && length <= input.Length && length <= out.Length && (length % BLOCK == 0 || length >= BLOCK)
    modifies out
    ensures out[..length] == Encrypted(c, iv, old(input[..length])) && out[length..] == old(out[length..])
  {
    hide Inverse, Xor, Chained, Encrypted;
    var numBlocks, lenFrag := length / BLOCK, length % BLOCK;
    ghost var p, o, whole := input[..length], out[..], input[..];
    var feedback := EncryptBlocks(c, input, out, iv, numBlocks);
    ChainedFront(c, iv, whole, p, numBlocks);
    ghost var s := out[..BLOCK * numBlocks];
    if lenFrag > 0 {
      assert input[BLOCK * numBlocks..length] == input[BLOCK * numBlocks..][..lenFrag] == whole[BLOCK * numBlocks..][..lenFrag] == p[BLOCK * numBlocks..];
      EncryptFragment(c, input, out, numBlocks, lenFrag, feedback, p, s, o);
    }
    EncryptedIs(c, iv, p);
    assert lenFrag == 0 ==> out[..length] == s;
  }

  lemma EncryptedIs(c: Cipher, iv: seq<bv8>, p: seq<bv8>)
    requires Inverse(c) && |iv| == BLOCK && (|p| % BLOCK == 0 || |p| >= BLOCK)
    ensures var n, f := |p| / BLOCK, |p| % BLOCK;
            var s := Chained(c, iv, p, n);
            |s| == BLOCK * n && Encrypted(c, iv, p) == if f == 0 then s else WithFragment(c, s, p[BLOCK * n..], n)
  {
    hide Inverse, Xor, Chained;
  }

  // The whole blocks s followed by a stolen one.
  ghost function WithFragment(c: Cipher, s: seq<bv8>, fragment: seq<bv8>, n: nat): seq<bv8>
    requires |s| == BLOCK * n && n > 0 && |fragment| < BLOCK
  {
    s[..BLOCK * (n - 1)] + c.enc(Xor(fragment + Zeros(BLOCK - |fragment|), BlockAt(s, n - 1))) + BlockAt(s, n - 1)[..|fragment|]
  }

  lemma TwoSlices(s: seq<bv8>, x: nat, y: nat, z: nat)
    requires x <= y <= z <= |s|
    ensures s[x..z] == s[x..y] + s[y..z]
  {
  }

  // A block and what stands for the stolen rest of the one before it.
  method StoreBoth(out: array<bv8>, at: nat, x: seq<bv8>, y: seq<bv8>)
    requires at + |x| + |y| <= out.Length
    modifies out
    ensures out[..at] == old(out[..at]) && out[at..at + |x| + |y|] == x + y && out[at + |x| + |y|..] == old(out[at + |x| + |y|..])
  {
    ghost var o := out[..];
    Store(out, at, x);
    ghost var w := out[..];
    assert w[at + |x| + |y|..] == w[at + |x|..][|y|..] == o[at + |x|..][|y|..] == o[at + |x| + |y|..];
    Store(out, at + |x|, y);
    assert out[..at] == w[..at + |x|][..at] && out[at..at + |x|] == w[..at + |x|][at..] == w[at..at + |x|] == x;
    TwoSlices(out[..], at, at + |x|, at + |x| + |y|);
  }

  // The stealing part of aesEncryptCBC
  method EncryptFragment(c: Cipher, input: array<bv8>, out: array<bv8>, numBlocks: nat, lenFrag: nat, feedback: seq<bv8>,
                         ghost p: seq<bv8>, ghost s: seq<bv8>, ghost o: seq<bv8>)
    requires Inverse(c) && 0 < lenFrag < BLOCK && 0 < numBlocks && |p| == BLOCK * numBlocks + lenFrag <= input.Length && |p| <= out.Length == |o|
    requires input[BLOCK * numBlocks..|p|] == p[BLOCK * numBlocks..] && out[..BLOCK * numBlocks] == s && out[BLOCK * numBlocks..] == o[BLOCK * numBlocks..]
    requires feedback == BlockAt(s, numBlocks - 1)
    modifies out
    ensures out[..|p|] == WithFragment(c, s, p[BLOCK * numBlocks..], numBlocks) && out[|p|..] == o[|p|..]
  {
    hide Inverse, Xor;
    var at := BLOCK * (numBlocks - 1);
    var lastblock := Load(out, at, lenFrag);
    assert lastblock == s[at..at + lenFrag] == BlockAt(s, numBlocks - 1)[..lenFrag];
    var partialblock := Load(input, BLOCK * numBlocks, lenFrag);
    var data := partialblock + Zeros(BLOCK - lenFrag);
    InverseAt(c, Xor(data, feedback));
    var stolen := c.enc(Xor(data, feedback));
    assert out[..at] == s[..at] && out[|p|..] == o[BLOCK * numBlocks..][lenFrag..];
    StoreBoth(out, at, stolen, lastblock);
    assert out[..|p|] == out[..at] + out[at..|p|];
  }

  lemma {:induction false} ChainedFront(c: Cipher, iv: seq<bv8>, whole: seq<bv8>, p: seq<bv8>, k: nat)
    requires Inverse(c) && |iv| == BLOCK && p <= whole && BLOCK * k <= |p|
    ensures Chained(c, iv, whole, k) == Chained(c, iv, p, k)
  {
    hide Inverse, Xor;
    if k > 0 {
      ChainedFront(c, iv, whole, p, k - 1);
      assert whole[..|p|] == p;
      assert BlockAt(whole, k - 1) == whole[..|p|][BLOCK * (k - 1)..BLOCK * k] == BlockAt(p, k - 1);
    }
  }

  // The loop over whole blocks of aesDecryptCBC
  method DecryptBlocks(c: Cipher, input: array<bv8>, out: array<bv8>, iv: seq<bv8>, n: nat, ghost s: seq<bv8>)
    requires Inverse(c) && |iv| == BLOCK && BLOCK * n <= input.Length && BLOCK * n <= out.Length
    requires BLOCK * n <= |s| && input[..BLOCK * n] == s[..BLOCK * n]
    modifies out
    ensures out[..BLOCK * n] == Unchained(c, iv, s, n) && out[BLOCK * n..] == old(out[BLOCK * n..])
  {
    hide Inverse, Xor, BlockAt;
    var feedback := iv;
    ghost var o := out[..];
    for i := 0 to n
      invariant out[..BLOCK * i] == Unchained(c, iv, s, i) && out[BLOCK * i..] == o[BLOCK * i..] && feedback == Before(iv, s, i)
      invariant input[BLOCK * i..BLOCK * n] == s[BLOCK * i..BLOCK * n]
    {
      ghost var b := BlockAt(s, i);
      BlockIs(s, i, n);
      assert input[..][BLOCK * i..BLOCK * n] == input[BLOCK * i..BLOCK * n];
      FirstOf(input[..], BLOCK * i, BLOCK * n);
      feedback := DecryptBlock(c, input, out, BLOCK * i, feedback, b);
      assert o[BLOCK * (i + 1)..] == o[BLOCK * i..][BLOCK..];
      assert input[BLOCK * (i + 1)..BLOCK * n] == input[BLOCK * (i + 1)..][..BLOCK * (n - i - 1)];
    }
  }

  lemma FirstOf(s: seq<bv8>, x: nat, y: nat)
    requires x + BLOCK <= y <= |s|
    ensures s[x..y][..BLOCK] == s[x..x + BLOCK]
  {
  }

  lemma BlockIs(s: seq<bv8>, i: nat, n: nat)
    requires i < n && BLOCK * n <= |s|
    ensures s[BLOCK * i..BLOCK * n][..BLOCK] == BlockAt(s, i) && s[BLOCK * i..BLOCK * n][BLOCK..] == s[BLOCK * (i + 1)..BLOCK * n]
  {
  }

  method DecryptBlock(c: Cipher, input: array<bv8>, out: array<bv8>, at: nat, feedback: seq<bv8>, ghost b: seq<bv8>) returns (lastIn: seq<bv8>)
    requires Inverse(c) && |feedback| == BLOCK && at + BLOCK <= input.Length && at + BLOCK <= out.Length && input[at..at + BLOCK] == b
    modifies out
    ensures |c.dec(b)| == BLOCK && lastIn == b && out[..at + BLOCK] == old(out[..at]) + Xor(c.dec(b), feedback)
    ensures out[at + BLOCK..] == old(out[at + BLOCK..]) && input[at + BLOCK..] == old(input[at + BLOCK..])
  {
    hide Inverse, Xor;
    lastIn := Load(input, at, BLOCK);
    InverseAt(c, lastIn);
    var data := Xor(c.dec(lastIn), feedback);
    Store(out, at, data);
    assert out[..at + BLOCK] == out[..at] + out[at..at + BLOCK];
  }

  // The stolen part of aesDecryptCBC: the last whole block and the fragment behind it.
  method DecryptStolen(c: Cipher, input: array<bv8>, out: array<bv8>, iv: seq<bv8>, length: nat, numBlocks: nat)
    requires Inverse(c) && |iv| == BLOCK && length <= input.Length && length <= out.Length
    requires length % BLOCK > 0 && length >= BLOCK && numBlocks == length / BLOCK - 1
    modifies out
    ensures out[BLOCK * numBlocks..length] == Decrypted(c, iv, old(input[..length]))[BLOCK * numBlocks..]
    ensures out[..BLOCK * numBlocks] == old(out[..BLOCK * numBlocks]) && out[length..] == old(out[length..])
  {
    hide Inverse, Xor, Decrypted;
    ghost var s := input[..length];
    var lenFrag, offset := length % BLOCK, BLOCK * numBlocks;
    var lastIn := Load(input, offset, BLOCK);
    assert lastIn == s[offset..offset + BLOCK] == BlockAt(s, numBlocks);
    InverseAt(c, lastIn);
    var data := c.dec(lastIn);
    var fragment := Load(input, offset + BLOCK, lenFrag);
    assert fragment == s[offset + BLOCK..];
    var partialblock := fragment + data[lenFrag..];
    var lastblock := Xor(data, partialblock);
    InverseAt(c, partialblock);
    data := c.dec(partialblock);
    var feedback := iv;
    if numBlocks > 0 {
      feedback := Load(input, BLOCK * (numBlocks - 1), BLOCK);
    }
    assert feedback == Before(iv, s, numBlocks);
    data := Xor(data, feedback);
    StoreBoth(out, offset, data, lastblock[..lenFrag]);
    EndOfDecrypted(c, iv, s, numBlocks, partialblock);
  }

  lemma EndOfDecrypted(c: Cipher, iv: seq<bv8>, s: seq<bv8>, n: nat, stolen: seq<bv8>)
    requires Inverse(c) && |iv| == BLOCK && |s| % BLOCK > 0 && |s| >= BLOCK && n == |s| / BLOCK - 1
    requires |c.dec(BlockAt(s, n))| == BLOCK && stolen == s[BLOCK * n + BLOCK..] + c.dec(BlockAt(s, n))[|s| % BLOCK..] && |c.dec(stolen)| == BLOCK
    ensures Decrypted(c, iv, s)[BLOCK * n..] == Xor(c.dec(stolen), Before(iv, s, n)) + Xor(c.dec(BlockAt(s, n)), stolen)[..|s| % BLOCK]
  {
    hide Inverse, Xor, Unchained;
    var head := Unchained(c, iv, s, n);
    assert |head| == BLOCK * n by { UnchainedLength(c, iv, s, n); }
  }

  lemma UnchainedLength(c: Cipher, iv: seq<bv8>, s: seq<bv8>, n: nat)
    requires Inverse(c) && |iv| == BLOCK && BLOCK * n <= |s|
    ensures |Unchained(c, iv, s, n)| == BLOCK * n
  {
  }

  // aesDecryptCBC: out may be the input buffer itself.
  method DecryptCBC(c: Cipher, input: array<bv8>, out: array<bv8>, iv: seq<bv8>, length: nat)
    requires Inverse(c) && |iv| == BLOCK && length <= input.Length && length <= out.Length && (length % BLOCK == 0 || length >= BLOCK)
    modifies out
    ensures out[..length] == Decrypted(c, iv, old(input[..length])) && out[length..] == old(out[length..])
  {
    hide Inverse, Xor, Unchained, Decrypted;
    var numBlocks := length / BLOCK;
    ghost var s := input[..length];
    if length % BLOCK > 0 {
      numBlocks := numBlocks - 1;
      DecryptStolen(c, input, out, iv, length, numBlocks);
    }
    ghost var k, o := BLOCK * numBlocks, out[..];
    assert input[..k] == s[..k];
    DecryptBlocks(c, input, out, iv, numBlocks, s);
    StartOfDecrypted(c, iv, s, numBlocks);
    SameTail(out[..], o, k, length);
  }

  lemma StartOfDecrypted(c: Cipher, iv: seq<bv8>, s: seq<bv8>, n: nat)
    requires Inverse(c) && |iv| == BLOCK && (|s| % BLOCK == 0 || |s| >= BLOCK) && n == |s| / BLOCK - (if |s| % BLOCK == 0 then 0 else 1)
    ensures BLOCK * n <= |s| && Decrypted(c, iv, s) == Unchained(c, iv, s, n) + Decrypted(c, iv, s)[BLOCK * n..]
  {
    hide Inverse, Xor, Unchained;
    UnchainedLength(c, iv, s, n);
    var d := Decrypted(c, iv, s);
    assert d[..BLOCK * n] == Unchained(c, iv, s, n);
  }

  lemma SameTail(s: seq<bv8>, o: seq<bv8>, k: nat, n: nat)
    requires k <= n <= |s| == |o| && s[k..] == o[k..]
    ensures s[..n] == s[..k] + o[k..n] && s[n..] == o[n..]
  {
    assert s[k..][..n - k] == o[k..][..n - k] && s[k..][n - k..] == o[k..][n - k..];
  }
}
