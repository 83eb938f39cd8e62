// PBKDF2 with everything precomputed that the iterations share: the states behind the two
// HMAC keys, and one block that holds the previous value and its padding.

module Pbkdf2 {
  import opened Bits
  import opened HashSpec
  import opened HashContext

  // The lengths of passwords and salts are cut to 32 bits on the way to the hash.
  function Cut32(s: seq<bv8>): (r: seq<bv8>)
    ensures |r| == |s| % TWO32 && r <= s
  {
    s[..|s| % TWO32]
  }

  // The key of at most a block that stands for the password.
  function ShortKeyOf(f: Hash, pw: seq<bv8>): (k: seq<bv8>)
    requires Good(f)
    ensures |k| <= f.blockSize
  {
    if |pw| > f.blockSize then Digest(f, Code, Cut32(pw)) else pw
  }

  // ----- HMAC -----

  // HMAC_INIT: contexts that have compressed the inner and the outer key block.
  method HmacInit(f: Hash, key: seq<bv8>) returns (inner: Context, outer: Context)
    requires Good(f)
    ensures fresh(inner) && fresh(inner.block) && fresh(outer) && fresh(outer.block) && inner != outer && inner.block != outer.block
    ensures inner.Valid() && outer.Valid() && inner.f == f && Keyed(inner, outer, ShortKeyOf(f, key))
  {
    hide *;
    var short := ShortKey(f, key);
    BlockKeyOfShort(f, short);
    var k := new bv8[f.blockSize](_ => 0);
    FillKey(k, short);
    var blkInner, blkOuter := KeyBlocks(k);
    inner := Started(f, blkInner);
    outer := Started(f, blkOuter);
    IsKeyed(inner, outer, short);
  }

  // The contexts hold the two key blocks of a key.
  ghost predicate Keyed(inner: Context, outer: Context, key: seq<bv8>)
    reads inner, outer
  {
    Good(inner.f) && inner.f == outer.f && inner.len == 0 && outer.len == 0 &&
    inner.msg == XorEach(0x36, BlockKey(inner.f, Code, key)) && outer.msg == XorEach(0x5c, BlockKey(inner.f, Code, key))
  }

  lemma IsKeyed(inner: Context, outer: Context, key: seq<bv8>)
    requires Good(inner.f) && inner.f == outer.f && inner.len == 0 && outer.len == 0
    requires inner.msg == XorEach(0x36, BlockKey(inner.f, Code, key)) && outer.msg == XorEach(0x5c, BlockKey(inner.f, Code, key))
    ensures Keyed(inner, outer, key)
  {
    hide Good, BlockKey;
  }

  lemma BlockKeyOfShort(f: Hash, key: seq<bv8>)
    requires Good(f) && |key| <= f.blockSize
    ensures BlockKey(f, Code, key) == key + Zeros(f.blockSize - |key|)
  {
    hide Digest;
  }

  // A long key is hashed.
  method ShortKey(f: Hash, key: seq<bv8>) returns (short: seq<bv8>)
    requires Good(f)
    ensures short == ShortKeyOf(f, key) && |short| <= f.blockSize
  {
    hide *;
    ShortKeyIs(f, key);
    if |key| > f.blockSize {
      short := Hashed(f, Cut32(key));
    } else {
      short := key;
    }
  }

  lemma ShortKeyIs(f: Hash, key: seq<bv8>)
    requires Good(f)
    ensures ShortKeyOf(f, key) == (if |key| > f.blockSize then Digest(f, Code, Cut32(key)) else key) && |ShortKeyOf(f, key)| <= f.blockSize
    ensures |Cut32(key)| < TWO32
  {
    hide Digest;
  }

  method Hashed(f: Hash, m: seq<bv8>) returns (d: seq<bv8>)
    requires Good(f) && |m| < TWO32
    ensures d == Digest(f, Code, m)
  {
    hide *;
    var c := new Context(f);
    WholeAfter(c.msg, c.len, m);
    c.Update(m);
    assert [] + m == m;
    d := c.Final();
  }

  // A context that has compressed one block.
  method Started(f: Hash, block: seq<bv8>) returns (c: Context)
    requires Good(f) && |block| == f.blockSize
    ensures fresh(c) && fresh(c.block) && c.Valid() && c.f == f && c.len == 0 && c.msg == block
  {
    hide Iterate, Context.Valid, Good, Gap;
    GoodSize(f);
    c := new Context(f);
    c.Update(block);
    assert [] + block == block;
    WholeBlock(c);
  }

  lemma WholeBlock(c: Context)
    requires c.Valid() && |c.msg| == c.f.blockSize
    ensures c.len == 0
  {
    var b, n := c.f.blockSize, c.f.blockSize - c.len;
    if 0 < c.len {
      QuotientIs(n, b, 0, n);
    }
  }

  method FillKey(k: array<bv8>, short: seq<bv8>)
    requires |short| <= k.Length && forall i :: 0 <= i < k.Length ==> k[i] == 0
    modifies k
    ensures k[..] == short + Zeros(k.Length - |short|)
  {
    for i := 0 to |short|
      invariant k[..i] == short[..i] && forall j :: i <= j < k.Length ==> k[j] == 0
    {
      k[i] := short[i];
    }
  }

  method KeyBlocks(k: array<bv8>) returns (inner: seq<bv8>, outer: seq<bv8>)
    ensures inner == XorEach(0x36, k[..]) && outer == XorEach(0x5c, k[..])
  {
    inner, outer := [], [];
    for i := 0 to k.Length
      invariant inner == XorEach(0x36, k[..i]) && outer == XorEach(0x5c, k[..i])
    {
      inner := inner + [0x36 ^ k[i]];
      outer := outer + [0x5c ^ k[i]];
    }
    assert k[..k.Length] == k[..];
  }

  // A context copied as a whole.
  method CopyOf(c: Context) returns (d: Context)
    requires c.Valid()
    ensures fresh(d) && fresh(d.block) && d.Valid() && d.f == c.f && d.msg == c.msg && d.len == c.len
  {
    hide *;
    ghost var buf := c.block[..];
    SaysState(c);
    d := new Context(c.f);
    SaysState(d);
    d.h, d.len, d.totLen, d.msg := c.h, c.len, c.totLen, c.msg;
    assert c.block[..] == buf;
    CopyBytes(d.block, c.block);
    IsState(d);
  }

  // The invariant of a context as a statement about its values.
  ghost predicate State(f: Hash, h: seq<bv8>, len: nat, totLen: nat, msg: seq<bv8>, buf: seq<bv8>) {
    Good(f) && |buf| == 2 * f.blockSize && len < f.blockSize && len <= |msg| && (|msg| - len) % f.blockSize == 0 &&
    totLen == (|msg| - len) % TWO32 && h == Iterate(f, f.init, msg[..|msg| - len]) && buf[..len] == msg[|msg| - len..]
  }

  lemma SaysState(c: Context)
    requires c.Valid()
    ensures State(c.f, c.h, c.len, c.totLen, c.msg, c.block[..]) && c.block.Length == 2 * c.f.blockSize && Good(c.f)
  {
    hide Iterate;
    assert c.block[..c.len] == c.block[..][..c.len];
  }

  lemma IsState(c: Context)
    requires State(c.f, c.h, c.len, c.totLen, c.msg, c.block[..])
    ensures c.Valid()
  {
    hide Iterate;
    assert c.block[..c.len] == c.block[..][..c.len];
  }

  method CopyBytes(to: array<bv8>, from: array<bv8>)
    requires to != from && to.Length == from.Length
    modifies to
    ensures to[..] == from[..]
  {
    for i := 0 to from.Length
      invariant to[..i] == from[..i]
    {
      to[i] := from[i];
    }
  }

  // ----- One block of the derived key -----

  // md_pad: the padding of a message of msg bytes behind the first used bytes of its last block
  method MdPad(block: array<bv8>, used: nat, msg: nat)
    requires used + 5 <= block.Length
    modifies block
    ensures block[used..] == [0x80] + Zeros(block.Length - used - 5) + BigEndian(8 * msg % TWO32, 4)
  {
    hide BigEndian;
    var n := block.Length;
    for i := used to n - 4
      invariant forall j :: used <= j < i ==> block[j] == 0
    {
      block[i] := 0;
    }
    block[used] := 0x80;
    assert block[used..n - 4] == [0x80] + Zeros(n - used - 5);
    var length := BigEndian(8 * msg % TWO32, 4);
    block[n - 4], block[n - 3], block[n - 2], block[n - 1] := length[0], length[1], length[2], length[3];
    assert block[n - 4..] == length;
    assert block[used..] == block[used..n - 4] + block[n - 4..];
  }

  // The padding that all iterations share.
  lemma SharedPadding(f: Hash)
    requires Good(f)
    ensures Padding(f, Code, f.blockSize + f.hashSize) ==
            [0x80] + Zeros(f.blockSize - f.hashSize - 5) + BigEndian(8 * (f.blockSize + f.hashSize) % TWO32, 4)
  {
    QuotientIs(f.blockSize, f.blockSize, 1, 0);
    GapIs(f, f.blockSize + f.hashSize, f.hashSize);
  }

  // Compressing a digest with that padding, from the state behind a key block, is the hash of
  // the key block and the digest.
  lemma RawHash(f: Hash, k: seq<bv8>, u: seq<bv8>)
    requires Good(f) && |k| == f.blockSize && |u| == f.hashSize
    ensures f.comp(Iterate(f, f.init, k), u + Padding(f, Code, f.blockSize + f.hashSize)) == Digest(f, Code, k + u)
  {
    hide Iterate;
    var p := Padding(f, Code, f.blockSize + f.hashSize);
    SharedPadding(f);
    QuotientIs(f.blockSize, f.blockSize, 1, 0);
    IterateBoth(f, f.init, k, u + p);
    IterateOne(f, Iterate(f, f.init, k), u + p);
    assert (k + u) + p == k + (u + p);
  }

  // HMAC_UPDATE and HMAC_FINAL on copies of the starting contexts
  method First(startInner: Context, startOuter: Context, counter: nat, salt: seq<bv8>, ghost key: seq<bv8>) returns (u: seq<bv8>)
    requires startInner.Valid() && startOuter.Valid() && Keyed(startInner, startOuter, key)
    ensures Good(startInner.f) && u == Chain(startInner.f, Code, key, Cut32(salt), counter, 1)
  {
    hide *;
    KeyedMeans(startInner, startOuter, key);
    var f := startInner.f;
    var countbuf := BigEndian(counter, 4);
    var inner := CopyOf(startInner);
    var outer := CopyOf(startOuter);
    ghost var k, m := BlockKey(f, Code, key), Cut32(salt);
    FewWaiting(inner);
    CutIsShort(salt);
    WholeAfter(inner.msg, inner.len, m);
    inner.Update(Cut32(salt));
    FewWaiting(inner);
    WholeAfter(inner.msg, inner.len, countbuf);
    inner.Update(countbuf);
    assert (XorEach(0x36, k) + m) + countbuf == XorEach(0x36, k) + (m + countbuf);
    var d := inner.Final();
    FewWaiting(outer);
    WholeAfter(outer.msg, outer.len, d);
    outer.Update(d);
    u := outer.Final();
    FirstIs(f, key, m, counter);
  }

  lemma FirstIs(f: Hash, key: seq<bv8>, salt: seq<bv8>, counter: nat)
    requires Good(f)
    ensures var k := BlockKey(f, Code, key);
            Digest(f, Code, XorEach(0x5c, k) + Digest(f, Code, XorEach(0x36, k) + (salt + BigEndian(counter, 4)))) == Chain(f, Code, key, salt, counter, 1)
  {
    hide Digest, BlockKey, XorEach, BigEndian;
  }

  lemma CutIsShort(s: seq<bv8>)
    ensures |Cut32(s)| < TWO32
  {
  }

  lemma FewWaiting(c: Context)
    requires c.Valid()
    ensures Good(c.f) && c.len + 4 < TWO32 && c.len <= |c.msg| && c.f.hashSize < TWO32
  {
    hide Iterate;
  }

  lemma KeyedMeans(inner: Context, outer: Context, key: seq<bv8>)
    requires Keyed(inner, outer, key)
    ensures Good(inner.f) && inner.f == outer.f && inner.len == 0 && outer.len == 0
    ensures 0 < inner.f.hashSize && 4 <= inner.f.lengthSize && inner.f.hashSize + 1 + inner.f.lengthSize <= inner.f.blockSize
    ensures inner.msg == XorEach(0x36, BlockKey(inner.f, Code, key)) && outer.msg == XorEach(0x5c, BlockKey(inner.f, Code, key))
  {
    hide BlockKey;
  }

  // PBKDF2_F
  method Function(startInner: Context, startOuter: Context, counter: nat, salt: seq<bv8>, iterations: nat, ghost key: seq<bv8>) returns (out: seq<bv8>)
    requires startInner.Valid() && startOuter.Valid() && Keyed(startInner, startOuter, key) && 1 <= iterations
    ensures Good(startInner.f) && out == Block(startInner.f, Code, key, Cut32(salt), counter, iterations)
  {
    hide *;
    KeyedMeans(startInner, startOuter, key);
    var f := startInner.f;
    ghost var m := Cut32(salt);
    var ublock := new bv8[f.blockSize](_ => 0);
    MdPad(ublock, f.hashSize, f.blockSize + f.hashSize);
    SharedPadding(f);
    var u := First(startInner, startOuter, counter, salt, key);
    BlockOfOne(f, key, m, counter);
    Store(ublock, u);
    var result := u;
    for i := 1 to iterations
      invariant startInner.Valid() && startOuter.Valid() && Keyed(startInner, startOuter, key)
      invariant ublock[..] == Chain(f, Code, key, m, counter, i) + Padding(f, Code, f.blockSize + f.hashSize)
      invariant result == Block(f, Code, key, m, counter, i)
    {
      ChainMore(f, key, m, counter, i);
      u := Iteration(startInner, startOuter, ublock, key, Chain(f, Code, key, m, counter, i));
      result := XorAll(result, u);
    }
    out := result;
  }

  // One turn: the inner hash is completed with the previous value, the outer with the result.
  method Iteration(startInner: Context, startOuter: Context, ublock: array<bv8>, ghost key: seq<bv8>, ghost was: seq<bv8>) returns (u: seq<bv8>)
    requires startInner.Valid() && startOuter.Valid() && Keyed(startInner, startOuter, key) && |was| == startInner.f.hashSize
    requires Good(startInner.f) && ublock[..] == was + Padding(startInner.f, Code, startInner.f.blockSize + startInner.f.hashSize)
    modifies ublock
    ensures u == Hmac(startInner.f, Code, key, was) && ublock[..] == u + Padding(startInner.f, Code, startInner.f.blockSize + startInner.f.hashSize)
  {
    hide *;
    KeyedMeans(startInner, startOuter, key);
    KeyedStates(startInner, startOuter, key);
    var f := startInner.f;
    Again(f, key, was);
    ghost var p := Padding(f, Code, f.blockSize + f.hashSize);
    u := f.comp(startInner.h, ublock[..]);
    Behind(ublock[..], was, p);
    Store(ublock, u);
    Behind(ublock[..], u, p);
    u := f.comp(startOuter.h, ublock[..]);
    Store(ublock, u);
  }

  lemma Behind(s: seq<bv8>, u: seq<bv8>, p: seq<bv8>)
    requires s == u + p
    ensures |u| <= |s| && s[|u|..] == p
  {
  }

  lemma BlockOfOne(f: Hash, key: seq<bv8>, salt: seq<bv8>, counter: nat)
    requires Good(f)
    ensures Block(f, Code, key, salt, counter, 1) == Chain(f, Code, key, salt, counter, 1)
  {
    hide Chain;
  }

  lemma ChainMore(f: Hash, key: seq<bv8>, salt: seq<bv8>, counter: nat, i: nat)
    requires Good(f) && i >= 1
    ensures Chain(f, Code, key, salt, counter, i + 1) == Hmac(f, Code, key, Chain(f, Code, key, salt, counter, i))
    ensures Block(f, Code, key, salt, counter, i + 1) == XorAll(Block(f, Code, key, salt, counter, i), Chain(f, Code, key, salt, counter, i + 1))
    ensures |Chain(f, Code, key, salt, counter, i)| == |Hmac(f, Code, key, Chain(f, Code, key, salt, counter, i))| == |Block(f, Code, key, salt, counter, i)| == f.hashSize
  {
    hide Hmac, XorAll;
  }

  lemma KeyedStates(inner: Context, outer: Context, key: seq<bv8>)
    requires inner.Valid() && outer.Valid() && Keyed(inner, outer, key)
    ensures inner.f == outer.f && Good(inner.f) && var k := BlockKey(inner.f, Code, key);
            inner.h == Iterate(inner.f, inner.f.init, XorEach(0x36, k)) && outer.h == Iterate(inner.f, inner.f.init, XorEach(0x5c, k))
  {
    hide Context.Valid, Iterate, BlockKey;
    StateBehindKey(inner);
    StateBehindKey(outer);
  }

  lemma StateBehindKey(c: Context)
    requires c.Valid() && c.len == 0
    ensures c.h == Iterate(c.f, c.f.init, c.msg)
  {
    assert c.msg[..|c.msg| - 0] == c.msg;
  }

  // One more step of the chain by two raw compressions.
  lemma Again(f: Hash, key: seq<bv8>, u: seq<bv8>)
    requires Good(f) && |u| == f.hashSize
    ensures var p, k := Padding(f, Code, f.blockSize + f.hashSize), BlockKey(f, Code, key);
            var v := f.comp(Iterate(f, f.init, XorEach(0x36, k)), u + p);
            |v| == f.hashSize && f.comp(Iterate(f, f.init, XorEach(0x5c, k)), v + p) == Hmac(f, Code, key, u) && |Hmac(f, Code, key, u)| == f.hashSize
  {
    hide Iterate, Digest, Padding;
    var k := BlockKey(f, Code, key);
    RawHash(f, XorEach(0x36, k), u);
    RawHash(f, XorEach(0x5c, k), Digest(f, Code, XorEach(0x36, k) + u));
  }

  // The front of the block is overwritten; the padding stays.
  method Store(block: array<bv8>, u: seq<bv8>)
    requires |u| <= block.Length
    modifies block
    ensures block[..] == u + old(block[|u|..])
  {
    for i := 0 to |u|
      invariant block[..i] == u[..i] && block[|u|..] == old(block[|u|..])
    {
      block[i] := u[i];
    }
    assert block[..] == block[..|u|] + block[|u|..];
  }

  // ----- The derived key -----

  // The number of blocks for n bytes, counted in 32 bits, and the bytes that they fill.
  function BlockCount(n: nat, hs: nat): nat
    requires hs > 0 && n >= 1
  {
    (n + hs - 1) % TWO32 / hs
  }

  function Reach(n: nat, hs: nat): (r: nat)
    requires hs > 0 && n >= 1
    ensures r <= n && r <= BlockCount(n, hs) * hs
  {
    Min(n, BlockCount(n, hs) * hs)
  }

  // PBKDF2: the output is filled with blocks as far as their wrapped count reaches.
  method Pbkdf2(f: Hash, pw: seq<bv8>, salt: seq<bv8>, iterations: nat, out: array<bv8>)
    requires Good(f) && iterations >= 1 && out.Length >= 1
    modifies out
    ensures 0 < f.hashSize
    ensures var n, t := Reach(out.Length, f.hashSize), Blocks(f, Code, ShortKeyOf(f, pw), Cut32(salt), iterations, BlockCount(out.Length, f.hashSize));
            n <= |t| && out[..n] == t[..n] && out[n..] == old(out[n..])
  {
    GoodSizes(f);
    hide *;
    var inner, outer := HmacInit(f, pw);
    Derive(f, inner, outer, ShortKeyOf(f, pw), salt, iterations, out);
  }

  // The loop over the blocks.
  method Derive(f: Hash, inner: Context, outer: Context, ghost key: seq<bv8>, salt: seq<bv8>, iterations: nat, out: array<bv8>)
    requires Good(f) && 0 < f.hashSize && iterations >= 1 && out.Length >= 1 && inner.f == f
    requires inner.Valid() && outer.Valid() && Keyed(inner, outer, key) && inner.block != out && outer.block != out
    modifies out
    ensures var n, t := Reach(out.Length, f.hashSize), Blocks(f, Code, key, Cut32(salt), iterations, BlockCount(out.Length, f.hashSize));
            n <= |t| && out[..n] == t[..n] && out[n..] == old(out[n..])
  {
    hide *;
    NothingFilled(out[..]);
    NoBlocks(f, key, Cut32(salt), iterations);
    var hs := f.hashSize;
    var blocksNeeded := BlockCount(out.Length, hs);
    BlocksFit(out.Length, hs);
    ghost var before, done := out[..], [];
    for counter := 1 to blocksNeeded + 1
      invariant inner.Valid() && outer.Valid() && Keyed(inner, outer, key)
      invariant done == Blocks(f, Code, key, Cut32(salt), iterations, counter - 1) && Filled(out[..], before, done)
    {
      OffsetFits(out.Length, hs, blocksNeeded, counter);
      BlocksMore(f, key, Cut32(salt), iterations, counter);
      var block := Function(inner, outer, counter, salt, iterations, key);
      PutBlock(out, (counter - 1) * hs, block, done, before);
      done := done + block;
    }
    AllFilled(f, key, Cut32(salt), iterations, out[..], before, done);
  }

  lemma NoBlocks(f: Hash, key: seq<bv8>, salt: seq<bv8>, n: nat)
    requires Good(f) && n >= 1
    ensures Blocks(f, Code, key, salt, n, 0) == []
  {
  }

  lemma BlocksMore(f: Hash, key: seq<bv8>, salt: seq<bv8>, n: nat, l: nat)
    requires Good(f) && n >= 1 && l >= 1
    ensures Blocks(f, Code, key, salt, n, l) == Blocks(f, Code, key, salt, n, l - 1) + Block(f, Code, key, salt, l, n)
    ensures |Blocks(f, Code, key, salt, n, l - 1)| == (l - 1) * f.hashSize
  {
  }

  lemma AllFilled(f: Hash, key: seq<bv8>, salt: seq<bv8>, c: nat, now: seq<bv8>, before: seq<bv8>, done: seq<bv8>)
    requires Good(f) && c >= 1 && |now| >= 1 && Filled(now, before, done) && done == Blocks(f, Code, key, salt, c, BlockCount(|now|, f.hashSize))
    ensures var n := Reach(|now|, f.hashSize); n <= |done| && n <= |before| && now[..n] == done[..n] && now[n..] == before[n..]
  {
    hide BlockCount;
  }

  // As much of a block as there is room for.
  method PutBlock(out: array<bv8>, offset: nat, block: seq<bv8>, ghost done: seq<bv8>, ghost before: seq<bv8>)
    requires offset == |done| < out.Length && Filled(out[..], before, done)
    modifies out
    ensures Filled(out[..], before, done + block)
  {
    hide Filled;
    var taken := Min(out.Length - offset, |block|);
    ghost var was := out[..];
    CopyBlock(out, offset, block[..taken]);
    Longer(was, out[..], offset, block, taken, done, before);
  }

  // The output begins with what is done, as far as it reaches.
  ghost predicate Filled(now: seq<bv8>, before: seq<bv8>, done: seq<bv8>) {
    |now| == |before| && now[..Min(|now|, |done|)] == done[..Min(|now|, |done|)] && now[Min(|now|, |done|)..] == before[Min(|now|, |done|)..]
  }

  lemma NothingFilled(s: seq<bv8>)
    ensures Filled(s, s, [])
  {
  }

  lemma GoodSizes(f: Hash)
    requires Good(f)
    ensures 0 < f.hashSize
  {
  }

  lemma BlocksFit(n: nat, hs: nat)
    requires hs > 0 && n >= 1
    ensures BlockCount(n, hs) < TWO32 && BlockCount(n, hs) * hs <= n + hs - 1
  {
    var x := (n + hs - 1) % TWO32;
    QuotientFits(x, hs);
    QuotientSmall(x, hs);
  }

  lemma QuotientSmall(x: nat, d: nat)
    requires d > 0
    ensures x / d <= x
  {
    if x / d >= 1 {
      GrowsBy(x / d, d);
      QuotientFits(x, d);
    }
  }

  lemma OffsetFits(n: nat, hs: nat, blocks: nat, counter: nat)
    requires hs > 0 && blocks * hs <= n + hs - 1 && 1 <= counter <= blocks
    ensures (counter - 1) * hs < n && counter * hs == (counter - 1) * hs + hs
  {
    assert counter * hs == (counter - 1) * hs + hs;
    assert (blocks - counter) * hs >= 0;
    assert blocks * hs == counter * hs + (blocks - counter) * hs;
  }

  method CopyBlock(out: array<bv8>, offset: nat, s: seq<bv8>)
    requires offset + |s| <= out.Length
    modifies out
    ensures out[..offset] == old(out[..offset]) && out[offset..offset + |s|] == s && out[offset + |s|..] == old(out[offset + |s|..])
  {
    for i := 0 to |s|
      invariant out[..offset] == old(out[..offset]) && out[offset..offset + i] == s[..i] && out[offset + i..] == old(out[offset + i..])
    {
      assert old(out[offset + i..])[1..] == old(out[offset + i + 1..]);
      out[offset + i] := s[i];
    }
  }

  lemma Longer(was: seq<bv8>, now: seq<bv8>, offset: nat, block: seq<bv8>, taken: nat, done: seq<bv8>, before: seq<bv8>)
    requires |was| == |now| && |done| == offset < |now| && Filled(was, before, done) && taken == Min(|now| - offset, |block|)
    requires now[..offset] == was[..offset] && now[offset..offset + taken] == block[..taken] && now[offset + taken..] == was[offset + taken..]
    ensures Filled(now, before, done + block)
  {
    assert now[..offset + taken] == now[..offset] + now[offset..offset + taken];
    assert before[offset + taken..] == before[offset..][taken..] && was[offset + taken..] == was[offset..][taken..];
  }

  // ----- What the standard says -----

  // Password, and what HMAC hashes behind a key block, are below 2^29 bytes.
  predicate Small(f: Hash, pw: seq<bv8>, salt: seq<bv8>) {
    |pw| < 0x2000_0000 && f.blockSize + |salt| + 4 < 0x2000_0000 && f.blockSize + f.hashSize < 0x2000_0000
  }

  // Every byte is filled exactly if 32 bits count the bytes and the rounding; and it is the
  // derived key then, as long as the messages are small.
  lemma KeyIsWhole(f: Hash, pw: seq<bv8>, salt: seq<bv8>, c: nat, n: nat)
    requires Good(f) && c >= 1 && n >= 1
    ensures 0 < f.hashSize && (Reach(n, f.hashSize) == n <==> n + f.hashSize - 1 < TWO32)
    ensures Reach(n, f.hashSize) == n && Small(f, pw, salt) ==>
              Blocks(f, Code, ShortKeyOf(f, pw), Cut32(salt), c, BlockCount(n, f.hashSize))[..n] == DerivedKey(f, pw, salt, c, n)
  {
    hide Blocks, Small, ShortKeyOf, Cut32;
    Counted(n, f.hashSize);
    if Small(f, pw, salt) {
      BlocksAgree(f, pw, salt, c, BlockCount(n, f.hashSize));
    }
  }

  lemma ShortKeyAgrees(f: Hash, pw: seq<bv8>)
    requires Good(f) && |pw| < 0x2000_0000
    ensures BlockKey(f, Code, ShortKeyOf(f, pw)) == BlockKey(f, Standard, pw)
  {
    hide Digest;
    assert Cut32(pw) == pw;
    DigestExact(f, pw);
  }

  lemma HmacAgrees(f: Hash, pw: seq<bv8>, m: seq<bv8>)
    requires Good(f) && |pw| < 0x2000_0000 && f.blockSize + |m| < 0x2000_0000 && f.blockSize + f.hashSize < 0x2000_0000
    ensures Hmac(f, Code, ShortKeyOf(f, pw), m) == Hmac(f, Standard, pw, m)
  {
    hide Digest, BlockKey, ShortKeyOf;
    ShortKeyAgrees(f, pw);
    var k := BlockKey(f, Standard, pw);
    DigestExact(f, XorEach(0x36, k) + m);
    DigestExact(f, XorEach(0x5c, k) + Digest(f, Standard, XorEach(0x36, k) + m));
  }

  lemma {:induction false} ChainAgrees(f: Hash, pw: seq<bv8>, salt: seq<bv8>, i: nat, n: nat)
    requires Good(f) && n >= 1 && Small(f, pw, salt)
    ensures Chain(f, Code, ShortKeyOf(f, pw), salt, i, n) == Chain(f, Standard, pw, salt, i, n)
  {
    hide Hmac, ShortKeyOf;
    if n == 1 {
      HmacAgrees(f, pw, salt + BigEndian(i, 4));
    } else {
      ChainAgrees(f, pw, salt, i, n - 1);
      HmacAgrees(f, pw, Chain(f, Standard, pw, salt, i, n - 1));
    }
  }

  lemma {:induction false} BlockAgrees(f: Hash, pw: seq<bv8>, salt: seq<bv8>, i: nat, n: nat)
    requires Good(f) && n >= 1 && Small(f, pw, salt)
    ensures Block(f, Code, ShortKeyOf(f, pw), salt, i, n) == Block(f, Standard, pw, salt, i, n)
  {
    hide Chain, ShortKeyOf, Small;
    ChainAgrees(f, pw, salt, i, n);
    if n > 1 {
      BlockAgrees(f, pw, salt, i, n - 1);
    }
  }

  // Cut lengths, hashed keys and 32-bit paddings change nothing for small messages.
  lemma {:induction false} BlocksAgree(f: Hash, pw: seq<bv8>, salt: seq<bv8>, n: nat, l: nat)
    requires Good(f) && n >= 1 && Small(f, pw, salt)
    ensures Blocks(f, Code, ShortKeyOf(f, pw), Cut32(salt), n, l) == Blocks(f, Standard, pw, salt, n, l)
  {
    hide Block, ShortKeyOf;
    assert Cut32(salt) == salt;
    if l > 0 {
      BlocksAgree(f, pw, salt, n, l - 1);
      BlockAgrees(f, pw, salt, l, n);
    }
  }

  lemma Counted(n: nat, hs: nat)
    requires hs > 0 && n >= 1
    ensures n + hs - 1 < TWO32 ==> n <= BlockCount(n, hs) * hs
    ensures hs < TWO32 && n + hs - 1 >= TWO32 ==> BlockCount(n, hs) * hs < n
  {
    var x := (n + hs - 1) % TWO32;
    QuotientFits(x, hs);
    if n + hs - 1 >= TWO32 {
      assert x <= n + hs - 1 - TWO32;
    }
  }
}
