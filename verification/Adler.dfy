// The Adler-32 checksum of a zlib stream (section 2.2 and the appendix of RFC 1950), with
// sums that are reduced only once in 5552 bytes.

module Adler {
  import opened Ints

  const BASE: nat := 65521
  const CHUNK: nat := 5552
  const WIDTH: nat := 0x1_0000_0000

  datatype Sums = Sums(s1: nat, s2: nat)

  function Step(s: Sums, c: byte): Sums {
    Sums((s.s1 + c) % BASE, (s.s2 + s.s1 + c) % BASE)
  }

  function Over(s: Sums, bytes: seq<byte>): Sums {
    if bytes == [] then s else Step(Over(s, bytes[..|bytes| - 1]), bytes[|bytes| - 1])
  }

  function Joined(s: Sums): nat {
    s.s2 * 65536 + s.s1
  }

  // The checksum with every sum reduced.
  function Checksum(adler: u32, bytes: seq<byte>): (r: u32) {
    if bytes == [] then adler
    else
      var s := Over(Sums(adler % 65536, adler / 65536), bytes);
      assert s.s1 < BASE && s.s2 < BASE;
      Joined(s)
  }

  lemma {:induction false} OverBoth(s: Sums, x: seq<byte>, y: seq<byte>)
    ensures Over(s, x + y) == Over(Over(s, x), y)
  {
    if y == [] {
      assert x + y == x;
    } else {
      assert (x + y)[..|x + y| - 1] == x + y[..|y| - 1];
      OverBoth(s, x, y[..|y| - 1]);
    }
  }

  lemma SplitAgain(s: Sums)
    requires s.s1 < BASE && s.s2 < BASE
    ensures Joined(s) < WIDTH && Joined(s) % 65536 == s.s1 && Joined(s) / 65536 == s.s2
  {
  }

  // The checksum of a whole is that of its parts, one after the other.
  lemma ChecksumBoth(adler: u32, x: seq<byte>, y: seq<byte>)
    ensures Checksum(Checksum(adler, x), y) == Checksum(adler, x + y)
  {
    if x == [] {
      assert x + y == y;
    } else if y == [] {
      assert x + y == x;
    } else {
      var s := Sums(adler % 65536, adler / 65536);
      OverBoth(s, x, y);
      OverReduced(s, x);
      SplitAgain(Over(s, x));
    }
  }

  // Both sums have the right remainder.
  ghost predicate Congruent(s1: nat, s2: nat, s: Sums) {
    s1 % BASE == s.s1 % BASE && s2 % BASE == s.s2 % BASE
  }

  function Triangle(n: nat): nat {
    if n == 0 then 0 else Triangle(n - 1) + n
  }

  lemma {:induction false} TriangleIs(n: nat)
    ensures 2 * Triangle(n) == n * (n + 1)
  {
    if n > 0 {
      TriangleIs(n - 1);
    }
  }

  lemma {:induction false} TriangleGrows(m: nat, n: nat)
    requires m <= n
    ensures Triangle(m) <= Triangle(n)
  {
    if m < n {
      TriangleGrows(m, n - 1);
    }
  }

  // The largest that n bytes can make the sums from what fits in 16 bits.
  ghost predicate Bounded(s1: nat, s2: nat, n: nat) {
    s1 <= 65535 + 255 * n && s2 <= 65535 * (n + 1) + 255 * Triangle(n)
  }

  lemma BoundedFits(s1: nat, s2: nat, n: nat)
    requires Bounded(s1, s2, n) && n <= CHUNK
    ensures s1 < WIDTH && s2 < WIDTH
  {
    TriangleIs(CHUNK);
    TriangleGrows(n, CHUNK);
  }

  lemma BoundedMore(s1: nat, s2: nat, n: nat, c: byte)
    requires Bounded(s1, s2, n)
    ensures Bounded(s1 + c, s2 + s1 + c, n + 1)
  {
  }

  // What the loop over a block adds up.
  function Added(s: Sums, bytes: seq<byte>): Sums {
    if bytes == [] then s
    else
      var p := Added(s, bytes[..|bytes| - 1]);
      var c := bytes[|bytes| - 1];
      Sums(p.s1 + c, p.s2 + p.s1 + c)
  }

  lemma AddedMore(s: Sums, bytes: seq<byte>, i: nat)
    requires i < |bytes|
    ensures var p := Added(s, bytes[..i]); Added(s, bytes[..i + 1]) == Sums(p.s1 + bytes[i], p.s2 + p.s1 + bytes[i])
  {
    assert bytes[..i + 1][..i] == bytes[..i];
  }

  // No n bytes make a sum that 32 bits do not hold, from sums up to top.
  ghost predicate NeverOverflows(n: nat, top: nat) {
    forall s: Sums, bytes: seq<byte> :: s.s1 <= top && s.s2 <= top && |bytes| == n ==> Added(s, bytes).s1 < WIDTH && Added(s, bytes).s2 < WIDTH
  }

  // The chunk is the longest run that can do without a reduction, from reduced sums and from
  // any that fit in 16 bits.
  lemma ChunkIsLongest(n: nat, top: nat)
    requires BASE - 1 <= top <= 65535
    ensures NeverOverflows(n, top) <==> n <= CHUNK
  {
    if n <= CHUNK {
      forall s: Sums, bytes: seq<byte> | s.s1 <= top && s.s2 <= top && |bytes| == n
        ensures Added(s, bytes).s1 < WIDTH && Added(s, bytes).s2 < WIDTH
      {
        AddedBounded(s, bytes);
        BoundedFits(Added(s, bytes).s1, Added(s, bytes).s2, n);
      }
    } else {
      var s, bytes: seq<byte> := Sums(BASE - 1, BASE - 1), seq(n, _ => 255);
      AddedOnes(s, n);
      TriangleIs(CHUNK + 1);
      TriangleGrows(CHUNK + 1, n);
      assert Added(s, bytes).s2 >= WIDTH;
    }
  }

  lemma {:induction false} AddedBounded(s: Sums, bytes: seq<byte>)
    requires s.s1 <= 65535 && s.s2 <= 65535
    ensures Bounded(Added(s, bytes).s1, Added(s, bytes).s2, |bytes|)
  {
    if bytes != [] {
      var p := Added(s, bytes[..|bytes| - 1]);
      AddedBounded(s, bytes[..|bytes| - 1]);
      BoundedMore(p.s1, p.s2, |bytes| - 1, bytes[|bytes| - 1]);
    }
  }

  // Bytes 0xff from the largest reduced sums.
  lemma {:induction false} AddedOnes(s: Sums, n: nat)
    requires s == Sums(BASE - 1, BASE - 1)
    ensures Added(s, seq(n, _ => 255)) == Sums(65520 + 255 * n, 65520 * (n + 1) + 255 * Triangle(n))
  {
    if n > 0 {
      AddedOnes(s, n - 1);
      assert seq(n, _ => 255 as byte)[..n - 1] == seq(n - 1, _ => 255 as byte);
    }
  }

  lemma {:induction false} Shifted(a: nat, k: nat)
    ensures (a + BASE * k) % BASE == a % BASE
  {
    if k > 0 {
      Shifted(a, k - 1);
      assert a + BASE * k == a + BASE * (k - 1) + BASE;
    }
  }

  lemma AddMod(a: nat, b: nat, c: nat)
    requires a % BASE == b % BASE
    ensures (a + c) % BASE == (b + c) % BASE
  {
    var m, n := if a <= b then a else b, if a <= b then b else a;
    var k := n / BASE - m / BASE;
    assert n + c == (m + c) + BASE * k;
    Shifted(m + c, k);
  }

  lemma CongruentMore(s1: nat, s2: nat, s: Sums, c: byte)
    requires Congruent(s1, s2, s)
    ensures Congruent(s1 + c, s2 + s1 + c, Step(s, c))
  {
    AddMod(s1, s.s1, c);
    SumsMod(s1, s2, s.s1, s.s2, c);
    Twice(s.s1 + c);
    Twice(s.s2 + s.s1 + c);
  }

  lemma SumsMod(s1: nat, s2: nat, a1: nat, a2: nat, c: nat)
    requires s1 % BASE == a1 % BASE && s2 % BASE == a2 % BASE
    ensures (s2 + s1 + c) % BASE == (a2 + a1 + c) % BASE
  {
    AddMod(s2, a2, s1 + c);
    AddMod(s1, a1, a2 + c);
  }

  lemma Twice(x: nat)
    ensures x % BASE % BASE == x % BASE
  {
  }

  lemma OverMore(s: Sums, bytes: seq<byte>, i: nat)
    requires i < |bytes|
    ensures Over(s, bytes[..i + 1]) == Step(Over(s, bytes[..i]), bytes[i])
  {
    assert bytes[..i + 1][..i] == bytes[..i];
  }

  method AddByte(a1: u32, a2: u32, c: byte, ghost n: nat) returns (s1: u32, s2: u32)
    requires Bounded(a1, a2, n) && n < CHUNK
    ensures s1 == a1 + c && s2 == a2 + a1 + c && Bounded(s1, s2, n + 1)
  {
    hide Bounded;
    BoundedMore(a1, a2, n, c);
    BoundedFits(a1 + c, a2 + a1 + c, n + 1);
    s1 := (a1 + c) % WIDTH;
    s2 := (a2 + s1) % WIDTH;
  }

  // The loop over one block: no sum leaves 32 bits.
  method AddBlock(a1: u32, a2: u32, bytes: seq<byte>, ghost start: Sums) returns (s1: u32, s2: u32)
    requires |bytes| <= CHUNK && a1 < 65536 && a2 < 65536 && Congruent(a1, a2, start)
    ensures Sums(s1, s2) == Added(Sums(a1, a2), bytes) && Congruent(s1, s2, Over(start, bytes))
  {
    hide Congruent, Bounded, Over, Step, Added;
    s1, s2 := a1, a2;
    NothingAdded(a1, a2);
    OverNothing(start, bytes[..0]);
    assert bytes[..0] == [];
    for i := 0 to |bytes|
      invariant Sums(s1, s2) == Added(Sums(a1, a2), bytes[..i])
      invariant Congruent(s1, s2, Over(start, bytes[..i])) && Bounded(s1, s2, i)
    {
      OverMore(start, bytes, i);
      AddedMore(Sums(a1, a2), bytes, i);
      CongruentMore(s1, s2, Over(start, bytes[..i]), bytes[i]);
      s1, s2 := AddByte(s1, s2, bytes[i], i);
    }
    assert bytes[..|bytes|] == bytes;
  }

  lemma NothingAdded(a1: nat, a2: nat)
    requires a1 < 65536 && a2 < 65536
    ensures Added(Sums(a1, a2), []) == Sums(a1, a2) && Bounded(a1, a2, 0)
  {
  }

  lemma OverNothing(s: Sums, bytes: seq<byte>)
    requires bytes == []
    ensures Over(s, bytes) == s
  {
  }

  lemma Reduced(s1: nat, s2: nat, s: Sums)
    requires Congruent(s1, s2, s)
    ensures Congruent(s1 % BASE, s2 % BASE, s) && (s.s1 < BASE && s.s2 < BASE ==> Sums(s1 % BASE, s2 % BASE) == s)
  {
  }

  lemma OverReduced(s: Sums, bytes: seq<byte>)
    requires bytes != []
    ensures Over(s, bytes).s1 < BASE && Over(s, bytes).s2 < BASE
  {
  }

  // mz_adler32: a first block of what is over whole chunks, then the chunks
  method Adler32(adler: u32, bytes: seq<byte>) returns (r: u32)
    ensures r == Checksum(adler, bytes)
  {
    hide Congruent, Over, Added, Step, Bounded;
    var s1: u32, s2: u32 := adler % 65536, adler / 65536;
    ghost var start := Sums(s1, s2);
    OverNothing(start, bytes[..0]);
    SameSums(s1, s2);
    var left: nat, len: nat, at: nat := |bytes|, |bytes| % CHUNK, 0;
    while left != 0
      invariant at + left == |bytes| && (left != 0 ==> len <= left && len <= CHUNK && (left - len) % CHUNK == 0)
      invariant s1 < 65536 && s2 < 65536 && Congruent(s1, s2, Over(start, bytes[..at]))
      invariant if at == 0 then left != 0 || Sums(s1, s2) == start else Sums(s1, s2) == Over(start, bytes[..at])
      decreases left, CHUNK - len
    {
      assert bytes[..at + len] == bytes[..at] + bytes[at..at + len];
      OverBoth(start, bytes[..at], bytes[at..at + len]);
      s1, s2 := AddBlock(s1, s2, bytes[at..at + len], Over(start, bytes[..at]));
      Reduced(s1, s2, Over(start, bytes[..at + len]));
      if at + len > 0 {
        OverReduced(start, bytes[..at + len]);
      }
      s1, s2 := s1 % BASE, s2 % BASE;
      left := left - len;
      at := at + len;
      len := CHUNK;
    }
    assert bytes[..at] == bytes;
    r := Joined(Sums(s1, s2));
  }

  lemma SameSums(s1: nat, s2: nat)
    ensures Congruent(s1, s2, Sums(s1, s2))
  {
  }

  // ----- The frame of a zlib stream -----

  const ZLIB_HEADER: seq<byte> := [0x78, 0x01]

  // Most significant byte first.
  function BigEndian(x: u32): (s: seq<byte>)
    ensures |s| == 4
  {
    [x / 0x100_0000, x / 0x1_0000 % 256, x / 256 % 256, x % 256]
  }

  // What the trailer means.
  function Number(a: byte, b: byte, c: byte, d: byte): u32 {
    ((a * 256 + b) * 256 + c) * 256 + d
  }

  lemma NumberOfBigEndian(x: u32)
    ensures var s := BigEndian(x); Number(s[0], s[1], s[2], s[3]) == x
  {
  }

  // Two different numbers have different trailers.
  lemma BigEndianOfNumber(a: byte, b: byte, c: byte, d: byte)
    ensures BigEndian(Number(a, b, c, d)) == [a, b, c, d]
  {
  }
}
