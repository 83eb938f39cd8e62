// MD5 fed piece by piece: the compression function is iterated over the padded message of
// sections 3.1 and 3.2 of RFC 1321, however the message is split.

module Md5 {
  import opened Bits
  import opened Ints
  import opened HashSpec
  import opened HashContext

  const TWO29: nat := 0x2000_0000
  const TWO64: nat := 0x1_0000_0000_0000_0000

  // A compression function on blocks of 64 bytes and states of 16.
  ghost predicate Md5Shape(f: Hash) {
    f.blockSize == 64 && f.hashSize == 16 && f.lengthSize == 8
  }

  function LittleEndian(v: nat, n: nat): (s: seq<bv8>)
    ensures |s| == n
  {
    if n == 0 then [] else [(v % 256) as bv8] + LittleEndian(v / 256, n - 1)
  }

  // A single one bit, zeros, and the length in bits modulo 2^64.
  function Tail(f: Hash, n: nat): seq<bv8>
    requires f.blockSize > 0
  {
    [0x80] + Zeros(Gap(f, n)) + LittleEndian(8 * n % TWO64, 8)
  }

  function Md5Of(f: Hash, m: seq<bv8>): seq<bv8>
    requires f.blockSize > 0
  {
    Iterate(f, f.init, m + Tail(f, |m|))
  }

  // The number whose digits in base 256 are the bytes, the lowest first.
  function LittleNumber(s: seq<bv8>): nat {
    if s == [] then 0 else s[0] as nat + 256 * LittleNumber(s[1..])
  }

  lemma {:induction false} LittleEndianIs(v: nat, n: nat)
    requires v < Power(n)
    ensures LittleNumber(LittleEndian(v, n)) == v
  {
    if n > 0 {
      LittleEndianIs(v / 256, n - 1);
      ByteBack(v % 256);
      assert LittleEndian(v, n)[1..] == LittleEndian(v / 256, n - 1);
    }
  }

  // Section 3.1 and 3.2: one bit, then zeros, then eight bytes of length, to whole blocks.
  lemma TailIs(f: Hash, n: nat)
    requires Good(f) && Md5Shape(f)
    ensures var t := Tail(f, n);
            (n + |t|) % 64 == 0 && 9 <= |t| < 73 && t[0] as nat == 128 && (forall k :: 1 <= k < |t| - 8 ==> t[k] == 0) &&
            LittleNumber(t[|t| - 8..]) == 8 * n % TWO64
  {
    var g, v := Gap(f, n), LittleEndian(8 * n % TWO64, 8);
    var t := Tail(f, n);
    assert t[|t| - 8..] == v;
    assert n + |t| == n + 1 + g + f.lengthSize;
    PowerEight();
    LittleEndianIs(8 * n % TWO64, 8);
  }

  lemma PowerEight()
    ensures Power(8) == TWO64
  {
    assert Power(4) == 256 * Power(3) == TWO32;
    assert Power(8) == 256 * Power(7);
  }

  // ----- The byte count -----

  // lo has 29 bits and hi 32: together they count bytes modulo 2^61.
  predicate Counts(lo: nat, hi: nat, n: nat) {
    lo == n % TWO29 && hi == n / TWO29 % TWO32
  }

  // What MD5_Update makes of the counters: a sum that came out smaller has overflowed.
  function NextLo(lo: nat, size: nat): nat {
    (lo + size) % TWO29
  }

  function NextHi(lo: nat, hi: nat, size: nat): nat {
    ((if NextLo(lo, size) < lo then (hi + 1) % TWO32 else hi) + size / TWO29) % TWO32
  }

  lemma CountsMore(lo: nat, hi: nat, n: nat, size: nat)
    requires Counts(lo, hi, n)
    ensures Counts(NextLo(lo, size), NextHi(lo, hi, size), n + size)
  {
    var r, q, s, t := n % TWO29, n / TWO29, size % TWO29, size / TWO29;
    if r + s < TWO29 {
      QuotientIs(n + size, TWO29, q + t, r + s);
      QuotientIs(lo + size, TWO29, t, r + s);
      AddWrapped(q, 0, t);
    } else {
      QuotientIs(n + size, TWO29, q + t + 1, r + s - TWO29);
      QuotientIs(lo + size, TWO29, t + 1, r + s - TWO29);
      AddWrapped(q, 1, t);
    }
  }

  lemma AddWrapped(q: nat, c: nat, t: nat)
    ensures ((q % TWO32 + c) % TWO32 + t) % TWO32 == (q + c + t) % TWO32
    ensures (q % TWO32 + t) % TWO32 == (q + t) % TWO32
  {
  }

  // The eight bytes that MD5_Final stores are the length in bits, lowest first.
  lemma LengthBytes(lo: nat, hi: nat, n: nat)
    requires Counts(lo, hi, n)
    ensures LittleEndian(lo * 8, 4) + LittleEndian(hi, 4) == LittleEndian(8 * n % TWO64, 8)
  {
    var v := 8 * n % TWO64;
    BitCount(n, lo, hi);
    TwoWords(lo * 8, hi);
  }

  lemma BitCount(n: nat, lo: nat, hi: nat)
    requires Counts(lo, hi, n)
    ensures lo * 8 < TWO32 && 8 * n % TWO64 == lo * 8 + TWO32 * hi
  {
    var q := n / TWO29;
    assert 8 * n == TWO32 * q + 8 * lo;
    var p := q / TWO32;
    assert q == TWO32 * p + hi;
    assert 8 * n == TWO64 * p + (TWO32 * hi + 8 * lo);
    QuotientIs(8 * n, TWO64, p, TWO32 * hi + 8 * lo);
  }

  lemma TwoWords(a: nat, b: nat)
    requires a < TWO32
    ensures LittleEndian(a + TWO32 * b, 8) == LittleEndian(a, 4) + LittleEndian(b, 4)
  {
    PowerFour();
    SideBySide(a, 4, b, 4);
  }

  lemma {:induction false} SideBySide(a: nat, m: nat, b: nat, n: nat)
    requires a < Power(m)
    ensures LittleEndian(a + Power(m) * b, m + n) == LittleEndian(a, m) + LittleEndian(b, n)
  {
    if m > 0 {
      var p := Power(m - 1);
      ByteOff(a, p, b);
      SideBySide(a / 256, m - 1, b, n);
      assert LittleEndian(a, m) + LittleEndian(b, n) == [(a % 256) as bv8] + (LittleEndian(a / 256, m - 1) + LittleEndian(b, n));
    }
  }

  lemma ByteOff(a: nat, p: nat, b: nat)
    ensures var x := a + 256 * p * b; x % 256 == a % 256 && x / 256 == a / 256 + p * b
  {
    QuotientIs(a + 256 * p * b, 256, a / 256 + p * b, a % 256);
  }

  // ----- The context -----

  class Md5Context {
    const f: Hash
    var h: seq<bv8>
    var lo: nat
    var hi: nat
    const buffer: array<bv8>
    ghost var msg: seq<bv8>

    ghost predicate Valid()
      reads this, buffer
    {
      Good(f) && Md5Shape(f) && buffer.Length == 64 && Counts(lo, hi, |msg|) &&
      h == Iterate(f, f.init, msg[..|msg| - |msg| % 64]) && buffer[..|msg| % 64] == msg[|msg| - |msg| % 64..]
    }

    // MD5_Init
    constructor (f: Hash)
      requires Good(f) && Md5Shape(f)
      ensures Valid() && msg == [] && this.f == f && fresh(buffer)
    {
      this.f, h, lo, hi, msg := f, f.init, 0, 0, [];
      buffer := new bv8[64](_ => 0);
    }

    // body
    method Body(s: seq<bv8>)
      requires Good(f) && f.blockSize == 64 && |s| % 64 == 0
      modifies this`h
      ensures h == Iterate(f, old(h), s)
    {
      var rest := s;
      while rest != []
        invariant |rest| % 64 == 0 && Iterate(f, h, rest) == Iterate(f, old(h), s)
        decreases |rest|
      {
        h := f.comp(h, rest[..64]);
        rest := rest[64..];
      }
    }

    // memcpy into the buffer
    method Put(at: nat, s: seq<bv8>)
      requires at + |s| <= buffer.Length
      modifies buffer
      ensures buffer[..at] == old(buffer[..at]) && buffer[at..at + |s|] == s
    {
      for i := 0 to |s|
        invariant buffer[..at] == old(buffer[..at]) && buffer[at..at + i] == s[..i]
      {
        buffer[at + i] := s[i];
      }
    }

    // MD5_Update
    method Update(data: seq<bv8>)
      requires Valid()
      modifies this`h, this`lo, this`hi, this`msg, buffer
      ensures Valid() && msg == old(msg) + data
    {
      hide *;
      ValidHeld();
      UsedBytes(lo, hi, |msg|);
      CountsMore(lo, hi, |msg|, |data|);
      ghost var start, was := msg[..|msg| - |msg| % 64], msg[|msg| - |msg| % 64..];
      HeldMeans(start, was);
      var savedLo := lo;
      lo, hi := NextLo(lo, |data|), NextHi(lo, hi, |data|);
      Take(data, savedLo % 64, start, was);
      assert msg == start + was;
      CutMeans(msg + data);
      msg := msg + data;
      CutValid();
    }

    lemma HeldMeans(start: seq<bv8>, part: seq<bv8>)
      requires Held(start, part)
      ensures Good(f) && Md5Shape(f) && buffer.Length == 64 && |start| % 64 == 0 && |part| <= 64 && f.blockSize > 0
      ensures h == Iterate(f, f.init, start) && buffer[..|part|] == part
    {
      hide Iterate, Good;
    }

    lemma CutMeans(m: seq<bv8>)
      requires Cut(m)
      ensures h == Iterate(f, f.init, m[..|m| - |m| % 64]) && buffer[..|m| % 64] == m[|m| - |m| % 64..]
    {
      hide Iterate;
    }

    lemma CutValid()
      requires Good(f) && Md5Shape(f) && buffer.Length == 64 && Counts(lo, hi, |msg|)
      requires h == Iterate(f, f.init, msg[..|msg| - |msg| % 64]) && buffer[..|msg| % 64] == msg[|msg| - |msg| % 64..]
      ensures Valid()
    {
      hide Iterate, Good, Counts;
    }

    // What is compressed and what is kept of the bytes fed so far.
    ghost predicate Cut(m: seq<bv8>)
      reads this, buffer
    {
      f.blockSize == 64 && buffer.Length == 64 && h == Iterate(f, f.init, m[..|m| - |m| % 64]) && buffer[..|m| % 64] == m[|m| - |m| % 64..]
    }

    // The bytes of MD5_Update
    method Take(data: seq<bv8>, used: nat, ghost start: seq<bv8>, ghost was: seq<bv8>)
      requires Good(f) && Md5Shape(f) && buffer.Length == 64 && |was| == used < 64 && |start| % 64 == 0
      requires h == Iterate(f, f.init, start) && buffer[..used] == was
      modifies this`h, buffer
      ensures Cut((start + was) + data)
    {
      hide Iterate, Good;
      if used == 0 {
        assert (start + was) + data == start + data;
        KeepRest(data, start);
        return;
      }
      var available := 64 - used;
      if |data| < available {
        Put(used, data);
        assert buffer[..used + |data|] == was + data;
        StillOpen(start, was, data);
        return;
      }
      Put(used, data[..available]);
      assert buffer[..] == was + data[..available];
      BodyOn(buffer[..], start);
      WholeAgain(start, buffer[..]);
      Split(start, was, data[..available], data[available..]);
      assert data == data[..available] + data[available..];
      KeepRest(data[available..], start + buffer[..]);
    }

    // The whole blocks of what is left are compressed, the rest is kept.
    method KeepRest(rest: seq<bv8>, ghost start: seq<bv8>)
      requires Good(f) && Md5Shape(f) && buffer.Length == 64 && |start| % 64 == 0 && h == Iterate(f, f.init, start)
      modifies this`h, buffer
      ensures Cut(start + rest)
    {
      hide Iterate, Good;
      var n := |rest| / 64 * 64;
      CutAt(start, rest, n);
      if |rest| >= 64 {
        BodyOn(rest[..n], start);
      } else {
        assert start + rest[..n] == start;
      }
      Put(0, rest[n..]);
      assert buffer[..|rest[n..]|] == buffer[0..|rest[n..]|] == rest[n..];
    }

    lemma CutAt(start: seq<bv8>, rest: seq<bv8>, n: nat)
      requires |start| % 64 == 0 && n == |rest| / 64 * 64
      ensures n <= |rest| && n % 64 == 0 && |rest| - n == |start + rest| % 64 < 64
      ensures var m := start + rest; m[..|m| - |m| % 64] == start + rest[..n] && m[|m| - |m| % 64..] == rest[n..]
    {
      QuotientIs(|start| + |rest|, 64, |start| / 64 + |rest| / 64, |rest| % 64);
    }

    // Compressing blocks behind what was compressed.
    method BodyOn(s: seq<bv8>, ghost start: seq<bv8>)
      requires Good(f) && f.blockSize == 64 && |s| % 64 == 0 && |start| % 64 == 0 && h == Iterate(f, f.init, start)
      modifies this`h
      ensures h == Iterate(f, f.init, start + s)
    {
      IterateBoth(f, f.init, start, s);
      Body(s);
    }

    // The bytes of start are compressed, and those of part wait in the buffer.
    ghost predicate Held(start: seq<bv8>, part: seq<bv8>)
      reads this, buffer
    {
      Good(f) && Md5Shape(f) && buffer.Length == 64 && |start| % 64 == 0 && |part| <= 64 &&
      h == Iterate(f, f.init, start) && buffer[..|part|] == part
    }

    method Append(s: seq<bv8>, ghost start: seq<bv8>, ghost part: seq<bv8>, at: nat)
      requires Held(start, part) && at == |part| && at + |s| <= 64
      modifies buffer
      ensures Held(start, part + s)
    {
      hide Iterate, Good;
      Put(at, s);
      assert buffer[..at + |s|] == part + s;
    }

    method CompressFull(ghost start: seq<bv8>, ghost part: seq<bv8>)
      requires Held(start, part) && |part| == 64
      modifies this`h
      ensures Held(start + part, [])
    {
      hide Iterate, Good;
      assert buffer[..] == part;
      WholeAgain(start, part);
      BodyOn(buffer[..], start);
    }

    lemma ValidHeld()
      requires Valid()
      ensures Held(msg[..|msg| - |msg| % 64], msg[|msg| - |msg| % 64..]) && Counts(lo, hi, |msg|) && Md5Shape(f) && f.blockSize > 0
    {
      hide Iterate, Good, Counts;
      StillOpen(msg[..|msg| - |msg| % 64], [], []);
    }

    lemma HeldState(start: seq<bv8>)
      requires Held(start, [])
      ensures h == Iterate(f, f.init, start) && f.blockSize > 0
    {
      hide Iterate;
    }

    // MD5_Final, up to the clearing of the context
    method Final() returns (result: seq<bv8>)
      requires Valid()
      modifies this`h, buffer
      ensures result == Md5Of(f, old(msg))
    {
      hide *;
      ValidHeld();
      UsedBytes(lo, hi, |msg|);
      GapBytes(f, |msg|);
      var used := lo % 64;
      ghost var start, part := msg[..|msg| - |msg| % 64], msg[|msg| - |msg| % 64..];
      ghost var tail, gap := part, Gap(f, |msg|);
      Append([0x80], start, part, used);
      used := used + 1;
      part := part + [0x80];
      var available := 64 - used;
      if available < 8 {
        Append(Zeros(available), start, part, used);
        CompressFull(start, part + Zeros(available));
        start, part := start + (part + Zeros(available)), [];
        used, available := 0, 64;
      }
      Append(Zeros(available - 8), start, part, used);
      var length := LittleEndian(lo * 8, 4) + LittleEndian(hi, 4);
      Append(length, start, part + Zeros(available - 8), 56);
      CompressFull(start, (part + Zeros(available - 8)) + length);
      AllPadded(msg, tail, start, part, available - 8, gap, length);
      HeldState(start + ((part + Zeros(available - 8)) + length));
      Md5Is(f, msg, lo, hi);
      result := h;
    }
  }

  lemma Md5Is(f: Hash, m: seq<bv8>, lo: nat, hi: nat)
    requires f.blockSize > 0 && Counts(lo, hi, |m|)
    ensures Md5Of(f, m) == Iterate(f, f.init, m + ([0x80] + Zeros(Gap(f, |m|)) + (LittleEndian(lo * 8, 4) + LittleEndian(hi, 4))))
  {
    hide Iterate, Gap, LittleEndian, Counts;
    LengthBytes(lo, hi, |m|);
  }

  lemma UsedBytes(lo: nat, hi: nat, n: nat)
    requires Counts(lo, hi, n)
    ensures lo % 64 == n % 64
  {
    assert n == TWO29 * (n / TWO29) + lo;
    QuotientIs(n, 64, 0x80_0000 * (n / TWO29) + lo / 64, lo % 64);
  }

  // The zeros between the 0x80 and the length.
  lemma GapBytes(f: Hash, n: nat)
    requires Md5Shape(f)
    ensures Gap(f, n) == if n % 64 < 56 then 55 - n % 64 else 119 - n % 64
  {
  }

  lemma WholeAgain(start: seq<bv8>, block: seq<bv8>)
    requires |start| % 64 == 0 && |block| == 64
    ensures |start + block| % 64 == 0
  {
  }

  lemma StillOpen(start: seq<bv8>, was: seq<bv8>, data: seq<bv8>)
    requires |start| % 64 == 0 && |was| + |data| < 64
    ensures var m := (start + was) + data; |m| % 64 == |was| + |data| && m[..|m| - |m| % 64] == start && m[|m| - |m| % 64..] == was + data
  {
    var m := (start + was) + data;
    QuotientIs(|m|, 64, |start| / 64, |was| + |data|);
  }

  // The message and more, cut where the last whole block ends.
  lemma Split(start: seq<bv8>, was: seq<bv8>, first: seq<bv8>, rest: seq<bv8>)
    ensures (start + was) + (first + rest) == (start + (was + first)) + rest
  {
  }

  lemma AllPadded(msg: seq<bv8>, tail: seq<bv8>, start: seq<bv8>, padded: seq<bv8>, zeros: nat, gap: nat, length: seq<bv8>)
    requires |tail| <= |msg| && tail == msg[|msg| - |tail|..]
    requires zeros <= gap
    requires (start == msg[..|msg| - |tail|] && padded == tail + [0x80] && zeros == gap) ||
             (start == msg[..|msg| - |tail|] + (tail + [0x80] + Zeros(gap - zeros)) && padded == [])
    ensures start + ((padded + Zeros(zeros)) + length) == msg + ([0x80] + Zeros(gap) + length)
  {
    assert msg == msg[..|msg| - |tail|] + tail;
    assert Zeros(gap) == Zeros(gap - zeros) + Zeros(zeros);
  }
}
