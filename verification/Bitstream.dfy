// Bits packed into bytes, lowest bit first: the compressor's bit buffer and the
// decompressor's.

module Bitstream {
  import opened Bits
  import opened Ints

  function BitsOf(s: seq<byte>): seq<bool> {
    if s == [] then [] else Lsb(s[0], 8) + BitsOf(s[1..])
  }

  lemma {:induction false} BitsOfBoth(s: seq<byte>, t: seq<byte>)
    ensures BitsOf(s + t) == BitsOf(s) + BitsOf(t)
  {
    if s == [] {
      assert s + t == t;
    } else {
      assert (s + t)[1..] == s[1..] + t;
      BitsOfBoth(s[1..], t);
    }
  }

  lemma BitsOfOne(b: byte)
    ensures BitsOf([b]) == Lsb(b, 8)
  {
    assert [b][1..] == [];
  }

  lemma {:induction false} BitsOfLength(s: seq<byte>)
    ensures |BitsOf(s)| == 8 * |s|
  {
    if s != [] {
      BitsOfLength(s[1..]);
    }
  }

  lemma {:induction false} LsbSplit(x: nat, m: nat, n: nat)
    ensures Lsb(x, m + n) == Lsb(x, m) + Lsb(High(x, m), n)
  {
    if m > 0 {
      LsbSplit(x / 2, m - 1, n);
      assert Lsb(x, m + n) == [x % 2 == 1] + (Lsb(x / 2, m - 1) + Lsb(High(x, m), n));
    }
  }

  lemma {:induction false} LsbOfLow(x: nat, n: nat)
    ensures Lsb(Low(x, n), n) == Lsb(x, n)
  {
    if n > 0 {
      LsbOfLow(x / 2, n - 1);
    }
  }

  // Two numbers side by side.
  lemma LsbJoin(a: nat, m: nat, b: nat, n: nat)
    requires a < Pow2(m)
    ensures Lsb(a + Pow2(m) * b, m + n) == Lsb(a, m) + Lsb(b, n)
  {
    var x := a + Pow2(m) * b;
    PartsAre(a, m, b);
    LsbSplit(x, m, n);
    LsbOfLow(x, m);
  }

  lemma {:induction false} PartsAre(a: nat, m: nat, b: nat)
    requires a < Pow2(m)
    ensures Low(a + Pow2(m) * b, m) == a && High(a + Pow2(m) * b, m) == b
  {
    if m > 0 {
      Twice(Pow2(m - 1), b);
      assert (a + Pow2(m) * b) % 2 == a % 2 && (a + Pow2(m) * b) / 2 == a / 2 + Pow2(m - 1) * b;
      PartsAre(a / 2, m - 1, b);
    }
  }

  lemma {:induction false} HighSmall(x: nat, m: nat, n: nat)
    requires x < Pow2(m + n)
    ensures High(x, m) < Pow2(n)
  {
    if m > 0 {
      HighSmall(x / 2, m - 1, n);
    }
  }

  lemma ByteParts(x: nat)
    ensures Low(x, 8) == x % 256 && High(x, 8) == x / 256
  {
    Pow2Values();
    LowHigh(x, 8);
    QuotientIs(x, 256, High(x, 8), Low(x, 8));
  }

  // TDEFL_PUT_BITS and the state it works on
  class Writer {
    var bitBuffer: nat
    var bitsIn: nat
    var out: seq<byte>

    ghost predicate Valid()
      reads this
    {
      bitsIn < 8 && bitBuffer < Pow2(bitsIn)
    }

    ghost function Stream(): seq<bool>
      reads this
    {
      BitsOf(out) + Lsb(bitBuffer, bitsIn)
    }

    constructor ()
      ensures Valid() && Stream() == [] && out == []
    {
      bitBuffer, bitsIn, out := 0, 0, [];
    }

    // Back to an earlier state: what was put since is forgotten.
    method Restore(bitBuffer: nat, bitsIn: nat, out: seq<byte>)
      requires bitsIn < 8 && bitBuffer < Pow2(bitsIn)
      modifies this
      ensures Valid() && this.bitsIn == bitsIn && this.out == out && Stream() == BitsOf(out) + Lsb(bitBuffer, bitsIn)
    {
      this.bitBuffer, this.bitsIn, this.out := bitBuffer, bitsIn, out;
    }

    method PutBits(bits: nat, len: nat)
      requires Valid() && len <= 16 && bits < Pow2(len)
      modifies this
      ensures Valid() && Stream() == old(Stream()) + Lsb(bits, len)
    {
      hide Pow2, Lsb, BitsOf;
      LsbJoin(bitBuffer, bitsIn, bits, len);
      JoinSmall(bitBuffer, bitsIn, bits, len);
      bitBuffer := bitBuffer + bits * Pow2(bitsIn);
      bitsIn := bitsIn + len;
      assert Stream() == old(Stream()) + Lsb(bits, len);
      while bitsIn >= 8
        invariant bitBuffer < Pow2(bitsIn) && Stream() == old(Stream()) + Lsb(bits, len)
      {
        PutByte();
      }
    }

    method PutByte()
      requires bitsIn >= 8 && bitBuffer < Pow2(bitsIn)
      modifies this
      ensures bitsIn == old(bitsIn) - 8 && bitBuffer < Pow2(bitsIn) && Stream() == old(Stream())
    {
      hide Pow2, Lsb, BitsOf;
      var b: byte := bitBuffer % 256;
      ByteOut(bitBuffer, bitsIn, b);
      BitsOfBoth(out, [b]);
      BitsOfOne(b);
      out := out + [b];
      bitBuffer := bitBuffer / 256;
      bitsIn := bitsIn - 8;
    }
  }

  lemma JoinSmall(a: nat, m: nat, b: nat, n: nat)
    requires a < Pow2(m) && b < Pow2(n)
    ensures a + b * Pow2(m) < Pow2(m + n) && b * Pow2(m) == Pow2(m) * b
  {
    Pow2Sum(m, n);
    var p, q := Pow2(m), Pow2(n);
    assert p * q == p * b + p * (q - b);
    GrowsBy(p, q - b);
  }

  lemma FirstByte(src: seq<byte>, pos: nat)
    requires pos < |src|
    ensures BitsOf(src[pos..]) == Lsb(src[pos], 8) + BitsOf(src[pos + 1..])
  {
    assert src[pos..][1..] == src[pos + 1..];
  }

  lemma ByteIn(x: nat, n: nat, c: byte)
    requires x < Pow2(n)
    ensures x + c * Pow2(n) < Pow2(n + 8) && Lsb(x + c * Pow2(n), n + 8) == Lsb(x, n) + Lsb(c, 8)
  {
    assert c < Pow2(8) by { Pow2Values(); }
    hide Pow2, Lsb;
    LsbJoin(x, n, c, 8);
    JoinSmall(x, n, c, 8);
  }

  lemma ByteOut(x: nat, n: nat, b: byte)
    requires n >= 8 && x < Pow2(n) && b == x % 256
    ensures Lsb(x, n) == Lsb(b, 8) + Lsb(x / 256, n - 8) && x / 256 < Pow2(n - 8)
  {
    ByteParts(x);
    LsbSplit(x, 8, n - 8);
    LsbOfLow(x, 8);
    HighSmall(x, 8, n - 8);
  }

  ghost predicate Taken(src: seq<byte>, pos: nat, bitBuf: nat, numBits: nat) {
    pos <= |src| && numBits <= 8 * pos <= |BitsOf(src)| && Lsb(bitBuf, numBits) + BitsOf(src[pos..]) == BitsOf(src)[8 * pos - numBits..]
  }

  // The bits from a byte on are those of the bytes from there on.
  lemma BitsFromByte(src: seq<byte>, pos: nat)
    requires pos <= |src|
    ensures 8 * pos <= |BitsOf(src)| && BitsOf(src)[8 * pos..] == BitsOf(src[pos..])
  {
    BitsOfBoth(src[..pos], src[pos..]);
    BitsOfLength(src[..pos]);
    assert src[..pos] + src[pos..] == src;
  }

  lemma RestLength(src: seq<byte>, pos: nat, bitBuf: nat, numBits: nat)
    requires pos <= |src|
    ensures |Lsb(bitBuf, numBits) + BitsOf(src[pos..])| == numBits + 8 * (|src| - pos)
    ensures |Lsb(bitBuf, numBits) + BitsOf(src[pos..])| % 8 == numBits % 8
  {
    hide BitsOf;
    BitsOfLength(src[pos..]);
    EightMore(numBits, |src| - pos);
  }

  lemma EightMore(n: nat, k: nat)
    ensures (n + 8 * k) % 8 == n % 8
  {
    QuotientIs(n + 8 * k, 8, n / 8 + k, n % 8);
  }

  lemma TakenLess(src: seq<byte>, pos: nat, bitBuf: nat, numBits: nat, n: nat)
    requires Taken(src, pos, bitBuf, numBits) && n <= numBits
    ensures Taken(src, pos, High(bitBuf, n), numBits - n) && n <= |Lsb(bitBuf, numBits) + BitsOf(src[pos..])|
    ensures Lsb(High(bitBuf, n), numBits - n) + BitsOf(src[pos..]) == (Lsb(bitBuf, numBits) + BitsOf(src[pos..]))[n..]
  {
    LsbSplit(bitBuf, n, numBits - n);
    var a, b, c := Lsb(bitBuf, n), Lsb(High(bitBuf, n), numBits - n), BitsOf(src[pos..]);
    assert |a| == n;
    hide Lsb, BitsOf, High;
    DropFirst(a, b, c);
    var all, k := BitsOf(src), 8 * pos - numBits;
    assert all[k..][n..] == all[k + n..];
  }

  lemma DropFirst(a: seq<bool>, b: seq<bool>, c: seq<bool>)
    ensures ((a + b) + c)[|a|..] == b + c
  {
  }

  // Whole bytes left in the buffer can go back to the input.
  lemma PutBack(src: seq<byte>, pos: nat, bitBuf: nat, n: nat)
    requires Taken(src, pos, bitBuf, 8 * n)
    ensures n <= pos <= |src| && BitsOf(src[pos - n..]) == Lsb(bitBuf, 8 * n) + BitsOf(src[pos..])
    ensures Taken(src, pos - n, 0, 0)
  {
    BitsFromByte(src, pos - n);
    assert Lsb(0, 0) == [];
    hide Lsb, BitsOf;
  }

  // The decompressor's bit buffer and input.
  class Reader {
    const src: seq<byte>
    var pos: nat
    var bitBuf: nat
    var numBits: nat

    // The buffer has 32 bits, and those in it are the last ones taken from the input.
    ghost predicate Valid()
      reads this
    {
      pos <= |src| && numBits < 32 && bitBuf < Pow2(numBits) && Taken(src, pos, bitBuf, numBits)
    }

    // The bits not yet read.
    ghost function Rest(): seq<bool>
      requires Valid()
      reads this
    {
      Lsb(bitBuf, numBits) + BitsOf(src[pos..])
    }

    constructor (src: seq<byte>)
      ensures Valid() && Rest() == BitsOf(src) && this.src == src && pos == 0 && numBits == 0
    {
      assert src[0..] == src;
      assert Lsb(0, 0) + BitsOf(src) == BitsOf(src);
      this.src, pos, bitBuf, numBits := src, 0, 0, 0;
    }

    // TINFL_GET_BYTE and the shift that follows it
    method AddByte()
      requires Valid() && pos < |src| && numBits < 24
      modifies this
      ensures Valid() && numBits == old(numBits) + 8 && pos == old(pos) + 1 && Rest() == old(Rest())
    {
      hide Pow2, Lsb, BitsOf;
      var c := src[pos];
      ByteIn(bitBuf, numBits, c);
      FirstByte(src, pos);
      BitsFromByte(src, pos + 1);
      bitBuf := bitBuf + c * Pow2(numBits);
      numBits := numBits + 8;
      pos := pos + 1;
    }

    // TINFL_GET_BYTE with nothing in the buffer
    method TakeByte() returns (c: byte)
      requires Valid() && numBits == 0 && pos < |src|
      modifies this`pos
      ensures Valid() && pos == old(pos) + 1 && c == src[old(pos)] && Rest() == BitsOf(src[pos..])
    {
      hide BitsOf;
      BitsFromByte(src, pos + 1);
      assert Lsb(bitBuf, 0) == [];
      c := src[pos];
      pos := pos + 1;
    }

    // The end of every read: the bits go out of the buffer.
    method Drop(n: nat)
      requires Valid() && n <= numBits
      modifies this`bitBuf, this`numBits
      ensures Valid() && numBits == old(numBits) - n && n <= |old(Rest())| && Rest() == old(Rest())[n..]
    {
      hide BitsOf, Lsb, Taken, Pow2, High;
      TakenLess(src, pos, bitBuf, numBits, n);
      HighSmall(bitBuf, n, numBits - n);
      bitBuf := High(bitBuf, n);
      numBits := numBits - n;
    }

    // After the last block: the rest of the byte is skipped, and what was read ahead goes back.
    method EndOfBlocks()
      requires Valid()
      modifies this
      ensures Valid() && numBits == 0 && BitsOf(src[pos..]) == old(Rest())[|old(Rest())| % 8..]
    {
      hide BitsOf, Lsb, Pow2, Taken;
      RestLength(src, pos, bitBuf, numBits);
      Drop(numBits % 8);
      GiveBack(numBits / 8);
    }

    method GiveBack(ghost n: nat)
      requires Valid() && numBits == 8 * n
      modifies this
      ensures Valid() && numBits == 0 && BitsOf(src[pos..]) == old(Rest())
    {
      hide BitsOf, Lsb, Taken, Pow2;
      Pow2Positive(0);
      PutBack(src, pos, bitBuf, n);
      ghost var to := pos - n;
      GiveBytes(n);
      assert pos == to;
      bitBuf := 0;
    }

    method GiveBytes(ghost n: nat)
      requires numBits == 8 * n && n <= pos
      modifies this`pos, this`numBits
      ensures numBits == 0 && pos == old(pos) - n
    {
      ghost var left := n;
      while pos > 0 && numBits >= 8
        invariant left <= pos && numBits == 8 * left && pos - left == old(pos) - n
      {
        pos := pos - 1;
        numBits := numBits - 8;
        left := left - 1;
      }
    }

    // TINFL_GET_BITS: it fails exactly when the input has too few bits.
    method GetBits(n: nat) returns (ok: bool, b: nat)
      requires Valid() && n <= 16
      modifies this
      ensures Valid() && (ok <==> n <= |old(Rest())|)
      ensures n <= old(numBits) ==> ok && numBits == old(numBits) - n
      ensures ok ==> b < Pow2(n) && Lsb(b, n) == old(Rest())[..n] && Rest() == old(Rest())[n..]
    {
      b := 0;
      while numBits < n
        invariant Valid() && numBits <= 23 + 8 && (numBits > 23 ==> numBits >= n) && Rest() == old(Rest())
        invariant n <= old(numBits) ==> numBits == old(numBits)
        decreases |src| - pos
      {
        if pos == |src| {
          return false, 0;
        }
        AddByte();
      }
      b := Low(bitBuf, n);
      LsbSplit(bitBuf, n, numBits - n);
      LsbOfLow(bitBuf, n);
      LowHigh(bitBuf, n);
      Drop(n);
      ok := true;
    }
  }
}
