// The ChaCha20 stream cipher: the block function of section 2.3 of RFC 8439 and the
// encryption of section 2.4, on 32-bit words.

module ChaCha20 {

  // ----- Section 2.1: the quarter round -----

  datatype Turn = By16 | By12 | By8 | By7

  function Sum(x: bv32, y: bv32): bv32 {
    x + y
  }

  function Turned(x: bv32, y: bv32, c: Turn): bv32 {
    match c
    case By16 => (x ^ y).RotateLeft(16)
    case By12 => (x ^ y).RotateLeft(12)
    case By8 => (x ^ y).RotateLeft(8)
    case By7 => (x ^ y).RotateLeft(7)
  }

  // Word a takes word b in, and word d takes word a in and turns.
  function Mixed(s: seq<bv32>, a: nat, b: nat, d: nat, turn: Turn): (t: seq<bv32>)
    requires |s| == 16 && a < 16 && b < 16 && d < 16 && a != d
    ensures |t| == 16
  {
    var v := Sum(s[a], s[b]);
    s[a := v][d := Turned(s[d], v, turn)]
  }

  predicate Apart(a: nat, b: nat, c: nat, d: nat) {
    a < 16 && b < 16 && c < 16 && d < 16 && a != b && a != c && a != d && b != c && b != d && c != d
  }

  // A quarter round on words a, b, c and d of the state, as in section 2.2.
  function QuarterAt(s: seq<bv32>, a: nat, b: nat, c: nat, d: nat): (t: seq<bv32>)
    requires |s| == 16 && Apart(a, b, c, d)
    ensures |t| == 16
  {
    Mixed(Mixed(Mixed(Mixed(s, a, b, d, By16), c, d, b, By12), a, b, d, By8), c, d, b, By7)
  }

  // ----- Section 2.3: the block function -----

  function Columns(s: seq<bv32>): (t: seq<bv32>)
    requires |s| == 16
    ensures |t| == 16
  {
    QuarterAt(QuarterAt(QuarterAt(QuarterAt(s, 0, 4, 8, 12), 1, 5, 9, 13), 2, 6, 10, 14), 3, 7, 11, 15)
  }

  function Diagonals(s: seq<bv32>): (t: seq<bv32>)
    requires |s| == 16
    ensures |t| == 16
  {
    QuarterAt(QuarterAt(QuarterAt(QuarterAt(s, 0, 5, 10, 15), 1, 6, 11, 12), 2, 7, 8, 13), 3, 4, 9, 14)
  }

  function Rounds(s: seq<bv32>, n: nat): (t: seq<bv32>)
    requires |s| == 16
    ensures |t| == 16
  {
    if n == 0 then s else Diagonals(Columns(Rounds(s, n - 1)))
  }

  function Load(b0: bv8, b1: bv8, b2: bv8, b3: bv8): bv32 {
    (b0 as bv32) | ((b1 as bv32) << 8) | ((b2 as bv32) << 16) | ((b3 as bv32) << 24)
  }

  function LoadAt(s: seq<bv8>, i: nat): bv32
    requires i + 4 <= |s|
  {
    Load(s[i], s[i + 1], s[i + 2], s[i + 3])
  }

  // Byte k of a word, lowest first.
  function ByteOf(w: bv32, k: nat): bv8
    requires k < 4
  {
    if k == 0 then (w & 0xFF) as bv8
    else if k == 1 then ((w >> 8) & 0xFF) as bv8
    else if k == 2 then ((w >> 16) & 0xFF) as bv8
    else (w >> 24) as bv8
  }

  function LoadWords(s: seq<bv8>, n: nat): (w: seq<bv32>)
    requires |s| == 4 * n
    ensures |w| == n
  {
    seq(n, k requires 0 <= k < n => LoadAt(s, 4 * k))
  }

  const CONSTANTS: seq<bv32> := [0x61707865, 0x3320646e, 0x79622d32, 0x6b206574]

  function Start(key: seq<bv8>, nonce: seq<bv8>, counter: bv32): (s: seq<bv32>)
    requires |key| == 32 && |nonce| == 12
    ensures |s| == 16
  {
    CONSTANTS + LoadWords(key, 8) + [counter] + LoadWords(nonce, 3)
  }

  // Word i of a key stream block.
  function BlockWord(s: seq<bv32>, i: nat): bv32
    requires |s| == 16 && i < 16
  {
    Sum(Rounds(s, 10)[i], s[i])
  }

  function BlockByte(s: seq<bv32>, k: nat): bv8
    requires |s| == 16 && k < 64
  {
    ByteOf(BlockWord(s, k / 4), k % 4)
  }

  // ----- Section 2.4: encryption -----

  // The counter after n blocks, modulo 2^32.
  function Ahead(counter: bv32, n: nat): bv32 {
    if n == 0 then counter else Sum(Ahead(counter, n - 1), 1)
  }

  // Byte k of the key stream that starts with a block counter.
  function KeyByte(key: seq<bv8>, nonce: seq<bv8>, counter: bv32, k: nat): bv8
    requires |key| == 32 && |nonce| == 12
  {
    BlockByte(Start(key, nonce, Ahead(counter, k / 64)), k % 64)
  }

  function Xor(a: bv8, b: bv8): bv8 {
    a ^ b
  }

  function Encrypted(s: seq<bv8>, key: seq<bv8>, nonce: seq<bv8>, counter: bv32): (t: seq<bv8>)
    requires |key| == 32 && |nonce| == 12
    ensures |t| == |s|
  {
    seq(|s|, k requires 0 <= k < |s| => Xor(s[k], KeyByte(key, nonce, counter, k)))
  }

  // Decryption is encryption again.
  lemma TwiceIsNothing(s: seq<bv8>, key: seq<bv8>, nonce: seq<bv8>, counter: bv32)
    requires |key| == 32 && |nonce| == 12
    ensures Encrypted(Encrypted(s, key, nonce, counter), key, nonce, counter) == s
  {
    hide KeyByte, Xor;
    var t := Encrypted(s, key, nonce, counter);
    forall k | 0 <= k < |s|
      ensures Encrypted(t, key, nonce, counter)[k] == s[k]
    {
      XorTwice(s[k], KeyByte(key, nonce, counter, k));
    }
  }

  lemma XorTwice(a: bv8, b: bv8)
    ensures Xor(Xor(a, b), b) == a
  {
  }

  // ----- The words in place -----

  // ROL32
  function Rol32(x: bv32, c: Turn): bv32 {
    match c
    case By16 => (x << 16) | (x >> 16)
    case By12 => (x << 12) | (x >> 20)
    case By8 => (x << 8) | (x >> 24)
    case By7 => (x << 7) | (x >> 25)
  }

  // One of the four lines of the macro CC20QR
  method Mix(x: array<bv32>, a: nat, b: nat, d: nat, turn: Turn)
    requires x.Length == 16 && a < 16 && b < 16 && d < 16 && a != d
    modifies x
    ensures x[..] == Mixed(old(x[..]), a, b, d, turn)
  {
    hide Turned, Sum;
    x[a] := Added(x[a], x[b]);
    x[d] := Mingled(x[d], x[a], turn);
  }

  function Added(v: bv32, w: bv32): (r: bv32)
    ensures r == Sum(v, w)
  {
    v + w
  }

  function Mingled(x: bv32, y: bv32, c: Turn): (r: bv32)
    ensures r == Turned(x, y, c)
  {
    Rol32(x ^ y, c)
  }

  // The macro CC20QR
  method QuarterRound(x: array<bv32>, a: nat, b: nat, c: nat, d: nat)
    requires x.Length == 16 && Apart(a, b, c, d)
    modifies x
    ensures x[..] == QuarterAt(old(x[..]), a, b, c, d)
  {
    hide Mixed;
    Mix(x, a, b, d, By16);
    Mix(x, c, d, b, By12);
    Mix(x, a, b, d, By8);
    Mix(x, c, d, b, By7);
  }

  // chacha20_block
  method Block(x: array<bv32>)
    requires x.Length == 16
    modifies x
    ensures x[..] == Rounds(old(x[..]), 10)
  {
    hide QuarterAt;
    for i := 0 to 10
      invariant x[..] == Rounds(old(x[..]), i)
    {
      QuarterRound(x, 0, 4, 8, 12);
      QuarterRound(x, 1, 5, 9, 13);
      QuarterRound(x, 2, 6, 10, 14);
      QuarterRound(x, 3, 7, 11, 15);
      QuarterRound(x, 0, 5, 10, 15);
      QuarterRound(x, 1, 6, 11, 12);
      QuarterRound(x, 2, 7, 8, 13);
      QuarterRound(x, 3, 4, 9, 14);
    }
  }

  function Mixed32(v: bv32, w: bv32): bv32 {
    v ^ w
  }

  // The bytes of a word that was combined with four bytes are those of the word,
  // combined with them one by one.
  lemma XorByBytes(w: bv32, b0: bv8, b1: bv8, b2: bv8, b3: bv8)
    ensures var x := Mixed32(w, Load(b0, b1, b2, b3));
            ByteOf(x, 0) == Xor(b0, ByteOf(w, 0)) && ByteOf(x, 1) == Xor(b1, ByteOf(w, 1)) &&
            ByteOf(x, 2) == Xor(b2, ByteOf(w, 2)) && ByteOf(x, 3) == Xor(b3, ByteOf(w, 3))
  {
  }

  // ----- The buffer in place -----

  // Four bytes of the buffer, read and stored as one word.
  method XorWord(buf: array<bv8>, p: nat, w: bv32)
    requires p + 4 <= buf.Length
    modifies buf
    ensures forall j :: 0 <= j < buf.Length ==> buf[j] == if p <= j < p + 4 then Xor(old(buf[j]), ByteOf(w, j - p)) else old(buf[j])
  {
    hide ByteOf, Xor, Load, Mixed32;
    XorByBytes(w, buf[p], buf[p + 1], buf[p + 2], buf[p + 3]);
    var x := Mixed32(w, Load(buf[p], buf[p + 1], buf[p + 2], buf[p + 3]));
    buf[p] := ByteOf(x, 0);
    buf[p + 1] := ByteOf(x, 1);
    buf[p + 2] := ByteOf(x, 2);
    buf[p + 3] := ByteOf(x, 3);
  }

  method Copied(x: array<bv32>) returns (y: array<bv32>)
    requires x.Length == 16
    ensures fresh(y) && y[..] == x[..]
  {
    y := new bv32[16](_ => 0);
    for i := 0 to 16
      invariant y[..i] == x[..i]
    {
      y[i] := x[i];
    }
  }

  // A whole block of the buffer, word by word.
  method XorBlock(buf: array<bv8>, at: nat, state: array<bv32>)
    requires at + 64 <= buf.Length && state.Length == 16
    modifies buf
    ensures forall j :: 0 <= j < buf.Length ==> buf[j] == if at <= j < at + 64 then Xor(old(buf[j]), BlockByte(state[..], j - at)) else old(buf[j])
  {
    hide Xor, ByteOf, Rounds, Sum;
    var block := Copied(state);
    Block(block);
    for i := 0 to 16
      invariant fresh(block) && block.Length == 16 && block[..] == Rounds(state[..], 10)
      invariant forall j :: 0 <= j < buf.Length ==> buf[j] == if at <= j < at + 4 * i then Xor(old(buf[j]), BlockByte(state[..], j - at)) else old(buf[j])
    {
      var w := Added(block[i], state[i]);
      assert w == BlockWord(state[..], i);
      XorWord(buf, at + 4 * i, w);
    }
  }

  // What is left, byte by byte.
  method XorLast(buf: array<bv8>, at: nat, n: nat, state: array<bv32>)
    requires n <= 64 && at + n <= buf.Length && state.Length == 16
    modifies buf, state
    ensures forall j :: 0 <= j < buf.Length ==> buf[j] == if at <= j < at + n then Xor(old(buf[j]), BlockByte(old(state[..]), j - at)) else old(buf[j])
  {
    hide Xor, ByteOf, Rounds, Sum, BlockByte;
    ghost var s := state[..];
    var block := Copied(state);
    Block(state);
    var bytes := BlockBytes(state, block);
    assert block[..] == s;
    for i := 0 to n
      invariant forall k :: 0 <= k < 64 ==> bytes[k] == BlockByte(s, k)
      invariant forall j :: 0 <= j < buf.Length ==> buf[j] == if at <= j < at + i then Xor(old(buf[j]), BlockByte(s, j - at)) else old(buf[j])
    {
      buf[at + i] := Xor(buf[at + i], bytes[i]);
    }
  }

  method BlockBytes(state: array<bv32>, block: array<bv32>) returns (bytes: array<bv8>)
    requires state.Length == 16 && block.Length == 16 && state != block && state[..] == Rounds(block[..], 10)
    modifies state
    ensures fresh(bytes) && bytes.Length == 64 && forall k :: 0 <= k < 64 ==> bytes[k] == BlockByte(block[..], k)
  {
    hide ByteOf, Rounds, Sum;
    bytes := new bv8[64](_ => 0);
    ghost var s, r := block[..], state[..];
    for i := 0 to 16
      invariant block[..] == s && forall k :: i <= k < 16 ==> state[k] == r[k]
      invariant forall k :: 0 <= k < 4 * i ==> bytes[k] == BlockByte(s, k)
    {
      state[i] := Added(state[i], block[i]);
      assert state[i] == BlockWord(s, i);
      bytes[4 * i] := ByteOf(state[i], 0);
      bytes[4 * i + 1] := ByteOf(state[i], 1);
      bytes[4 * i + 2] := ByteOf(state[i], 2);
      bytes[4 * i + 3] := ByteOf(state[i], 3);
    }
  }

  // The first n bytes from a place are encrypted, and nothing else has changed.
  ghost predicate Done(s: seq<bv8>, t: seq<bv8>, from: nat, n: nat, key: seq<bv8>, nonce: seq<bv8>, counter: bv32)
    requires |key| == 32 && |nonce| == 12
  {
    |t| == |s| && forall j :: 0 <= j < |s| ==> t[j] == if from <= j < from + n then Xor(s[j], KeyByte(key, nonce, counter, j - from)) else s[j]
  }

  lemma MoreDone(s: seq<bv8>, t: seq<bv8>, u: seq<bv8>, from: nat, blocks: nat, n: nat, key: seq<bv8>, nonce: seq<bv8>, counter: bv32)
    requires |key| == 32 && |nonce| == 12 && n <= 64 && Done(s, t, from, 64 * blocks, key, nonce, counter) && |u| == |s|
    requires forall j :: 0 <= j < |u| ==>
               u[j] == if from + 64 * blocks <= j < from + 64 * blocks + n
                       then Xor(t[j], BlockByte(Start(key, nonce, Ahead(counter, blocks)), j - (from + 64 * blocks))) else t[j]
    ensures Done(s, u, from, 64 * blocks + n, key, nonce, counter)
  {
    hide Xor, BlockByte, Start;
    forall j | from + 64 * blocks <= j < from + 64 * blocks + n && j < |s|
      ensures u[j] == Xor(s[j], KeyByte(key, nonce, counter, j - from))
    {
      assert (j - from) / 64 == blocks && (j - from) % 64 == j - (from + 64 * blocks);
    }
  }

  // chacha20_xor
  method Chacha20Xor(buf: array<bv8>, from: nat, n: nat, key: seq<bv8>, nonce: seq<bv8>, counter: bv32)
    requires from + n <= buf.Length && |key| == 32 && |nonce| == 12
    modifies buf
    ensures buf[from..from + n] == Encrypted(old(buf[from..from + n]), key, nonce, counter)
    ensures buf[..from] == old(buf[..from]) && buf[from + n..] == old(buf[from + n..])
  {
    hide Xor, BlockByte, Start, KeyByte, Ahead;
    var state := NewState(key, nonce, counter);
    var left: nat, at := n, from;
    ghost var s, blocks: nat := buf[..], 0;
    while left > 64
      invariant fresh(state) && state.Length == 16 && left + 64 * blocks == n && at == from + 64 * blocks
      invariant state[..] == Start(key, nonce, Ahead(counter, blocks)) && Done(s, buf[..], from, 64 * blocks, key, nonce, counter)
      decreases left
    {
      ghost var t := buf[..];
      XorBlock(buf, at, state);
      MoreDone(s, t, buf[..], from, blocks, 64, key, nonce, counter);
      NextStart(key, nonce, counter, blocks);
      state[12] := Added(state[12], 1);
      at := at + 64;
      left := left - 64;
      blocks := blocks + 1;
    }
    ghost var t := buf[..];
    XorLast(buf, at, left, state);
    MoreDone(s, t, buf[..], from, blocks, left, key, nonce, counter);
    DoneIsEncrypted(s, buf[..], from, n, key, nonce, counter);
  }

  // n words from the bytes.
  method PutWords(state: array<bv32>, at: nat, bytes: seq<bv8>, n: nat)
    requires at + n <= state.Length && |bytes| == 4 * n
    modifies state
    ensures state[at..at + n] == LoadWords(bytes, n)
    ensures state[..at] == old(state[..at]) && state[at + n..] == old(state[at + n..])
  {
    hide LoadAt;
    for i := 0 to n
      invariant forall k :: at <= k < at + i ==> state[k] == LoadAt(bytes, 4 * (k - at))
      invariant forall k :: 0 <= k < at || at + n <= k < state.Length ==> state[k] == old(state[k])
    {
      state[at + i] := LoadAt(bytes, 4 * i);
    }
  }

  lemma FourParts(s: seq<bv32>, a: seq<bv32>, b: seq<bv32>, c: bv32, d: seq<bv32>)
    requires |s| == 16 && s[..4] == a && s[4..12] == b && s[12] == c && s[13..16] == d
    ensures s == a + b + [c] + d
  {
  }

  method NewState(key: seq<bv8>, nonce: seq<bv8>, counter: bv32) returns (state: array<bv32>)
    requires |key| == 32 && |nonce| == 12
    ensures fresh(state) && state.Length == 16 && state[..] == Start(key, nonce, Ahead(counter, 0))
  {
    hide LoadWords;
    state := new bv32[16](_ => 0);
    for i := 0 to 4
      invariant state[..i] == CONSTANTS[..i]
    {
      state[i] := CONSTANTS[i];
    }
    PutWords(state, 4, key, 8);
    assert state[..4] == CONSTANTS;
    state[12] := counter;
    assert state[..4] == CONSTANTS && state[4..12] == LoadWords(key, 8) && state[..13][..4] == state[..4] && state[..13][4..12] == state[4..12];
    ghost var front := state[..13];
    PutWords(state, 13, nonce, 3);
    assert state[..4] == front[..4] && state[4..12] == front[4..12] && state[12] == front[12];
    FourParts(state[..], CONSTANTS, LoadWords(key, 8), counter, LoadWords(nonce, 3));
  }

  lemma NextStart(key: seq<bv8>, nonce: seq<bv8>, counter: bv32, n: nat)
    requires |key| == 32 && |nonce| == 12
    ensures var s := Start(key, nonce, Ahead(counter, n)); s[12 := Sum(s[12], 1)] == Start(key, nonce, Ahead(counter, n + 1))
  {
    hide LoadAt;
  }

  lemma DoneIsEncrypted(s: seq<bv8>, t: seq<bv8>, from: nat, n: nat, key: seq<bv8>, nonce: seq<bv8>, counter: bv32)
    requires |key| == 32 && |nonce| == 12 && from + n <= |s| && Done(s, t, from, n, key, nonce, counter)
    ensures t[from..from + n] == Encrypted(s[from..from + n], key, nonce, counter) && t[..from] == s[..from] && t[from + n..] == s[from + n..]
  {
    hide Xor, KeyByte;
  }
}
