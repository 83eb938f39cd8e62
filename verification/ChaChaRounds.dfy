// What the rounds of ChaCha20 do to the words, written out with their rotations, and the
// block of section 2.3.2 of RFC 8439 followed through all of them.

module ChaChaRounds {
  import opened ChaCha20

  // ----- The rounds ----------------------------------------------------------------------

  function Rotated(x: bv32, y: bv32, n: nat): bv32
    requires n <= 32
  {
    (x ^ y).RotateLeft(n)
  }

  // A quarter round on four words, as section 2.1 writes it out.
  function Quarter(a: bv32, b: bv32, c: bv32, d: bv32): (bv32, bv32, bv32, bv32) {
    var a1 := Sum(a, b);
    var d1 := Rotated(d, a1, 16);
    var c1 := Sum(c, d1);
    var b1 := Rotated(b, c1, 12);
    var a2 := Sum(a1, b1);
    var d2 := Rotated(d1, a2, 8);
    var c2 := Sum(c1, d2);
    (a2, Rotated(b1, c2, 7), c2, d2)
  }

  lemma TurnedIs(x: bv32, y: bv32)
    ensures Turned(x, y, By16) == Rotated(x, y, 16) && Turned(x, y, By12) == Rotated(x, y, 12)
    ensures Turned(x, y, By8) == Rotated(x, y, 8) && Turned(x, y, By7) == Rotated(x, y, 7)
  {
  }

  lemma QuarterParts(a: bv32, b: bv32, c: bv32, d: bv32)
    ensures var a1 := Sum(a, b);
            var d1 := Turned(d, a1, By16);
            var c1 := Sum(c, d1);
            var b1 := Turned(b, c1, By12);
            var a2 := Sum(a1, b1);
            var d2 := Turned(d1, a2, By8);
            var c2 := Sum(c1, d2);
            Quarter(a, b, c, d) == (a2, Turned(b1, c2, By7), c2, d2)
  {
    hide Sum, Turned, Rotated;
    var a1 := Sum(a, b);
    var d1 := Turned(d, a1, By16);
    var c1 := Sum(c, d1);
    var b1 := Turned(b, c1, By12);
    var a2 := Sum(a1, b1);
    var d2 := Turned(d1, a2, By8);
    TurnedIs(d, a1);
    TurnedIs(b, c1);
    TurnedIs(d1, a2);
    TurnedIs(b1, Sum(c1, d2));
  }

  lemma QuarterIs(s: seq<bv32>, a: nat, b: nat, c: nat, d: nat)
    requires |s| == 16 && Apart(a, b, c, d)
    ensures var (x, y, z, w) := Quarter(s[a], s[b], s[c], s[d]);
            QuarterAt(s, a, b, c, d) == s[a := x][b := y][c := z][d := w]
  {
    hide Sum, Turned, Quarter;
    var s1 := Mixed(s, a, b, d, By16);
    var s2 := Mixed(s1, c, d, b, By12);
    var s3 := Mixed(s2, a, b, d, By8);
    assert Mixed(s3, c, d, b, By7) == QuarterAt(s, a, b, c, d);
    QuarterParts(s[a], s[b], s[c], s[d]);
  }

  // Four words of s became four words of t.
  predicate Quartered(s: seq<bv32>, t: seq<bv32>, a: nat, b: nat, c: nat, d: nat)
    requires |s| == |t| == 16 && Apart(a, b, c, d)
  {
    Quarter(s[a], s[b], s[c], s[d]) == (t[a], t[b], t[c], t[d])
  }

  lemma QuarterKeeps(s: seq<bv32>, a: nat, b: nat, c: nat, d: nat)
    requires |s| == 16 && Apart(a, b, c, d)
    ensures var t := QuarterAt(s, a, b, c, d);
            Quartered(s, t, a, b, c, d) && forall k :: 0 <= k < 16 && k != a && k != b && k != c && k != d ==> t[k] == s[k]
  {
    hide Quarter, QuarterAt;
    QuarterIs(s, a, b, c, d);
  }

  // The four words of every column, read as rows of four, are mixed on their own.
  lemma ColumnsAre(s: seq<bv32>)
    requires |s| == 16
    ensures var t := Columns(s);
            Quartered(s, t, 0, 4, 8, 12) && Quartered(s, t, 1, 5, 9, 13) && Quartered(s, t, 2, 6, 10, 14) && Quartered(s, t, 3, 7, 11, 15)
  {
    hide Quarter, QuarterAt;
    QuarterKeeps(s, 0, 4, 8, 12);
    var s1 := QuarterAt(s, 0, 4, 8, 12);
    QuarterKeeps(s1, 1, 5, 9, 13);
    var s2 := QuarterAt(s1, 1, 5, 9, 13);
    QuarterKeeps(s2, 2, 6, 10, 14);
    QuarterKeeps(QuarterAt(s2, 2, 6, 10, 14), 3, 7, 11, 15);
  }

  // So are those of every diagonal.
  lemma DiagonalsAre(s: seq<bv32>)
    requires |s| == 16
    ensures var t := Diagonals(s);
            Quartered(s, t, 0, 5, 10, 15) && Quartered(s, t, 1, 6, 11, 12) && Quartered(s, t, 2, 7, 8, 13) && Quartered(s, t, 3, 4, 9, 14)
  {
    hide Quarter, QuarterAt;
    QuarterKeeps(s, 0, 5, 10, 15);
    var s1 := QuarterAt(s, 0, 5, 10, 15);
    QuarterKeeps(s1, 1, 6, 11, 12);
    var s2 := QuarterAt(s1, 1, 6, 11, 12);
    QuarterKeeps(s2, 2, 7, 8, 13);
    QuarterKeeps(QuarterAt(s2, 2, 7, 8, 13), 3, 4, 9, 14);
  }

  // ----- Words and bytes -------------------------------------------------------------------

  // The bytes of a word make it up again, the lowest first.
  lemma WordBytes(w: bv32)
    ensures Load(ByteOf(w, 0), ByteOf(w, 1), ByteOf(w, 2), ByteOf(w, 3)) == w
  {
  }

  // What comes behind whole blocks is encrypted as if it came first, with the counter that
  // many blocks ahead.
  lemma EncryptedBehind(s: seq<bv8>, t: seq<bv8>, key: seq<bv8>, nonce: seq<bv8>, counter: bv32, n: nat)
    requires |key| == 32 && |nonce| == 12 && |s| == 64 * n
    ensures Encrypted(s + t, key, nonce, counter) == Encrypted(s, key, nonce, counter) + Encrypted(t, key, nonce, Ahead(counter, n))
  {
    hide Ahead, KeyByte, Xor;
    var u := s + t;
    forall k | 0 <= k < |t|
      ensures Encrypted(u, key, nonce, counter)[64 * n + k] == Xor(t[k], KeyByte(key, nonce, Ahead(counter, n), k))
    {
      KeyByteBehind(key, nonce, counter, n, k);
      assert u[64 * n + k] == t[k];
    }
    var e := Encrypted(u, key, nonce, counter);
    assert e[..|s|] == Encrypted(s, key, nonce, counter);
    assert e[|s|..] == Encrypted(t, key, nonce, Ahead(counter, n));
  }

  lemma KeyByteBehind(key: seq<bv8>, nonce: seq<bv8>, counter: bv32, n: nat, k: nat)
    requires |key| == 32 && |nonce| == 12
    ensures KeyByte(key, nonce, counter, 64 * n + k) == KeyByte(key, nonce, Ahead(counter, n), k)
  {
    hide Ahead, Start, BlockByte;
    assert (64 * n + k) / 64 == n + k / 64 && (64 * n + k) % 64 == k % 64;
    AheadTwice(counter, n, k / 64);
  }

  lemma {:induction false} AheadTwice(counter: bv32, m: nat, n: nat)
    ensures Ahead(Ahead(counter, m), n) == Ahead(counter, m + n)
  {
    hide Sum;
    if n > 0 {
      AheadTwice(counter, m, n - 1);
    }
  }

  // The counter steps by one and starts over after 2^32 - 1.
  lemma AheadNext(counter: bv32)
    ensures Ahead(counter, 1) == counter + 1 && Ahead(0xffffffff, 1) == 0
  {
    assert Ahead(counter, 0) == counter && Ahead(0xffffffff, 0) == 0xffffffff;
  }

  // ----- The block of section 2.3.2 ---------------------------------------------------------

  const KEY: seq<bv8> :=
    [0x00, 0x01, 0x02, 0x03, 0x04, 0x05, 0x06, 0x07, 0x08, 0x09, 0x0a, 0x0b, 0x0c, 0x0d, 0x0e, 0x0f,
     0x10, 0x11, 0x12, 0x13, 0x14, 0x15, 0x16, 0x17, 0x18, 0x19, 0x1a, 0x1b, 0x1c, 0x1d, 0x1e, 0x1f]
  const NONCE: seq<bv8> := [0x00, 0x00, 0x00, 0x09, 0x00, 0x00, 0x00, 0x4a, 0x00, 0x00, 0x00, 0x00]

  // The state before the rounds and after every two of them.
  const STATE0: seq<bv32> :=
    [0x61707865, 0x3320646e, 0x79622d32, 0x6b206574, 0x03020100, 0x07060504, 0x0b0a0908, 0x0f0e0d0c,
     0x13121110, 0x17161514, 0x1b1a1918, 0x1f1e1d1c, 0x00000001, 0x09000000, 0x4a000000, 0x00000000]
  const STATE1: seq<bv32> :=
    [0xcd52e917, 0x85ab03b4, 0xb3457395, 0xf96de7dd, 0xc4b7cd22, 0x5c2e187a, 0xc95eb461, 0x316c801a,
     0x7bf7d740, 0x7eddd644, 0xf1a1bdf5, 0x761246ca, 0x6b0d58a3, 0x6798471a, 0xd737f167, 0xf173888d]
  const STATE2: seq<bv32> :=
    [0xcf1a7584, 0x048927ec, 0x54051fda, 0xc244ff28, 0x901d2f40, 0x7974b81c, 0x378dcfb4, 0xcd47fd0e,
     0x2dafb216, 0x27c89cd6, 0xcd3c9aa0, 0x79fc89c7, 0x10aef18d, 0x16218765, 0x68f76705, 0x04d6ee22]
  const STATE3: seq<bv32> :=
    [0x03a14032, 0x66b15927, 0x9d6b6b42, 0xb84c4109, 0xa7143ae0, 0xa09b33dd, 0xa5daaf88, 0x2fd91a73,
     0xc90c6b18, 0x5a202413, 0xc20e01b6, 0x72cd6b74, 0xba35d777, 0xb360f1bf, 0x8178315b, 0x2cd11b1a]
  const STATE4: seq<bv32> :=
    [0x9a2d3589, 0x0b23fc4e, 0x40af3b6b, 0xceea8144, 0x0a1bffc6, 0x5e5993f7, 0x9904c2e7, 0x0d334718,
     0xe46c6354, 0xc9503229, 0x04fef5aa, 0xf8933f72, 0x2687d476, 0x54e65231, 0x3594ffc5, 0x2b3bb2ca]
  const STATE5: seq<bv32> :=
    [0xc53318c5, 0xca325d96, 0x7e7d11cb, 0x3404e2ca, 0x26d7cf73, 0x6088d379, 0xc0f0e9bd, 0xe310cdb9,
     0xae2ca8db, 0x42f67c72, 0x71669aca, 0x975c171d, 0x9e5ec228, 0x7d85a9f3, 0x201d0756, 0x63fa6953]
  const STATE6: seq<bv32> :=
    [0x04a3131a, 0x66176309, 0x0415bab1, 0x61b880a2, 0x36cc86c7, 0xbf8a4465, 0xf77dd720, 0xfc0bdc90,
     0x07d13aca, 0xeb0be9af, 0x61599491, 0x918512dc, 0x33b6686d, 0x795cc671, 0xc0049972, 0xa0a81bde]
  const STATE7: seq<bv32> :=
    [0x9b70f51f, 0x7ea8ac11, 0x21e54da9, 0xca393b2f, 0x93b08686, 0x6a4c50ae, 0x19212a5a, 0x9b032958,
     0xd839165e, 0x4c06e28a, 0xd3fde99e, 0x26acc13d, 0xa609f555, 0x2c246549, 0x95151853, 0x2c847a0d]
  const STATE8: seq<bv32> :=
    [0xca5c85dd, 0x93a4f90e, 0xd9f0df58, 0x26dd82dd, 0x982563f8, 0x712aa9ff, 0x279a61e8, 0x970f72bd,
     0x1c25931a, 0x5180bb10, 0x779c27e7, 0x54077e08, 0xa9b751fb, 0x382f3ce2, 0x8db1757d, 0xcc38080b]
  const STATE9: seq<bv32> :=
    [0xb6b87de6, 0x9a016148, 0x93859815, 0x4915e6cc, 0xdc33c122, 0x98e18fa3, 0x5ffbe8fc, 0xf7154b8b,
     0x28c1fcb3, 0xc4b38f9d, 0x83e2f5d7, 0x7d24b98b, 0x21078b22, 0xb193e7a3, 0xb2f49389, 0x6cde6026]
  const STATE10: seq<bv32> :=
    [0x837778ab, 0xe238d763, 0xa67ae21e, 0x5950bb2f, 0xc4f2d0c7, 0xfc62bb2f, 0x8fa018fc, 0x3f5ec7b7,
     0x335271c2, 0xf29489f3, 0xeabda8fc, 0x82e46ebd, 0xd19c12b4, 0xb04e16de, 0x9e83d0cb, 0x4e3c50a2]

  // The block: the state after twenty rounds, added to the first.
  const BLOCK: seq<bv32> :=
    [0xe4e7f110, 0x15593bd1, 0x1fdd0f50, 0xc47120a3, 0xc7f4d1c7, 0x0368c033, 0x9aaa2204, 0x4e6cd4c3,
     0x466482d2, 0x09aa9f07, 0x05d7c214, 0xa2028bd9, 0xd19c12b5, 0xb94e16de, 0xe883d0cb, 0x4e3c50a2]

  // Its first bytes.
  const STREAM: seq<bv8> := [0x10, 0xf1, 0xe7, 0xe4, 0xd1, 0x3b, 0x59, 0x15, 0x50, 0x0f, 0xdd, 0x1f, 0xa3, 0x20, 0x71, 0xc4]

  lemma KeyWords()
    ensures LoadWords(KEY, 8) == STATE0[4..12]
  {
    hide Load;
    FrontWords();
    MoreWords();
    BackWords();
    LastWords();
  }

  lemma FrontWords()
    ensures LoadAt(KEY, 0) == 0x03020100 && LoadAt(KEY, 4) == 0x07060504
  {
  }

  lemma MoreWords()
    ensures LoadAt(KEY, 8) == 0x0b0a0908 && LoadAt(KEY, 12) == 0x0f0e0d0c
  {
  }

  lemma BackWords()
    ensures LoadAt(KEY, 16) == 0x13121110 && LoadAt(KEY, 20) == 0x17161514
  {
  }

  lemma LastWords()
    ensures LoadAt(KEY, 24) == 0x1b1a1918 && LoadAt(KEY, 28) == 0x1f1e1d1c
  {
  }

  lemma NonceWords()
    ensures LoadWords(NONCE, 3) == STATE0[13..]
  {
    assert LoadAt(NONCE, 0) == 0x09000000 && LoadAt(NONCE, 4) == 0x4a000000 && LoadAt(NONCE, 8) == 0x00000000;
  }

  lemma StateZero()
    ensures Start(KEY, NONCE, 1) == STATE0
  {
    hide LoadWords;
    KeyWords();
    NonceWords();
  }

  lemma Rounds1()
    ensures Diagonals(Columns(STATE0)) == STATE1
  {
    hide Columns, Diagonals;
    var s: seq<bv32> :=
      [0xabbaa25c, 0x1efa51ea, 0x7354fbdf, 0x83d2dc69, 0x3a465196, 0x1c7e64f6, 0xb12fb628, 0xf05b6976,
       0x6b3ca454, 0x08eb14b1, 0xbf8a9ac9, 0xe444df3b, 0xdec62ed2, 0x8862cc77, 0x6e35b345, 0x52a647f1];
    ColumnsAre(STATE0);
    assert Columns(STATE0) == s;
    DiagonalsAre(s);
  }

  lemma Rounds2()
    ensures Diagonals(Columns(STATE1)) == STATE2
  {
    hide Columns, Diagonals;
    var s: seq<bv32> :=
      [0xe3e1111b, 0xa6291491, 0x5a82b80c, 0x4500fd45, 0xd65b5b5b, 0xf56af099, 0x4ccc8103, 0xc94d29e2,
       0xe67aec54, 0xf7a52d82, 0xdb470914, 0xdfb40f1d, 0x7be81c0d, 0x1d92d0fd, 0x13139f8c, 0x7a26ecaa];
    ColumnsAre(STATE1);
    assert Columns(STATE1) == s;
    DiagonalsAre(s);
  }

  lemma Rounds3()
    ensures Diagonals(Columns(STATE2)) == STATE3
  {
    hide Columns, Diagonals;
    var s: seq<bv32> :=
      [0xa22695f2, 0xa908cf6c, 0xe6ae05b2, 0xfe0ff04b, 0x1ece4458, 0xe82b726f, 0x5a21ab90, 0x87698c64,
       0xf2d36da6, 0xf4dab980, 0x7baf5573, 0xa78c270d, 0x6fda6bf7, 0x65a4b0ce, 0x25e6d76e, 0x1b7b11ec];
    ColumnsAre(STATE2);
    assert Columns(STATE2) == s;
    DiagonalsAre(s);
  }

  lemma Rounds4()
    ensures Diagonals(Columns(STATE3)) == STATE4
  {
    hide Columns, Diagonals;
    var s: seq<bv32> :=
      [0xfecd0838, 0x160ab468, 0x9a0ddf4e, 0xbac7154a, 0xcedf6624, 0xb11de6c4, 0xbd7810ef, 0xd22b5643,
       0x1d8a33ea, 0x87dc1ca9, 0x89bd34a5, 0x5505ef62, 0xa818b852, 0xb100446a, 0x9c1d70b1, 0xa1d1befa];
    ColumnsAre(STATE3);
    assert Columns(STATE3) == s;
    DiagonalsAre(s);
  }

  lemma Rounds5()
    ensures Diagonals(Columns(STATE4)) == STATE5
  {
    hide Columns, Diagonals;
    var s: seq<bv32> :=
      [0x85e7824a, 0x4940cd9e, 0xfbe7684b, 0x7335d03d, 0x1c133ea1, 0xbba40b0f, 0x9413992a, 0xa4ab2040,
       0xa3a66a86, 0xc0b4754f, 0x771b4ecb, 0x165151a1, 0xde008464, 0x34f0058b, 0x70846cfa, 0xa3271b09];
    ColumnsAre(STATE4);
    assert Columns(STATE4) == s;
    DiagonalsAre(s);
  }

  lemma Rounds6()
    ensures Diagonals(Columns(STATE5)) == STATE6
  {
    hide Columns, Diagonals;
    var s: seq<bv32> :=
      [0x9950b826, 0xcac7ccc6, 0x84a67673, 0xdb3109a6, 0x2121065a, 0xc12bdadb, 0xcae3acd1, 0x594616cb,
       0x19078de2, 0x178ecc02, 0xe6adbdb2, 0x52a9d50e, 0x40ca72b3, 0x3b9bf852, 0x78690378, 0xe17d4902];
    ColumnsAre(STATE5);
    assert Columns(STATE5) == s;
    DiagonalsAre(s);
  }

  lemma Rounds7()
    ensures Diagonals(Columns(STATE6)) == STATE7
  {
    hide Columns, Diagonals;
    var s: seq<bv32> :=
      [0x57c5e6da, 0x35ce46a8, 0x0c041bb9, 0xfa91df79, 0x8e85d82f, 0xb4819d06, 0xb63be200, 0xacd221e4,
       0x434b4749, 0x1d459c00, 0x111cfe2c, 0x55942604, 0x49ee03a6, 0xd11a5554, 0xa7202e04, 0x7d2215bc];
    ColumnsAre(STATE6);
    assert Columns(STATE6) == s;
    DiagonalsAre(s);
  }

  lemma Rounds8()
    ensures Diagonals(Columns(STATE7)) == STATE8
  {
    hide Columns, Diagonals;
    var s: seq<bv32> :=
      [0xc0b18aee, 0x087445ba, 0x36e52ad9, 0xa777426a, 0xdeb54e9c, 0x802c883b, 0x06e86889, 0x3c002680,
       0xa82d65d4, 0x687f11eb, 0xe9d36207, 0x4242ddae, 0x4103c64e, 0x82816a91, 0xb584ca56, 0xfd0bd2b9];
    ColumnsAre(STATE7);
    assert Columns(STATE7) == s;
    DiagonalsAre(s);
  }

  lemma Rounds9()
    ensures Diagonals(Columns(STATE8)) == STATE9
  {
    hide Columns, Diagonals;
    var s: seq<bv32> :=
      [0x765c6e9c, 0x5ab09b11, 0x3ee7da04, 0x37c31203, 0x9046ecaa, 0x7b88d882, 0xb9b577dd, 0x156de7ed,
       0x46fa091e, 0x5117e9b5, 0x862ff22b, 0xa3fcc7a6, 0x72a5aace, 0x5fa7f1c5, 0xda563e0a, 0x5263d7ca];
    ColumnsAre(STATE8);
    assert Columns(STATE8) == s;
    DiagonalsAre(s);
  }

  lemma Rounds10()
    ensures Diagonals(Columns(STATE9)) == STATE10
  {
    hide Columns, Diagonals;
    var s: seq<bv32> :=
      [0x8a07ff15, 0x0cadc51c, 0x017c8da9, 0x4afbe5df, 0x913768fe, 0x442a0c0c, 0x598fe3bb, 0x47d18828,
       0x0a39aedc, 0xc1428029, 0x7b48135f, 0x5a5f1098, 0x2d4cfe3e, 0xe5466d1b, 0xe4ccdc13, 0x8ac92a18];
    ColumnsAre(STATE9);
    assert Columns(STATE9) == s;
    DiagonalsAre(s);
  }

  lemma AllRounds()
    ensures Rounds(STATE0, 10) == STATE10
  {
    hide Columns, Diagonals;
    assert Rounds(STATE0, 0) == STATE0;
    Rounds1();
    assert Rounds(STATE0, 1) == STATE1;
    Rounds2();
    assert Rounds(STATE0, 2) == STATE2;
    Rounds3();
    assert Rounds(STATE0, 3) == STATE3;
    Rounds4();
    assert Rounds(STATE0, 4) == STATE4;
    Rounds5();
    assert Rounds(STATE0, 5) == STATE5;
    Rounds6();
    assert Rounds(STATE0, 6) == STATE6;
    Rounds7();
    assert Rounds(STATE0, 7) == STATE7;
    Rounds8();
    assert Rounds(STATE0, 8) == STATE8;
    Rounds9();
    assert Rounds(STATE0, 9) == STATE9;
    Rounds10();
    assert Rounds(STATE0, 10) == STATE10;
  }

  lemma BlockWords()
    ensures forall i :: 0 <= i < 16 ==> BlockWord(STATE0, i) == BLOCK[i]
  {
    AllRounds();
    hide Rounds;
    forall i | 0 <= i < 16 ensures BlockWord(STATE0, i) == BLOCK[i] {
      AddedWord(i);
    }
  }

  lemma AddedWord(i: nat)
    requires i < 16
    ensures Sum(STATE10[i], STATE0[i]) == BLOCK[i]
  {
  }

  lemma LoadedBytes(a: bv8, b: bv8, c: bv8, d: bv8)
    ensures var w := Load(a, b, c, d);
            ByteOf(w, 0) == a && ByteOf(w, 1) == b && ByteOf(w, 2) == c && ByteOf(w, 3) == d
  {
  }

  lemma StreamWords()
    ensures |STREAM| == 16 == |BLOCK|
    ensures LoadAt(STREAM, 0) == BLOCK[0] && LoadAt(STREAM, 4) == BLOCK[1] && LoadAt(STREAM, 8) == BLOCK[2] && LoadAt(STREAM, 12) == BLOCK[3]
  {
  }

  lemma StreamByte(k: nat)
    requires k < 16
    ensures ByteOf(BLOCK[k / 4], k % 4) == STREAM[k]
  {
    hide Load, ByteOf, BLOCK, STREAM;
    StreamWords();
    var i := 4 * (k / 4);
    LoadedBytes(STREAM[i], STREAM[i + 1], STREAM[i + 2], STREAM[i + 3]);
  }

  // Encrypting zeros gives the bytes of the standard.
  lemma StandardBlock(zeros: seq<bv8>)
    requires |zeros| == 64 && forall k :: 0 <= k < 64 ==> zeros[k] == 0
    ensures forall k :: 0 <= k < 64 ==> Encrypted(zeros, KEY, NONCE, 1)[k] == ByteOf(BLOCK[k / 4], k % 4)
    ensures Encrypted(zeros, KEY, NONCE, 1)[..16] == STREAM
  {
    hide KeyByte, Xor, ByteOf;
    var e := Encrypted(zeros, KEY, NONCE, 1);
    forall k | 0 <= k < 64 ensures e[k] == ByteOf(BLOCK[k / 4], k % 4) {
      StandardByte(k);
      ZeroXor(ByteOf(BLOCK[k / 4], k % 4));
    }
    forall k | 0 <= k < 16 ensures e[..16][k] == STREAM[k] {
      StreamByte(k);
    }
  }

  lemma StandardByte(k: nat)
    requires k < 64
    ensures KeyByte(KEY, NONCE, 1, k) == ByteOf(BLOCK[k / 4], k % 4)
  {
    hide Rounds, Load, Start, BlockWord, Sum, ByteOf;
    StateZero();
    BlockWords();
    assert k / 64 == 0 && k % 64 == k && Ahead(1, 0) == 1;
  }

  lemma ZeroXor(b: bv8)
    ensures Xor(0, b) == b
  {
  }
}
