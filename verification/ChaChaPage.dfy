// Database pages under ChaCha20 with a Poly1305 tag: what is written to a page of the file
// and what is read back from it.

module ChaChaPage {
  import opened Ints
  import opened ChaCha20
  import Poly1305

  const RESERVED: nat := 32       // PAGE_RESERVED_CHACHA20: nonce and tag
  const NONCE_LENGTH: nat := 16   // twelve bytes of nonce and four of counter
  const OTK_LENGTH: nat := 64
  const SALT_LENGTH: nat := 16
  const PAGE1_OFFSET: nat := 24   // CIPHER_PAGE1_OFFSET
  const MIN_PAGE: nat := 512
  const MAX_PLAINTEXT: nat := 100 // the size of a database header

  // "SQLite format 3" and its terminating zero
  const FILE_HEADER: seq<bv8> := [0x53, 0x51, 0x4C, 0x69, 0x74, 0x65, 0x20, 0x66, 0x6F, 0x72, 0x6D, 0x61, 0x74, 0x20, 0x33, 0x00]

  datatype Rc = Okay | Corrupt | NotADb

  // The cipher of a database; iv makes the nonce of a page that has no room for one.
  datatype Cipher = Cipher(legacy: bool, plaintextHeaderSize: nat, key: seq<bv8>, salt: seq<bv8>, iv: bv32 -> seq<bv8>)

  ghost predicate Good(c: Cipher) {
    |c.key| == 32 && |c.salt| == SALT_LENGTH && c.plaintextHeaderSize <= MAX_PLAINTEXT && forall page :: |c.iv(page)| == NONCE_LENGTH
  }

  function Reserved(c: Cipher, reserved: nat): (n: nat)
    ensures n <= RESERVED
  {
    if reserved == 0 && !c.legacy then 0 else RESERVED
  }

  // The reserved bytes of the page are enough, or in the legacy format exactly right.
  predicate Fits(c: Cipher, reserved: nat) {
    if c.legacy then Reserved(c, reserved) == reserved else Reserved(c, reserved) <= reserved
  }

  // Where the encrypted part of a page begins.
  function Offset(c: Cipher, page: bv32): (n: nat)
    ensures c.plaintextHeaderSize <= MAX_PLAINTEXT ==> n <= MAX_PLAINTEXT
  {
    if page != 1 then 0
    else if c.legacy then c.plaintextHeaderSize
    else if c.plaintextHeaderSize > PAGE1_OFFSET then c.plaintextHeaderSize else PAGE1_OFFSET
  }

  // The salt takes the place of the file header.
  predicate Salted(c: Cipher, page: bv32) {
    page == 1 && c.plaintextHeaderSize == 0
  }

  // ----- What a page in the file is -----

  function Counter(nonce: seq<bv8>, page: bv32): bv32
    requires |nonce| == NONCE_LENGTH
  {
    LoadAt(nonce, 12) ^ page
  }

  function Zeros(n: nat): (s: seq<bv8>)
    ensures |s| == n
  {
    seq(n, _ => 0)
  }

  // The one-time keys of a page: half for the tag, half for the text.
  function OneTimeKeys(c: Cipher, nonce: seq<bv8>, page: bv32): (k: seq<bv8>)
    requires |c.key| == 32 && |nonce| == NONCE_LENGTH
    ensures |k| == OTK_LENGTH
  {
    Encrypted(Zeros(OTK_LENGTH), c.key, nonce[..12], Counter(nonce, page))
  }

  // The text of a page, encrypted or decrypted from the offset on.
  function Turned(c: Cipher, nonce: seq<bv8>, page: bv32, text: seq<bv8>): (t: seq<bv8>)
    requires |c.key| == 32 && |nonce| == NONCE_LENGTH && Offset(c, page) <= |text|
    ensures |t| == |text|
  {
    text[..Offset(c, page)] +
    Encrypted(text[Offset(c, page)..], OneTimeKeys(c, nonce, page)[32..], nonce[..12], ChaCha20.Sum(Counter(nonce, page), 1))
  }

  function Bytes(s: seq<bv8>): (t: seq<byte>)
    ensures |t| == |s|
  {
    seq(|s|, k requires 0 <= k < |s| => s[k] as byte)
  }

  function LittleBytes(v: nat, n: nat): (s: seq<bv8>)
    ensures |s| == n
  {
    if n == 0 then [] else [(v % 256) as bv8] + LittleBytes(v / 256, n - 1)
  }

  // The tag of section 2.5 of RFC 8439.
  function Tag(s: seq<bv8>, key: seq<bv8>): (t: seq<bv8>)
    requires |key| == 32
    ensures |t| == 16
  {
    LittleBytes(Poly1305.Tag(Bytes(s), Bytes(key)), 16)
  }

  function Replaced(start: seq<bv8>, s: seq<bv8>): (t: seq<bv8>)
    requires |start| <= |s|
    ensures |t| == |s|
  {
    start + s[|start|..]
  }

  // The text of a page in the file.
  function CipherText(c: Cipher, nonce: seq<bv8>, page: bv32, text: seq<bv8>): (t: seq<bv8>)
    requires |c.key| == 32 && |c.salt| <= |text| && |nonce| == NONCE_LENGTH && Offset(c, page) <= |text|
    ensures |t| == |text|
  {
    var t := Turned(c, nonce, page, text);
    if Salted(c, page) then Replaced(c.salt, t) else t
  }

  function WithTag(c: Cipher, nonce: seq<bv8>, page: bv32, t: seq<bv8>): seq<bv8>
    requires |c.key| == 32 && |nonce| == NONCE_LENGTH
  {
    t + nonce + Tag(t + nonce, OneTimeKeys(c, nonce, page)[..32])
  }

  // A page for the file; the nonce is random where there is room to keep it.
  function PageOut(c: Cipher, page: bv32, data: seq<bv8>, reserved: nat, random: seq<bv8>): seq<bv8>
    requires Good(c) && |data| >= MIN_PAGE && |random| == NONCE_LENGTH
  {
    if Reserved(c, reserved) == 0 then CipherText(c, c.iv(page), page, data)
    else WithTag(c, random, page, CipherText(c, random, page, data[..|data| - RESERVED]))
  }

  // Whether the stored tag is that of the page.
  predicate Genuine(c: Cipher, page: bv32, data: seq<bv8>)
    requires |c.key| == 32 && |data| >= MIN_PAGE
  {
    var n := |data| - RESERVED;
    data[n + 16..] == Tag(data[..n + 16], OneTimeKeys(c, data[n..n + 16], page)[..32])
  }

  function Plain(c: Cipher, nonce: seq<bv8>, page: bv32, text: seq<bv8>, genuine: bool): (t: seq<bv8>)
    requires |c.key| == 32 && SALT_LENGTH <= |text| && |nonce| == NONCE_LENGTH && Offset(c, page) <= |text|
    ensures |t| == |text|
  {
    var t := Turned(c, nonce, page, text);
    if Salted(c, page) && genuine then Replaced(FILE_HEADER, t) else t
  }

  // A page with its nonce and tag behind it.
  function Tagged(c: Cipher, page: bv32, data: seq<bv8>, genuine: bool): seq<bv8>
    requires |c.key| == 32 && |data| >= MIN_PAGE && Offset(c, page) <= |data| - RESERVED
  {
    var n := |data| - RESERVED;
    Plain(c, data[n..n + 16], page, data[..n], genuine) + data[n..]
  }

  // What reading a page makes of it.
  function PageIn(c: Cipher, page: bv32, data: seq<bv8>, reserved: nat, check: bool): seq<bv8>
    requires Good(c) && |data| >= MIN_PAGE
  {
    PlaceOf(c, page, |data| - RESERVED);
    if Reserved(c, reserved) == 0 then Plain(c, c.iv(page), page, data, true)
    else Tagged(c, page, data, check ==> Genuine(c, page, data))
  }

  // ----- Reading undoes writing -----

  lemma TurnedTwice(c: Cipher, nonce: seq<bv8>, page: bv32, text: seq<bv8>)
    requires |c.key| == 32 && |nonce| == NONCE_LENGTH && Offset(c, page) <= |text|
    ensures Turned(c, nonce, page, Turned(c, nonce, page, text)) == text
  {
    hide Encrypted, OneTimeKeys, Counter, ChaCha20.Sum, Offset;
    var n, t := Offset(c, page), Turned(c, nonce, page, text);
    var k, v := OneTimeKeys(c, nonce, page)[32..], ChaCha20.Sum(Counter(nonce, page), 1);
    TwiceIsNothing(text[n..], k, nonce[..12], v);
    assert t[..n] == text[..n] && t[n..] == Encrypted(text[n..], k, nonce[..12], v);
  }

  // Beyond the salt, the text turns the same way with or without the salt.
  lemma TurnedTail(c: Cipher, nonce: seq<bv8>, page: bv32, s: seq<bv8>, t: seq<bv8>)
    requires |c.key| == 32 && |nonce| == NONCE_LENGTH && Offset(c, page) <= |s| && |s| == |t| && SALT_LENGTH <= |s| && s[SALT_LENGTH..] == t[SALT_LENGTH..]
    ensures Turned(c, nonce, page, s)[SALT_LENGTH..] == Turned(c, nonce, page, t)[SALT_LENGTH..]
  {
    hide KeyByte, OneTimeKeys, Counter, ChaCha20.Sum, Offset, ChaCha20.Xor;
    var u, v := Turned(c, nonce, page, s), Turned(c, nonce, page, t);
    forall k | SALT_LENGTH <= k < |s|
      ensures u[k] == v[k]
    {
      assert s[k] == s[SALT_LENGTH..][k - SALT_LENGTH] && t[k] == t[SALT_LENGTH..][k - SALT_LENGTH];
      assert k >= Offset(c, page) ==> s[k] == s[Offset(c, page)..][k - Offset(c, page)] && t[k] == t[Offset(c, page)..][k - Offset(c, page)];
    }
  }

  lemma {:induction false} TextRoundTrip(c: Cipher, nonce: seq<bv8>, page: bv32, text: seq<bv8>)
    requires |c.key| == 32 && |c.salt| == SALT_LENGTH <= |text| && |nonce| == NONCE_LENGTH && Offset(c, page) <= |text|
    ensures Plain(c, nonce, page, CipherText(c, nonce, page, text), true) == if Salted(c, page) then Replaced(FILE_HEADER, text) else text
  {
    hide Turned, Offset;
    var t := Turned(c, nonce, page, text);
    TurnedTwice(c, nonce, page, text);
    if Salted(c, page) {
      var u := Replaced(c.salt, t);
      assert u[SALT_LENGTH..] == t[SALT_LENGTH..];
      TurnedTail(c, nonce, page, u, t);
    }
  }

  // A page that was written reads back as it was: the payload of every page, and on the
  // first page with the standard file header in front.
  lemma PageRoundTrip(c: Cipher, page: bv32, data: seq<bv8>, reserved: nat, random: seq<bv8>, check: bool)
    requires Good(c) && |data| >= MIN_PAGE && |random| == NONCE_LENGTH
    ensures var file := PageOut(c, page, data, reserved, random);
            var n := |data| - Reserved(c, reserved);
            |file| == |data| && (Reserved(c, reserved) > 0 ==> Genuine(c, page, file)) &&
            PageIn(c, page, file, reserved, check)[..n] == if Salted(c, page) then Replaced(FILE_HEADER, data[..n]) else data[..n]
  {
    hide Turned, Offset, Tag, OneTimeKeys, CipherText, Plain, Encrypted;
    var n := |data| - RESERVED;
    if Reserved(c, reserved) == 0 {
      TextRoundTrip(c, c.iv(page), page, data);
      assert data[..|data|] == data;
    } else {
      var t := CipherText(c, random, page, data[..n]);
      var file := WithTag(c, random, page, t);
      assert file[..n] == t && file[n..n + 16] == random && file[..n + 16] == t + random;
      TextRoundTrip(c, random, page, data[..n]);
    }
  }

  lemma ReplacedSame(start: seq<bv8>, s: seq<bv8>)
    requires |start| <= |s| && s[..|start|] == start
    ensures Replaced(start, s) == s
  {
    assert s == s[..|start|] + s[|start|..];
  }

  // A first page with the standard file header reads back whole.
  lemma HeaderRestored(c: Cipher, page: bv32, data: seq<bv8>, reserved: nat, random: seq<bv8>, check: bool)
    requires Good(c) && |data| >= MIN_PAGE && |random| == NONCE_LENGTH && (page == 1 ==> data[..SALT_LENGTH] == FILE_HEADER)
    ensures var n := |data| - Reserved(c, reserved);
            var file := PageOut(c, page, data, reserved, random);
            |file| == |data| && PageIn(c, page, file, reserved, check)[..n] == data[..n]
  {
    hide PageOut, PageIn;
    PageRoundTrip(c, page, data, reserved, random, check);
    var n := |data| - Reserved(c, reserved);
    assert data[..n][..SALT_LENGTH] == data[..SALT_LENGTH];
    if Salted(c, page) {
      ReplacedSame(FILE_HEADER, data[..n]);
    }
  }

  // The first page of the file begins with the salt, from which the key can be derived
  // before anything is decrypted, and shows the page size where a reader looks for it.
  lemma PageOneStart(c: Cipher, data: seq<bv8>, reserved: nat, random: seq<bv8>)
    requires Good(c) && |data| >= MIN_PAGE && |random| == NONCE_LENGTH
    ensures var file := PageOut(c, 1, data, reserved, random);
            |file| == |data| && (c.plaintextHeaderSize == 0 ==> file[..SALT_LENGTH] == c.salt) &&
            (!c.legacy ==> file[SALT_LENGTH..PAGE1_OFFSET] == data[SALT_LENGTH..PAGE1_OFFSET]) &&
            (c.plaintextHeaderSize > 0 ==> file[..c.plaintextHeaderSize] == data[..c.plaintextHeaderSize])
  {
    hide Tag, OneTimeKeys, Encrypted;
    var nonce := if Reserved(c, reserved) == 0 then c.iv(1) else random;
    var text := if Reserved(c, reserved) == 0 then data else data[..|data| - RESERVED];
    var t := CipherText(c, nonce, 1, text);
    assert PageOut(c, 1, data, reserved, random)[..|text|] == t;
    forall k | 0 <= k < Offset(c, 1) && !(Salted(c, 1) && k < SALT_LENGTH)
      ensures t[k] == data[k]
    {
      assert Turned(c, nonce, 1, text)[k] == text[k];
    }
    assert c.plaintextHeaderSize == 0 ==> t[..SALT_LENGTH] == c.salt;
    var file := PageOut(c, 1, data, reserved, random);
    assert forall k :: 0 <= k < |text| ==> file[k] == file[..|text|][k];
  }

  // ----- The format of a page, byte by byte -----

  lemma OneTimeKeyIs(c: Cipher, nonce: seq<bv8>, page: bv32)
    requires |c.key| == 32 && |nonce| == NONCE_LENGTH
    ensures OneTimeKeys(c, nonce, page) == seq(64, k requires 0 <= k < 64 => KeyByte(c.key, nonce[..12], LoadAt(nonce, 12) ^ page, k))
  {
    hide KeyByte;
    forall b: bv8 ensures ChaCha20.Xor(0, b) == b {
    }
  }

  // Bytes in front of the encrypted part are as they were, the others are combined with the
  // key stream of the page that follows the one its one-time keys are taken from.
  lemma TurnedBytes(c: Cipher, nonce: seq<bv8>, page: bv32, text: seq<bv8>, k: nat)
    requires |c.key| == 32 && |nonce| == NONCE_LENGTH && Offset(c, page) <= |text| && k < |text|
    ensures Turned(c, nonce, page, text)[k] ==
            if k < Offset(c, page) then text[k]
            else ChaCha20.Xor(text[k], KeyByte(OneTimeKeys(c, nonce, page)[32..], nonce[..12], (LoadAt(nonce, 12) ^ page) + 1, k - Offset(c, page)))
  {
    hide KeyByte, OneTimeKeys, Offset, ChaCha20.Xor;
    assert k >= Offset(c, page) ==> text[k] == text[Offset(c, page)..][k - Offset(c, page)];
  }

  // The first page keeps its first 24 bytes, but for the salt, or the readable header, which
  // in the legacy format may be shorter; any other page is encrypted from its start.
  lemma OffsetIs(c: Cipher, page: bv32)
    ensures page != 1 ==> Offset(c, page) == 0
    ensures page == 1 && c.legacy ==> Offset(c, page) == c.plaintextHeaderSize
    ensures page == 1 && !c.legacy ==> Offset(c, page) >= 24 && Offset(c, page) >= c.plaintextHeaderSize
    ensures page == 1 && !c.legacy ==> Offset(c, page) == 24 || Offset(c, page) == c.plaintextHeaderSize
  {
  }

  lemma FileHeaderIs()
    ensures |FILE_HEADER| == 16 && FILE_HEADER[15] == 0
    ensures forall k :: 0 <= k < 15 ==> FILE_HEADER[k] as int == "SQLite format 3"[k] as int
  {
    var h, t := FILE_HEADER, "SQLite format 3";
    assert t[0] as int == 83 && t[1] as int == 81 && t[2] as int == 76 && t[3] as int == 105 && t[4] as int == 116;
    assert t[5] as int == 101 && t[6] as int == 32 && t[7] as int == 102 && t[8] as int == 111 && t[9] as int == 114;
    assert t[10] as int == 109 && t[11] as int == 97 && t[12] as int == 116 && t[13] as int == 32 && t[14] as int == 51;
    assert h[0] as int == 83 && h[1] as int == 81 && h[2] as int == 76 && h[3] as int == 105 && h[4] as int == 116;
    assert h[5] as int == 101 && h[6] as int == 32 && h[7] as int == 102 && h[8] as int == 111 && h[9] as int == 114;
    assert h[10] as int == 109 && h[11] as int == 97 && h[12] as int == 116 && h[13] as int == 32 && h[14] as int == 51;
  }

  // There is room for nonce and tag, or in a plain format none is asked for.
  lemma FitsIs(c: Cipher, reserved: nat)
    ensures Fits(c, reserved) <==> if c.legacy then reserved == 32 else reserved == 0 || reserved >= 32
  {
  }

  // A page of the file: the text, and if bytes are reserved, or in the legacy format, behind
  // it sixteen bytes of nonce and the tag of all before it.
  lemma PageBytes(c: Cipher, page: bv32, data: seq<bv8>, reserved: nat, random: seq<bv8>, k: nat)
    requires Good(c) && |data| >= MIN_PAGE && |random| == NONCE_LENGTH && k < |data|
    ensures var file := PageOut(c, page, data, reserved, random);
            var tagged := reserved > 0 || c.legacy;
            var n := if tagged then |data| - 32 else |data|;
            var nonce := if tagged then random else c.iv(page);
            var keys := OneTimeKeys(c, nonce, page);
            Offset(c, page) <= n && |file| == |data| &&
            (k < 16 && page == 1 && c.plaintextHeaderSize == 0 ==> file[k] == c.salt[k]) &&
            (k < Offset(c, page) && (k >= 16 || page != 1 || c.plaintextHeaderSize > 0) ==> file[k] == data[k]) &&
            (Offset(c, page) <= k < n && (k >= 16 || page != 1 || c.plaintextHeaderSize > 0) ==>
               file[k] == ChaCha20.Xor(data[k], KeyByte(keys[32..], nonce[..12], (LoadAt(nonce, 12) ^ page) + 1, k - Offset(c, page)))) &&
            (n <= k < n + 16 ==> file[k] == nonce[k - n]) &&
            (n + 16 <= k ==> file[k] == Tag(file[..n + 16], keys[..32])[k - (n + 16)])
  {
    hide KeyByte, OneTimeKeys, Offset, ChaCha20.Xor, Tag, Turned;
    var tagged := reserved > 0 || c.legacy;
    var n := if tagged then |data| - 32 else |data|;
    var nonce := if tagged then random else c.iv(page);
    PlaceOf(c, page, n);
    var text := CipherText(c, nonce, page, data[..n]);
    if k < n {
      TurnedBytes(c, nonce, page, data[..n], k);
    }
    if tagged {
      var tag := Tag(text + nonce, OneTimeKeys(c, nonce, page)[..32]);
      assert PageOut(c, page, data, reserved, random) == text + nonce + tag;
      assert (text + nonce + tag)[..n + 16] == text + nonce;
    } else {
      assert data[..n] == data;
    }
  }

  // ----- The page in place -----

  lemma {:induction false} LittleOf(s: seq<byte>)
    ensures |LittleBytes(Poly1305.Little(s), |s|)| == |s|
    ensures forall k :: 0 <= k < |s| ==> LittleBytes(Poly1305.Little(s), |s|)[k] == s[k] as bv8
  {
    if s != [] {
      LittleStep(s);
      hide Poly1305.Little;
      LittleOf(s[1..]);
    }
  }

  lemma LittleStep(s: seq<byte>)
    requires s != []
    ensures Poly1305.Little(s) % 256 == s[0] && Poly1305.Little(s) / 256 == Poly1305.Little(s[1..])
  {
  }

  // poly1305 over the bytes of a page
  method TagOf(s: seq<bv8>, key: seq<bv8>) returns (t: seq<bv8>)
    requires |key| == 32
    ensures t == Tag(s, key)
  {
    var tag := new byte[16](_ => 0);
    Poly1305.Poly1305(Bytes(s), Bytes(key), tag);
    LittleOf(tag[..]);
    t := seq(16, k requires 0 <= k < 16 reads tag => tag[k] as bv8);
  }

  // poly1305_tagcmp
  method TagCmp(tag1: seq<bv8>, tag2: seq<bv8>) returns (d: bv8)
    requires |tag1| == |tag2| == 16
    ensures d == 0 <==> tag1 == tag2
  {
    d := 0;
    for i := 0 to 16
      invariant d == 0 <==> tag1[..i] == tag2[..i]
    {
      NoDifference(d, tag1[i], tag2[i]);
      d := d | (tag1[i] ^ tag2[i]);
      assert tag1[..i + 1] == tag1[..i] + [tag1[i]] && tag2[..i + 1] == tag2[..i] + [tag2[i]];
    }
    assert tag1[..16] == tag1 && tag2[..16] == tag2;
  }

  lemma NoDifference(d: bv8, a: bv8, b: bv8)
    ensures d | (a ^ b) == 0 <==> d == 0 && a == b
  {
  }

  method Put(data: array<bv8>, at: nat, s: seq<bv8>)
    requires at + |s| <= data.Length
    modifies data
    ensures data[..at] == old(data[..at]) && data[at..at + |s|] == s && data[at + |s|..] == old(data[at + |s|..])
  {
    for i := 0 to |s|
      invariant data[..at] == old(data[..at]) && data[at..at + i] == s[..i] && data[at + i..] == old(data[at + i..])
    {
      assert old(data[at + i..])[1..] == old(data[at + i + 1..]);
      data[at + i] := s[i];
    }
  }

  method KeysOf(c: Cipher, nonce: seq<bv8>, page: bv32) returns (otk: seq<bv8>)
    requires |c.key| == 32 && |nonce| == NONCE_LENGTH
    ensures otk == OneTimeKeys(c, nonce, page)
  {
    hide Encrypted, Counter;
    var buf := new bv8[OTK_LENGTH](_ => 0);
    assert buf[..] == buf[0..OTK_LENGTH] == Zeros(OTK_LENGTH);
    Chacha20Xor(buf, 0, OTK_LENGTH, c.key, nonce[..12], Counter(nonce, page));
    otk := buf[..];
    assert otk == buf[0..OTK_LENGTH];
  }

  // The text part of both directions.
  method Turn(c: Cipher, nonce: seq<bv8>, page: bv32, data: array<bv8>, n: nat) returns (otk: seq<bv8>)
    requires |c.key| == 32 && |nonce| == NONCE_LENGTH && Offset(c, page) <= n <= data.Length
    modifies data
    ensures otk == OneTimeKeys(c, nonce, page) && data[..n] == Turned(c, nonce, page, old(data[..n])) && data[n..] == old(data[n..])
  {
    hide Encrypted, Counter, OneTimeKeys, ChaCha20.Sum, Offset;
    ghost var s := data[..];
    otk := KeysOf(c, nonce, page);
    var offset := Offset(c, page);
    Chacha20Xor(data, offset, n - offset, otk[32..], nonce[..12], ChaCha20.Added(Counter(nonce, page), 1));
    assert data[..n] == data[..offset] + data[offset..n] && s[..n][offset..] == s[offset..n] && s[..n][..offset] == s[..offset];
  }

  // EncryptPageChaCha20Cipher, with the random bytes it draws
  method EncryptPage(c: Cipher, page: bv32, data: array<bv8>, reserved: nat, random: seq<bv8>) returns (rc: Rc)
    requires Good(c) && data.Length >= MIN_PAGE && |random| == NONCE_LENGTH
    modifies data
    ensures rc == Okay <==> Fits(c, reserved)
    ensures rc == Okay ==> data[..] == PageOut(c, page, old(data[..]), reserved, random)
    ensures rc != Okay ==> rc == Corrupt && data[..] == old(data[..])
  {
    hide Turned, Offset, OneTimeKeys, Tag;
    var nReserved := Reserved(c, reserved);
    var n := data.Length - nReserved;
    ghost var s := data[..];
    if (!c.legacy && nReserved > reserved) || (c.legacy && nReserved != reserved) {
      return Corrupt;
    }
    PlaceOf(c, page, n);
    if nReserved > 0 {
      Put(data, n, random);
      assert data[..n] == s[..n] && data[n..n + 16] == random;
      EncryptText(c, random, page, data, n);
      var otk := KeysOf(c, random, page);
      ghost var t := data[..n];
      assert data[n..n + 16] == data[n..][..16] == random;
      assert data[..n + 16] == t + random;
      var tag := TagOf(data[..n + 16], otk[..32]);
      Put(data, n + 16, tag);
      assert data[..] == data[..n + 16] + data[n + 16..n + 32];
    } else {
      assert data[..n] == data[..];
      EncryptText(c, c.iv(page), page, data, n);
      assert data[..n] == data[..];
    }
    return Okay;
  }

  lemma PlaceOf(c: Cipher, page: bv32, n: nat)
    requires Good(c) && n + RESERVED >= MIN_PAGE
    ensures Offset(c, page) <= n && SALT_LENGTH <= n
  {
  }

  method EncryptText(c: Cipher, nonce: seq<bv8>, page: bv32, data: array<bv8>, n: nat)
    requires |c.key| == 32 && |c.salt| == SALT_LENGTH <= n && |nonce| == NONCE_LENGTH && Offset(c, page) <= n <= data.Length
    modifies data
    ensures data[..n] == CipherText(c, nonce, page, old(data[..n])) && data[n..] == old(data[n..])
  {
    hide Turned, Offset, OneTimeKeys;
    ghost var s := data[..];
    var otk := Turn(c, nonce, page, data, n);
    ghost var t := data[..];
    if Salted(c, page) {
      Put(data, 0, c.salt);
      assert data[..n] == data[0..SALT_LENGTH] + data[SALT_LENGTH..][..n - SALT_LENGTH];
      assert t[..n][SALT_LENGTH..] == t[SALT_LENGTH..][..n - SALT_LENGTH];
      assert data[n..] == data[SALT_LENGTH..][n - SALT_LENGTH..] && t[n..] == t[SALT_LENGTH..][n - SALT_LENGTH..];
    }
  }

  method DecryptText(c: Cipher, nonce: seq<bv8>, page: bv32, data: array<bv8>, n: nat, genuine: bool)
    requires |c.key| == 32 && SALT_LENGTH <= n && |nonce| == NONCE_LENGTH && Offset(c, page) <= n <= data.Length
    modifies data
    ensures data[..n] == Plain(c, nonce, page, old(data[..n]), genuine) && data[n..] == old(data[n..])
  {
    hide Turned, Offset, OneTimeKeys;
    ghost var s := data[..];
    var otk := Turn(c, nonce, page, data, n);
    ghost var t := data[..];
    if Salted(c, page) && genuine {
      Put(data, 0, FILE_HEADER);
      assert data[..n] == data[0..SALT_LENGTH] + data[SALT_LENGTH..][..n - SALT_LENGTH];
      assert t[..n][SALT_LENGTH..] == t[SALT_LENGTH..][..n - SALT_LENGTH];
      assert data[n..] == data[SALT_LENGTH..][n - SALT_LENGTH..] && t[n..] == t[SALT_LENGTH..][n - SALT_LENGTH..];
    }
  }

  // DecryptPageChaCha20Cipher: with the check on, a page is accepted exactly if its tag is
  // the right one.
  method DecryptPage(c: Cipher, page: bv32, data: array<bv8>, reserved: nat, check: bool) returns (rc: Rc)
    requires Good(c) && data.Length >= MIN_PAGE
    modifies data
    ensures rc == Okay <==> Fits(c, reserved) && (Reserved(c, reserved) > 0 && check ==> Genuine(c, page, old(data[..])))
    ensures rc != Okay ==> rc == if page == 1 then NotADb else Corrupt
    ensures Fits(c, reserved) ==> data[..] == PageIn(c, page, old(data[..]), reserved, check)
    ensures !Fits(c, reserved) ==> data[..] == old(data[..])
  {
    hide Turned, Offset, OneTimeKeys, Tag, Plain;
    var nReserved := Reserved(c, reserved);
    var n := data.Length - nReserved;
    ghost var s := data[..];
    if (!c.legacy && nReserved > reserved) || (c.legacy && nReserved != reserved) {
      return if page == 1 then NotADb else Corrupt;
    }
    PlaceOf(c, page, n);
    rc := Okay;
    if nReserved > 0 {
      var nonce := data[n..n + 16];
      var otk := KeysOf(c, nonce, page);
      var tag := TagOf(data[..n + 16], otk[..32]);
      var stored := data[n + 16..];
      var d := TagCmp(stored, tag);
      assert s[..n + 16] == data[..n + 16] && s[n + 16..] == stored && s[n..n + 16] == nonce;
      if check && d != 0 {
        rc := if page == 1 then NotADb else Corrupt;
      }
      DecryptText(c, nonce, page, data, n, rc == Okay);
      assert data[..] == data[..n] + data[n..];
    } else {
      assert data[..n] == data[..];
      DecryptText(c, c.iv(page), page, data, n, true);
      assert data[..n] == data[..];
    }
  }
}
