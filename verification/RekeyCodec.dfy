// The codec of a database file: the two ciphers, how they are set, copied and released, and
// what it does to a page on its way to and from the files.

module RekeyCodec {
  type Page = seq<bv8>

  datatype Option<T> = None | Some(value: T)

  // A key with the kind of cipher that it is for. Kind 0 is CODEC_TYPE_UNKNOWN.
  datatype Key = Key(kind: nat, secret: seq<bv8>)

  // The page functions of all ciphers: encryption takes a nonce, decryption can fail.
  datatype Suite = Suite(enc: (Key, nat, Page, nat) -> Page, dec: (Key, nat, Page) -> Option<Page>)

  ghost predicate Sound(s: Suite) {
    forall k: Key, n: nat, p: Page, nonce: nat :: s.dec(k, n, s.enc(k, n, p, nonce)) == Some(p)
  }

  // Without a key, pages are kept as they are.
  function Read(s: Suite, k: Option<Key>, n: nat, image: Page): Option<Page> {
    match k case None => Some(image) case Some(key) => s.dec(key, n, image)
  }

  function Write(s: Suite, k: Option<Key>, n: nat, p: Page, nonce: nat): Page {
    match k case None => p case Some(key) => s.enc(key, n, p, nonce)
  }

  lemma ReadWritten(s: Suite, k: Option<Key>, n: nat, p: Page, nonce: nat)
    requires Sound(s)
    ensures Read(s, k, n, Write(s, k, n, p, nonce)) == Some(p)
  {
  }

  datatype Rc = Okay | Error | NoMem | IoErr

  // A cipher object in memory.
  class Cipher {
    const kind: nat
    var key: Key
    ghost var freed: bool

    constructor (kind: nat)
      ensures this.kind == kind && key.kind == kind && !freed
    {
      this.kind, key, freed := kind, Key(kind, []), false;
    }
  }

  // m_allocateCipher of the descriptor for a kind: a new object, if there is memory enough.
  method Allocate(kind: nat, enough: bool) returns (c: Cipher?)
    ensures c != null <==> enough
    ensures c != null ==> fresh(c) && c.kind == kind && c.key.kind == kind && !c.freed
  {
    c := null;
    if enough {
      c := new Cipher(kind);
    }
  }

  // m_freeCipher, m_cloneCipher and m_generateKey of the descriptor for a kind. They are
  // only right for objects of that kind that are still in use.
  method Free(kind: nat, c: Cipher)
    requires !c.freed && c.kind == kind
    modifies c`freed
    ensures c.freed
  {
    c.freed := true;
  }

  method Clone(kind: nat, to: Cipher, from: Cipher)
    requires !to.freed && !from.freed && to.kind == kind && from.kind == kind
    modifies to`key
    ensures to.key == from.key
  {
    to.key := from.key;
  }

  method GenerateKey(kind: nat, c: Cipher, secret: seq<bv8>)
    requires !c.freed && c.kind == kind
    modifies c`key
    ensures c.key == Key(kind, secret)
  {
    c.key := Key(kind, secret);
  }

  class Codec {
    const suite: Suite
    var isEncrypted: bool
    var hasReadCipher: bool
    var readType: nat
    var readCipher: Cipher?
    var hasWriteCipher: bool
    var writeType: nat
    var writeCipher: Cipher?

    ghost function Objects(): set<object>
      reads this
    {
      (if readCipher != null then {readCipher} else {}) + (if writeCipher != null then {writeCipher} else {})
    }

    ghost predicate ReadSide()
      reads this, Objects()
    {
      readCipher != null ==> !readCipher.freed && readCipher.kind == readType == readCipher.key.kind
    }

    ghost predicate WriteSide()
      reads this, Objects()
    {
      writeCipher != null ==> !writeCipher.freed && writeCipher.kind == writeType == writeCipher.key.kind
    }

    // No object is used after it is freed, none through the wrong descriptor, and the two
    // sides never share one.
    ghost predicate Valid()
      reads this, Objects()
    {
      Sound(suite) && ReadSide() && WriteSide() && (readCipher != null ==> readCipher != writeCipher)
    }

    // Every cipher that the codec says it has is there.
    ghost predicate Complete()
      reads this
    {
      (hasReadCipher ==> readCipher != null) && (hasWriteCipher ==> writeCipher != null)
    }

    // The key that pages are read with, and the one that they are written with.
    ghost function ReadKey(): Option<Key>
      reads this, Objects()
    {
      if isEncrypted && hasReadCipher && readCipher != null then Some(readCipher.key) else None
    }

    ghost function WriteKey(): Option<Key>
      reads this, Objects()
    {
      if isEncrypted && hasWriteCipher && writeCipher != null then Some(writeCipher.key) else None
    }

    // sqlite3mcCodecInit
    constructor (suite: Suite)
      requires Sound(suite)
      ensures Valid() && Complete() && !isEncrypted && !hasReadCipher && !hasWriteCipher && this.suite == suite
      ensures readCipher == null && writeCipher == null
    {
      this.suite := suite;
      isEncrypted, hasReadCipher, hasWriteCipher := false, false, false;
      readType, readCipher, writeType, writeCipher := 0, null, 0, null;
    }

    // sqlite3mcCodec with modes 0, 2 and 3 (a page from the database or its journal), 6 (a
    // page for the database) and 7 (a page for the journal). A page that cannot be
    // decrypted is zeroed.
    method Run(data: Page, n: nat, mode: nat) returns (rc: Rc, r: Page, ghost nonce: nat)
      requires Valid() && Complete()
      ensures mode == 0 || mode == 2 || mode == 3 ==>
                match Read(suite, ReadKey(), n, data) case Some(p) => rc == Okay && r == p case None => rc == Error && r == seq(|data|, _ => 0)
      ensures mode == 6 ==> rc == Okay && r == Write(suite, WriteKey(), n, data, nonce)
      ensures mode == 7 ==> rc == Okay && r == Write(suite, ReadKey(), n, data, nonce)
    {
      rc, r, nonce := Okay, data, 0;
      if !isEncrypted {
        return;
      }
      var drawn: nat := *;
      if (mode == 0 || mode == 2 || mode == 3) && hasReadCipher {
        match suite.dec(readCipher.key, n, data) {
          case Some(p) => r := p;
          case None => rc, r := Error, seq(|data|, _ => 0);
        }
      } else if mode == 6 && hasWriteCipher {
        nonce := drawn;
        r := suite.enc(writeCipher.key, n, data, drawn);
      } else if mode == 7 && hasReadCipher {
        nonce := drawn;
        r := suite.enc(readCipher.key, n, data, drawn);
      }
    }

    // sqlite3mcSetupWriteCipher: a new cipher to write with; the one to read with stays.
    method SetupWriteCipher(cipherType: int, secret: seq<bv8>, enough: bool) returns (rc: Rc)
      requires Valid()
      modifies this`isEncrypted, this`hasWriteCipher, this`writeType, this`writeCipher, if writeCipher == null then {} else {writeCipher}
      ensures Valid() && (rc == Okay || rc == Error || rc == NoMem)
      ensures readCipher != null ==> readCipher.key == old(if readCipher == null then Key(0, []) else readCipher.key)
      ensures (rc == Error <==> cipherType <= 0) && (rc == Okay <==> cipherType > 0 && enough)
      ensures rc == Error ==> isEncrypted == old(isEncrypted) && hasWriteCipher == old(hasWriteCipher) && writeCipher == old(writeCipher) &&
                              WriteKey() == old(WriteKey())
      ensures rc != Error ==> isEncrypted && hasWriteCipher && (rc == Okay <==> writeCipher != null)
      ensures rc == Okay ==> WriteKey() == Some(Key(cipherType, secret))
      ensures writeCipher != null ==> fresh(writeCipher) || writeCipher == old(writeCipher)
      // no object is lost
      ensures rc != Error && old(writeCipher) != null ==> old(writeCipher).freed && writeCipher != old(writeCipher)
    {
      if cipherType <= 0 {
        return Error;
      }
      if writeCipher != null {
        Free(writeType, writeCipher);
      }
      isEncrypted, hasWriteCipher, writeType := true, true, cipherType;
      var c := Allocate(writeType, enough);
      writeCipher := c;
      if c == null {
        return NoMem;
      }
      GenerateKey(writeType, c, secret);
      rc := Okay;
    }

    // sqlite3mcCopyCipher from the read side to the write side
    method CopyReadToWrite(enough: bool) returns (rc: Rc)
      requires Valid() && readCipher != null
      modifies this`writeType, this`writeCipher, if writeCipher == null then {} else {writeCipher}
      ensures Valid() && (rc == Okay || rc == NoMem) && (rc == Okay <==> writeCipher != null) && (enough ==> rc == Okay)
      ensures readCipher.key == old(readCipher.key) && readCipher.freed == old(readCipher.freed)
      ensures rc == Okay ==> writeCipher.key == readCipher.key
      ensures writeCipher != null ==> fresh(writeCipher) || writeCipher == old(writeCipher)
      ensures old(writeCipher) != null ==> (writeCipher == old(writeCipher) <==> old(writeType) == readType) &&
                                           (writeCipher != old(writeCipher) ==> old(writeCipher).freed)
    {
      if writeCipher != null && writeType != readType {
        Free(writeType, writeCipher);
        writeCipher := null;
      }
      if writeCipher == null {
        writeType := readType;
        writeCipher := Allocate(writeType, enough);
      }
      if writeCipher == null {
        return NoMem;
      }
      Clone(writeType, writeCipher, readCipher);
      rc := Okay;
    }

    // sqlite3mcCopyCipher from the write side to the read side
    method CopyWriteToRead(enough: bool) returns (rc: Rc)
      requires Valid() && writeCipher != null
      modifies this`readType, this`readCipher, if readCipher == null then {} else {readCipher}
      ensures Valid() && (rc == Okay || rc == NoMem) && (rc == Okay <==> readCipher != null) && (enough ==> rc == Okay)
      ensures writeCipher.key == old(writeCipher.key) && writeCipher.freed == old(writeCipher.freed)
      ensures rc == Okay ==> readCipher.key == writeCipher.key
      ensures readCipher != null ==> fresh(readCipher) || readCipher == old(readCipher)
      ensures old(readCipher) != null ==> (readCipher == old(readCipher) <==> old(readType) == writeType) &&
                                          (readCipher != old(readCipher) ==> old(readCipher).freed)
    {
      if readCipher != null && readType != writeType {
        Free(readType, readCipher);
        readCipher := null;
      }
      if readCipher == null {
        readType := writeType;
        readCipher := Allocate(readType, enough);
      }
      if readCipher == null {
        return NoMem;
      }
      Clone(readType, readCipher, writeCipher);
      rc := Okay;
    }
  }
}
