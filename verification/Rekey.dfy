// sqlite3_rekey_v2: changing the key of a database, page by page and within one transaction,
// and what becomes of the pages and of the codec when it fails.

module Rekey {
  import opened RekeyCodec
  import opened RekeyPager

  // No page of these reads the same under both keys.
  ghost predicate ToldApart(s: Suite, k1: Option<Key>, k2: Option<Key>, file: map<nat, Page>, pages: set<nat>) {
    forall n :: n in pages && n in file ==> Read(s, k1, n, file[n]) != Read(s, k2, n, file[n])
  }

  ghost predicate ReadAlike(s: Suite, k1: Option<Key>, k2: Option<Key>, file: map<nat, Page>, pages: set<nat>) {
    forall n :: n in pages && n in file ==> Read(s, k1, n, file[n]) == Read(s, k2, n, file[n])
  }

  // Every page reads under the key as it did before.
  ghost predicate AllUnder(s: Suite, rk: Option<Key>, before: map<nat, Page>, file: map<nat, Page>) {
    file.Keys == before.Keys && forall n :: n in file ==> Read(s, rk, n, file[n]) == Read(s, rk, n, before[n])
  }

  // Every page but the lock page has moved from one key to the other.
  ghost predicate AllMoved(s: Suite, rk: Option<Key>, nk: Option<Key>, lockPage: nat, before: map<nat, Page>, file: map<nat, Page>) {
    file.Keys == before.Keys && forall n :: n in file ==> if n == lockPage then file[n] == before[n] else Moved(s, rk, nk, n, before[n], file[n])
  }

  // Pages that were played back are under the new key, so the file is wholly under the old
  // one exactly if they happen to read alike under both: with a cipher that tells them apart,
  // exactly if none was played back.
  lemma PlayedBackOrNot(s: Suite, rk: Option<Key>, nk: Option<Key>, before: map<nat, Page>, file: map<nat, Page>, played: set<nat>)
    requires Stored(s, rk, nk, before, file, played, played)
    ensures AllUnder(s, rk, before, file) <==> ReadAlike(s, rk, nk, file, played)
    ensures ToldApart(s, rk, nk, file, played) ==> (AllUnder(s, rk, before, file) <==> played == {})
  {
    hide Read;
    forall n | n in played
      ensures Read(s, nk, n, file[n]) == Read(s, rk, n, before[n])
    {
      assert Moved(s, rk, nk, n, before[n], file[n]);
    }
    if played != {} {
      var n :| n in played;
      assert n in file;
    }
  }

  // Every page but the lock page can be decrypted.
  ghost predicate Readable(s: Suite, rk: Option<Key>, lockPage: nat, file: map<nat, Page>) {
    forall n :: n in file && n != lockPage ==> Read(s, rk, n, file[n]).Some?
  }

  // The page numbers up to n.
  function Numbers(n: nat): set<nat> {
    if n == 0 then {} else Numbers(n - 1) + {n}
  }

  lemma {:induction false} InNumbers(k: nat, n: nat)
    ensures k in Numbers(n) <==> 1 <= k <= n
  {
    if n > 0 {
      InNumbers(k, n - 1);
    }
  }

  lemma NoneBelow(n: nat)
    ensures forall k :: k in Numbers(n) ==> 1 <= k <= n
  {
    forall k | k in Numbers(n) ensures 1 <= k <= n {
      InNumbers(k, n);
    }
  }

  // Whether there is memory for a new codec, for its cipher, and for the copy of a cipher at
  // the end.
  datatype Memory = Memory(codec: bool, cipher: bool, copy: bool)

  class Database {
    const pager: Pager
    const nPage: nat
    var codec: Codec?

    constructor (pager: Pager, nPage: nat, codec: Codec?)
      ensures this.pager == pager && this.nPage == nPage && this.codec == codec
    {
      this.pager, this.nPage, this.codec := pager, nPage, codec;
    }

    ghost function CurrentKey(): Option<Key>
      reads this, codec, if codec == null then {} else codec.Objects()
    {
      if codec == null then None else codec.ReadKey()
    }

    // No transaction is open, and a codec is there exactly for an encrypted database; it
    // writes with the key that it reads with.
    ghost predicate Valid()
      reads this, pager, codec, if codec == null then {} else codec.Objects()
    {
      pager.Sets() && pager.state == Reader && pager.file.Keys == Numbers(nPage) && Sound(pager.suite) &&
      (codec != null ==> codec.Valid() && codec.Complete() && codec.suite == pager.suite && codec.isEncrypted && codec.hasReadCipher && codec.hasWriteCipher &&
                         codec.ReadKey() == codec.WriteKey())
    }

    // The transaction of the rekey: all pages but the lock page are read and made writable,
    // so that all are written; then it is committed or rolled back. at is the state of the
    // pager when the rollback begins, played are the pages it puts back into the file.
    method Rewrite(c: Codec) returns (rc: Rc, ghost at: State, ghost played: set<nat>)
      requires pager.Sets() && pager.state == Reader && pager.file.Keys == Numbers(nPage) && pager.Serves(c)
      modifies pager
      ensures old(pager.faults) <= pager.faults
      // it succeeds exactly if no operation on the files fails and every page can be read
      ensures rc == Okay <==> pager.faults == old(pager.faults) && Readable(pager.suite, c.ReadKey(), pager.lockPage, old(pager.file))
      ensures pager.before == old(pager.file) && pager.file.Keys == old(pager.file.Keys)
      ensures rc == Okay ==> pager.Sets() && pager.state == Reader &&
                             AllMoved(pager.suite, c.ReadKey(), c.WriteKey(), pager.lockPage, old(pager.file), pager.file)
      ensures rc != Okay ==> pager.state == Reader || pager.state == Failed
      ensures rc != Okay && pager.state == Reader ==>
                pager.Sets() && Stored(pager.suite, c.ReadKey(), c.WriteKey(), old(pager.file), pager.file, played, played)
      ensures rc != Okay && pager.state == Failed ==> pager.Hot(c.ReadKey())
      ensures rc != Okay ==> at != Failed || played == {}
      ensures rc != Okay ==> (played != {} <==> at == DbMod || at == Finished)
    {
      hide Journaled, Cached, Stored, Sound, Moved, Pager.Sets, Pager.Hot;
      at, played := Reader, {};
      var fails, severe := pager.Fault();
      rc := pager.Begin(fails);
      if rc != Okay {
        Untouched(c.ReadKey(), c.WriteKey());
        return;
      }
      rc := RewriteAndCommit(c);
      at := pager.state;
      if rc != Okay {
        SyncedSome(c.ReadKey(), c.WriteKey());
        played := pager.Rollback(c);
      }
    }

    // All pages are made writable, and the transaction is committed.
    method RewriteAndCommit(c: Codec) returns (rc: Rc)
      requires pager.Serves(c) && pager.Valid(c.ReadKey(), c.WriteKey()) && pager.state == Locked && pager.before == pager.file && pager.file.Keys == Numbers(nPage)
      requires pager.touched == {} && pager.dirty == {} && pager.done == {}
      modifies pager
      ensures old(pager.faults) <= pager.faults && pager.Valid(c.ReadKey(), c.WriteKey())
      ensures rc == Okay <==> pager.faults == old(pager.faults) && Readable(pager.suite, c.ReadKey(), pager.lockPage, pager.before)
      ensures pager.before == old(pager.before) && pager.file.Keys == old(pager.file.Keys)
      ensures rc == Okay ==> pager.state == Reader && AllMoved(pager.suite, c.ReadKey(), c.WriteKey(), pager.lockPage, pager.before, pager.file)
      ensures rc != Okay ==> pager.state != Reader
    {
      hide Journaled, Cached, Stored, Sound, Moved, Pager.Sets, Pager.Hot;
      rc := RewritePages(c);
      if rc == Okay {
        ghost var flushed;
        rc, flushed := pager.Commit(c);
        if rc == Okay {
          Rewritten(c.ReadKey(), c.WriteKey());
        }
      }
    }

    lemma Untouched(rk: Option<Key>, wk: Option<Key>)
      requires pager.Valid(rk, wk) && pager.touched == {}
      ensures Stored(pager.suite, rk, wk, pager.before, pager.file, {}, {})
    {
    }

    lemma SyncedSome(rk: Option<Key>, wk: Option<Key>)
      requires pager.Valid(rk, wk)
      ensures pager.state == DbMod || pager.state == Finished ==> pager.synced != {}
    {
    }

    // What the loop has to do, and what a commit then makes of it.
    ghost function ToRewrite(): set<nat> {
      Numbers(nPage) - {pager.lockPage}
    }

    lemma Rewritten(rk: Option<Key>, wk: Option<Key>)
      requires pager.Valid(rk, wk) && pager.done == ToRewrite() && pager.touched <= ToRewrite() && pager.file.Keys == Numbers(nPage)
      ensures AllMoved(pager.suite, rk, wk, pager.lockPage, pager.before, pager.file)
    {
    }

    method RewritePages(c: Codec) returns (rc: Rc)
      requires pager.Serves(c) && pager.Valid(c.ReadKey(), c.WriteKey()) && pager.state == Locked && pager.file.Keys == Numbers(nPage)
      requires pager.done == {} && pager.dirty == {}
      modifies pager
      ensures pager.Valid(c.ReadKey(), c.WriteKey()) && pager.before == old(pager.before) && pager.file.Keys == old(pager.file.Keys)
      ensures old(pager.faults) <= pager.faults && pager.before.Keys == pager.file.Keys
      ensures rc == Okay <==> pager.faults == old(pager.faults) && Readable(pager.suite, c.ReadKey(), pager.lockPage, pager.before)
      ensures rc == Okay ==> pager.dirty + pager.done == pager.journal.Keys == ToRewrite() &&
                             (pager.state == Locked || pager.state == CacheMod || pager.state == DbMod) && (pager.state != Locked ==> pager.journal != map[])
      ensures rc != Okay ==> pager.state != Reader
    {
      hide Pager.Valid, Read, Underway, Readable, Numbers, ToRewrite, Sound;
      ghost var rk, wk, before := c.ReadKey(), c.WriteKey(), pager.before;
      StartRewriting(rk, wk);
      rc := Okay;
      for n := 1 to nPage + 1
        invariant rc == Okay && pager.faults == old(pager.faults) && pager.Serves(c) && Underway(rk, wk, before, n - 1)
      {
        rc := NextPage(n, c, before);
        if rc != Okay {
          SomeUnread(rk, before, n);
          return;
        }
      }
      AllUnderway(rk, wk, before);
    }

    // The pages up to k are rewritten.
    ghost predicate Underway(rk: Option<Key>, wk: Option<Key>, before: map<nat, Page>, k: nat)
      reads pager
    {
      pager.Valid(rk, wk) && pager.before == before && pager.file.Keys == before.Keys == Numbers(nPage) && k <= nPage &&
      (pager.state == Locked || pager.state == CacheMod || pager.state == DbMod) && (pager.state != Locked ==> pager.journal != map[]) &&
      pager.dirty + pager.done == pager.journal.Keys == Numbers(k) - {pager.lockPage} &&
      forall m :: m in before && m <= k && m != pager.lockPage ==> Read(pager.suite, rk, m, before[m]).Some?
    }

    lemma StartRewriting(rk: Option<Key>, wk: Option<Key>)
      requires pager.Valid(rk, wk) && pager.state == Locked && pager.file.Keys == Numbers(nPage) && pager.done == {} && pager.dirty == {}
      ensures Underway(rk, wk, pager.before, 0)
    {
      hide Journaled, Cached, Read;
      LockedIsNew(rk, wk);
      NoneBelow(nPage);
    }

    lemma AllUnderway(rk: Option<Key>, wk: Option<Key>, before: map<nat, Page>)
      requires Underway(rk, wk, before, nPage)
      ensures pager.Valid(rk, wk) && pager.before == before && pager.before.Keys == pager.file.Keys == Numbers(nPage)
      ensures pager.dirty + pager.done == pager.journal.Keys == ToRewrite() && Readable(pager.suite, rk, pager.lockPage, before)
      ensures (pager.state == Locked || pager.state == CacheMod || pager.state == DbMod) && (pager.state != Locked ==> pager.journal != map[])
    {
      hide Pager.Valid, Read;
      NoneBelow(nPage);
    }

    lemma SomeUnread(rk: Option<Key>, before: map<nat, Page>, n: nat)
      requires n in before && n != pager.lockPage
      ensures Read(pager.suite, rk, n, before[n]).None? ==> !Readable(pager.suite, rk, pager.lockPage, before)
    {
      hide Read;
    }

    method NextPage(n: nat, c: Codec, ghost before: map<nat, Page>) returns (rc: Rc)
      requires pager.Serves(c) && 1 <= n <= nPage && Underway(c.ReadKey(), c.WriteKey(), before, n - 1)
      modifies pager
      ensures old(pager.faults) <= pager.faults && pager.before == before && n in before
      ensures rc == Okay <==> pager.faults == old(pager.faults) && (n == pager.lockPage || Read(pager.suite, c.ReadKey(), n, before[n]).Some?)
      ensures rc == Okay ==> Underway(c.ReadKey(), c.WriteKey(), before, n)
      ensures rc != Okay ==> n != pager.lockPage && pager.Valid(c.ReadKey(), c.WriteKey()) && pager.file.Keys == before.Keys == Numbers(nPage) && pager.state != Reader
    {
      hide Pager.Valid, Read;
      InNumbers(n, nPage);
      InNumbers(n, n - 1);
      rc := Okay;
      if n != pager.lockPage {
        rc := RewriteOne(n, c);
      }
    }

    lemma LockedIsNew(rk: Option<Key>, wk: Option<Key>)
      requires pager.Valid(rk, wk) && pager.state == Locked
      ensures pager.journal == map[] && pager.before.Keys == pager.file.Keys
    {
    }

    method RewriteOne(n: nat, c: Codec) returns (rc: Rc)
      requires pager.Serves(c) && pager.Valid(c.ReadKey(), c.WriteKey()) && n in pager.file && n !in pager.journal.Keys && n != pager.lockPage
      requires pager.state == Locked || pager.state == CacheMod || pager.state == DbMod
      modifies pager
      ensures pager.Valid(c.ReadKey(), c.WriteKey()) && pager.before == old(pager.before) && pager.file.Keys == old(pager.file.Keys)
      ensures old(pager.faults) <= pager.faults
      ensures rc == Okay <==> pager.faults == old(pager.faults) && n in pager.before && Read(pager.suite, c.ReadKey(), n, pager.before[n]).Some?
      ensures rc == Okay ==> pager.journal.Keys == old(pager.journal.Keys) + {n} && pager.dirty + pager.done == old(pager.dirty + pager.done) + {n}
      ensures rc == Okay ==> (pager.state == CacheMod || pager.state == DbMod) && pager.journal != map[]
      ensures rc != Okay ==> pager.state != Reader
    {
      hide Pager.Valid, Read, Sound;
      ghost var spilled;
      rc, spilled := pager.Get(n, c);
      if rc == Okay {
        var unopened, fails := pager.TwoFaults();
        rc := pager.MakeWritable(n, c, unopened, fails);
        assert rc == Okay ==> n in pager.journal;
      }
    }

    ghost function KeyObjects(): set<object>
      reads this, codec
    {
      if codec == null then {} else {codec} + codec.Objects()
    }

    // What a rekey leaves behind, when it changed the key from rk to nk or failed to.
    ghost predicate Outcome(rc: Rc, at: State, played: set<nat>, rk: Option<Key>, nk: Option<Key>, before: map<nat, Page>)
      reads this, pager, KeyObjects()
    {
      // success: every page but the lock page has moved to the new key, with which the codec reads and writes
      (rc == Okay ==> pager.state == Reader && pager.Sets() && AllMoved(pager.suite, rk, nk, pager.lockPage, before, pager.file) && Adopted(nk)) &&
      // failure: the codec reads with the old key, and writes with it unless it was to decrypt;
      // pages that were played back are under the new key, all others as they were
      (rc != Okay ==> Restored(rk, nk != None) &&
                      (if pager.state == Reader then pager.Sets() && Stored(pager.suite, rk, nk, before, pager.file, played, played)
                       else pager.state == Failed && pager.Hot(rk) && pager.before == before) &&
                      (played != {} <==> at == DbMod || at == Finished))
    }

    // The codec after a success, if memory did not run out.
    ghost predicate Adopted(nk: Option<Key>)
      reads this, KeyObjects()
    {
      if nk == None then codec == null
      else codec != null && codec.Valid() && codec.isEncrypted && codec.hasReadCipher && codec.hasWriteCipher && codec.suite == pager.suite &&
           codec.WriteKey() == nk && (codec.Complete() ==> codec.ReadKey() == nk)
    }

    // The codec after a failure, if memory did not run out.
    ghost predicate Restored(rk: Option<Key>, writes: bool)
      reads this, KeyObjects()
    {
      if rk == None then codec == null
      else codec != null && codec.Valid() && codec.isEncrypted && codec.hasReadCipher && codec.hasWriteCipher == writes && codec.suite == pager.suite &&
           codec.ReadKey() == rk && (codec.Complete() ==> codec.WriteKey() == if writes then rk else None)
    }

    ghost predicate CodecComplete()
      reads this, codec
    {
      codec != null ==> codec.Complete()
    }

    // The end of sqlite3_rekey_v2: the codec adopts the new key or goes back to the old one.
    method Leave(c: Codec, rc: Rc, enough: bool)
      requires c.Valid() && c.isEncrypted && (c.hasReadCipher ==> c.readCipher != null) && (rc == Okay && c.hasWriteCipher ==> c.writeCipher != null)
      requires codec == null || codec == c
      requires c.suite == pager.suite
      modifies this`codec, c, c.Objects()
      ensures rc == Okay ==> Adopted(old(c.WriteKey())) && (c.hasWriteCipher ==> codec == c)
      ensures rc != Okay ==> Restored(old(c.ReadKey()), old(c.hasWriteCipher))
      ensures enough ==> CodecComplete()
    {
      codec := c;
      if rc == Okay {
        if c.hasWriteCipher {
          var copied := c.CopyWriteToRead(enough);
          c.hasReadCipher := true;
        } else {
          c.isEncrypted := false;
        }
      } else {
        if c.hasReadCipher {
          var copied := c.CopyReadToWrite(enough);
        } else {
          c.isEncrypted := false;
        }
      }
      if !c.isEncrypted {
        codec := null;
      }
    }

    // The branch of sqlite3_rekey_v2 for a database that is not encrypted
    method Encrypt(cipherType: int, secret: seq<bv8>, samePageSize: bool, memory: Memory) returns (rc: Rc, ghost at: State, ghost played: set<nat>)
      requires Valid() && codec == null
      modifies this`codec, pager
      ensures rc == Okay <==> samePageSize && cipherType > 0 && memory.codec && memory.cipher && pager.faults == old(pager.faults)
      ensures old(pager.faults) <= pager.faults && (memory.copy ==> CodecComplete())
      ensures cipherType > 0 ==> Outcome(rc, at, played, None, Some(Key(cipherType, secret)), old(pager.file))
      ensures cipherType <= 0 ==> rc != Okay && codec == null && pager.state == Reader && pager.file == old(pager.file)
    {
      hide Journaled, Cached, Stored, Moved, Pager.Sets, Pager.Hot, AllMoved, Readable;
      at, played := Reader, {};
      NothingPlayed(CurrentKey(), if cipherType > 0 then Some(Key(cipherType, secret)) else None);
      NoKeyReads(pager.file);
      if !memory.codec {
        return NoMem, at, played;
      }
      var c := new Codec(pager.suite);
      rc := c.SetupWriteCipher(cipherType, secret, memory.cipher);
      if rc != Okay {
        return;
      }
      if samePageSize {
        c.hasReadCipher := false;
        codec := c;
        rc, at, played := Rewrite(c);
      } else {
        rc := Error;
      }
      Leave(c, rc, memory.copy);
    }

    // The branch for an encrypted database and no new key
    method Decrypt(memory: Memory) returns (rc: Rc, ghost at: State, ghost played: set<nat>)
      requires Valid() && codec != null
      modifies this`codec, pager, KeyObjects()
      ensures rc == Okay <==> pager.faults == old(pager.faults) && Readable(pager.suite, old(CurrentKey()), pager.lockPage, old(pager.file))
      ensures old(pager.faults) <= pager.faults && (memory.copy ==> CodecComplete())
      ensures Outcome(rc, at, played, old(CurrentKey()), None, old(pager.file))
    {
      hide Journaled, Cached, Stored, Moved, Pager.Sets, Pager.Hot, AllMoved, Readable;
      var c := codec;
      c.hasWriteCipher := false;
      rc, at, played := Rewrite(c);
      Leave(c, rc, memory.copy);
    }

    // The branch for an encrypted database and a new key
    method Reencrypt(cipherType: int, secret: seq<bv8>, samePageSize: bool, memory: Memory) returns (rc: Rc, ghost at: State, ghost played: set<nat>)
      requires Valid() && codec != null
      modifies this`codec, pager, KeyObjects()
      ensures rc == Okay <==> samePageSize && cipherType > 0 && memory.cipher && pager.faults == old(pager.faults) &&
                              Readable(pager.suite, old(CurrentKey()), pager.lockPage, old(pager.file))
      ensures old(pager.faults) <= pager.faults && (memory.copy ==> CodecComplete())
      ensures cipherType > 0 ==> Outcome(rc, at, played, old(CurrentKey()), Some(Key(cipherType, secret)), old(pager.file))
      ensures cipherType <= 0 ==> rc != Okay && Restored(old(CurrentKey()), true) && pager.state == Reader && pager.file == old(pager.file)
    {
      hide Journaled, Cached, Stored, Moved, Pager.Sets, Pager.Hot, AllMoved, Readable;
      at, played := Reader, {};
      NothingPlayed(CurrentKey(), if cipherType > 0 then Some(Key(cipherType, secret)) else None);
      var c := codec;
      rc := c.SetupWriteCipher(cipherType, secret, memory.cipher);
      if rc == Okay {
        if samePageSize {
          rc, at, played := Rewrite(c);
        } else {
          rc := Error;
        }
      }
      Leave(c, rc, memory.copy);
    }

    lemma NoKeyReads(file: map<nat, Page>)
      ensures Readable(pager.suite, None, pager.lockPage, file)
    {
    }

    lemma NothingPlayed(rk: Option<Key>, nk: Option<Key>)
      ensures Stored(pager.suite, rk, nk, pager.file, pager.file, {}, {})
    {
    }

    // sqlite3_rekey_v2 on a database that is not in WAL mode, where the reserved bytes of a
    // page stay as they are. No key means to decrypt.
    method RekeyV2(keyGiven: bool, cipherType: int, secret: seq<bv8>, samePageSize: bool, memory: Memory)
      returns (rc: Rc, ghost at: State, ghost played: set<nat>)
      requires Valid()
      modifies this, pager, KeyObjects()
      // it succeeds exactly if there is nothing to do, or the new cipher can be set up for the
      // page size, no operation on the files fails, and every page reads under the old key
      ensures rc == Okay <==> (!keyGiven && old(codec) == null) ||
                              ((keyGiven ==> samePageSize && cipherType > 0 && memory.cipher && (old(codec) != null || memory.codec)) &&
                               pager.faults == old(pager.faults) && Readable(pager.suite, old(CurrentKey()), pager.lockPage, old(pager.file)))
      ensures memory.copy ==> CodecComplete()
      ensures !keyGiven && old(codec) == null ==> rc == Okay && codec == null && pager.state == Reader && pager.file == old(pager.file)
      ensures keyGiven && cipherType <= 0 ==> rc != Okay && Restored(old(CurrentKey()), true) && pager.state == Reader && pager.file == old(pager.file)
      ensures (if keyGiven then cipherType > 0 else old(codec) != null) ==>
                Outcome(rc, at, played, old(CurrentKey()), if keyGiven then Some(Key(cipherType, secret)) else None, old(pager.file))
    {
      hide Outcome, Pager.Sets, Readable;
      rc, at, played := Okay, Reader, {};
      if !keyGiven && codec == null {
        return;
      }
      NoKeyReads(pager.file);
      if codec == null {
        rc, at, played := Encrypt(cipherType, secret, samePageSize, memory);
      } else if !keyGiven {
        rc, at, played := Decrypt(memory);
      } else {
        rc, at, played := Reencrypt(cipherType, secret, samePageSize, memory);
      }
    }

    // A database that was rekeyed, or that came through a failure unharmed, can be rekeyed again.
    lemma CanGoOn(rc: Rc, at: State, played: set<nat>, rk: Option<Key>, nk: Option<Key>, before: map<nat, Page>)
      requires Outcome(rc, at, played, rk, nk, before) && before.Keys == Numbers(nPage) && Sound(pager.suite) && pager.state == Reader
      requires codec == null || codec.Complete()
      ensures Valid() <==> rc == Okay || nk != None || rk == None
    {
      hide Moved, Pager.Sets, Pager.Hot;
    }

    // After a failure that was rolled back at once, the file is wholly under the old key
    // exactly if nothing had been written to it when the rollback began, as far as the cipher
    // tells the pages under the two keys apart.
    lemma RolledBackOrNot(rc: Rc, at: State, played: set<nat>, rk: Option<Key>, nk: Option<Key>, before: map<nat, Page>)
      requires Outcome(rc, at, played, rk, nk, before) && rc != Okay && pager.state == Reader
      ensures AllUnder(pager.suite, rk, before, pager.file) <==> ReadAlike(pager.suite, rk, nk, pager.file, played)
      ensures ToldApart(pager.suite, rk, nk, pager.file, played) ==> (AllUnder(pager.suite, rk, before, pager.file) <==> at != DbMod && at != Finished)
    {
      hide Stored, ToldApart, ReadAlike, AllUnder, Pager.Sets;
      PlayedBackOrNot(pager.suite, rk, nk, before, pager.file, played);
    }

    // After a failure that left the journal behind, the next reader plays it back with the
    // codec that the failed call left: wholly under the old key exactly if the call was not
    // to decrypt, or the journal held nothing.
    method RecoverLater(at: State, ghost played: set<nat>, ghost rk: Option<Key>, ghost nk: Option<Key>, ghost before: map<nat, Page>)
      returns (rc: Rc)
      requires Outcome(Error, at, played, rk, nk, before) && Sound(pager.suite) && pager.state == Failed && (codec == null || codec.Complete())
      modifies pager
      ensures rc == Okay ==> pager.state == Reader
      ensures rc == Okay && (nk != None || rk == None) ==> AllUnder(pager.suite, rk, before, pager.file)
      ensures rc == Okay && nk == None && rk != None ==>
                (AllUnder(pager.suite, rk, before, pager.file) <==> ReadAlike(pager.suite, rk, None, pager.file, old(pager.synced))) &&
                (ToldApart(pager.suite, rk, None, pager.file, old(pager.synced)) ==> (AllUnder(pager.suite, rk, before, pager.file) <==> old(pager.synced) == {}))
    {
      hide Stored, ToldApart, ReadAlike, AllUnder, Pager.Sets, Pager.Hot;
      var c := codec;
      if c == null {
        c := new Codec(pager.suite);
      }
      ghost var synced, wk := pager.synced, c.WriteKey();
      rc := pager.Recover(c);
      if rc == Okay {
        if wk == rk {
          SameKey(pager.suite, rk, before, pager.file, synced);
        } else {
          PlayedBackOrNot(pager.suite, rk, None, before, pager.file, synced);
        }
      }
    }

    lemma SameKey(s: Suite, rk: Option<Key>, before: map<nat, Page>, file: map<nat, Page>, played: set<nat>)
      requires Stored(s, rk, rk, before, file, played, played)
      ensures AllUnder(s, rk, before, file)
    {
      hide Read;
      forall n | n in file
        ensures Read(s, rk, n, file[n]) == Read(s, rk, n, before[n])
      {
        if n in played {
          assert Moved(s, rk, rk, n, before[n], file[n]);
        }
      }
    }
  }

  // ----- A failure that mixes keys -----

  // A cipher that puts its secret in front of the page.
  function Fronted(k: Key, n: nat, p: Page, nonce: nat): Page {
    k.secret + p
  }

  function Unfronted(k: Key, n: nat, image: Page): Option<Page> {
    if |k.secret| <= |image| && image[..|k.secret|] == k.secret then Some(image[|k.secret|..]) else None
  }

  const FRONTING: Suite := Suite(Fronted, Unfronted)

  lemma FrontingIsSound()
    ensures Sound(FRONTING)
  {
  }

  lemma ReadsFronted(k: Key, n: nat, image: Page)
    requires |k.secret| <= |image| && image[..|k.secret|] == k.secret
    ensures Read(FRONTING, Some(k), n, image) == Some(image[|k.secret|..])
  {
  }

  lemma NotBoth(k1: Key, k2: Key, n: nat, image: Page)
    requires |k1.secret| == |k2.secret| && k1.secret != k2.secret
    ensures Read(FRONTING, Some(k1), n, image) == None || Read(FRONTING, Some(k2), n, image) == None
  {
  }

  // A codec in the middle of a change of keys.
  method Changing(suite: Suite, oldKey: Key, newKey: Key) returns (c: Codec)
    requires Sound(suite) && oldKey.kind == newKey.kind > 0
    ensures fresh(c) && fresh(c.Objects()) && c.Valid() && c.Complete() && c.suite == suite && c.ReadKey() == Some(oldKey) && c.WriteKey() == Some(newKey)
    ensures c.readCipher != null
  {
    hide Sound;
    c := new Codec(suite);
    c.isEncrypted, c.hasReadCipher, c.readType := true, true, oldKey.kind;
    c.readCipher := new Cipher(oldKey.kind);
    c.readCipher.key := oldKey;
    var rc := c.SetupWriteCipher(newKey.kind, newKey.secret, true);
  }

  // A page is read, journaled and made dirty.
  method Prepare(pager: Pager, n: nat, c: Codec)
    requires pager.Serves(c) && pager.Valid(c.ReadKey(), c.WriteKey()) && (pager.state == Locked || pager.state == CacheMod)
    requires n in pager.file && n in pager.before && n !in pager.journal.Keys && n != pager.lockPage && Read(pager.suite, c.ReadKey(), n, pager.before[n]).Some?
    modifies pager`cache, pager`journal, pager`dirty, pager`synced, pager`state
    ensures pager.Valid(c.ReadKey(), c.WriteKey()) && pager.state == CacheMod
    ensures pager.journal.Keys == old(pager.journal.Keys) + {n} && pager.dirty == old(pager.dirty) + {n}
  {
    hide Journaled, Cached, Stored, Sound, Nested;
    assert n !in pager.journal;
    var rc := pager.Load(n, c, false);
    rc := pager.MakeWritable(n, c, false, false);
  }

  // Of three pages, the first two are ready to be written, and the second has gone to the
  // file to make room, when the third cannot be read. The rollback leaves the first two under
  // the new key and the third under the old one, and the codec goes back to the old key:
  // neither key opens the database any more.
  method MixedKeys() returns (pager: Pager, c: Codec, before: map<nat, Page>)
    ensures before == map[1 := [1, 7], 2 := [1, 8], 3 := [1, 9]] && pager.suite == FRONTING && pager.state == Reader && pager.journal == map[]
    ensures forall n :: n in before ==> Read(FRONTING, Some(Key(1, [1])), n, before[n]).Some?
    ensures c.ReadKey() == c.WriteKey() == Some(Key(1, [1])) && pager.file.Keys == {1, 2, 3}
    ensures Read(FRONTING, Some(Key(1, [1])), 1, pager.file[1]) == None && Read(FRONTING, Some(Key(1, [1])), 2, pager.file[2]) == None
    ensures Read(FRONTING, Some(Key(1, [2])), 3, pager.file[3]) == None
  {
    hide Read, FRONTING;
    var oldKey, newKey := Key(1, [1]), Key(1, [2]);
    before := map[1 := [1, 7], 2 := [1, 8], 3 := [1, 9]];
    ReadsFronted(oldKey, 1, before[1]);
    ReadsFronted(oldKey, 2, before[2]);
    ReadsFronted(oldKey, 3, before[3]);
    pager, c := PartlyChanged(oldKey, newKey, before);
    NotBoth(oldKey, newKey, 1, pager.file[1]);
    NotBoth(oldKey, newKey, 2, pager.file[2]);
    NotBoth(oldKey, newKey, 3, pager.file[3]);
    var rc := c.CopyReadToWrite(true);
  }

  // The rolled back transaction, in front of the codec's way back to the old key.
  method PartlyChanged(oldKey: Key, newKey: Key, before: map<nat, Page>) returns (pager: Pager, c: Codec)
    requires oldKey.kind == newKey.kind > 0 && before.Keys == {1, 2, 3} && forall n :: n in before ==> Read(FRONTING, Some(oldKey), n, before[n]).Some?
    ensures pager.suite == FRONTING && pager.state == Reader && pager.journal == map[] && pager.file.Keys == {1, 2, 3}
    ensures fresh(c) && fresh(c.Objects()) && c.Valid() && c.ReadKey() == Some(oldKey) && c.WriteKey() == Some(newKey) && c.readCipher != null
    ensures Read(FRONTING, Some(newKey), 1, pager.file[1]).Some? && Read(FRONTING, Some(newKey), 2, pager.file[2]).Some?
    ensures Read(FRONTING, Some(oldKey), 3, pager.file[3]).Some?
  {
    FrontingIsSound();
    hide Journaled, Cached, Stored, Sound, Read, Pager.Sets, Pager.Valid, FRONTING;
    c := Changing(FRONTING, oldKey, newKey);
    pager := new Pager(FRONTING, 0, false, before);
    TwoPrepared(pager, c);
    SecondPageOut(pager, c);
    ThirdPageFails(pager, c);
  }

  method TwoPrepared(pager: Pager, c: Codec)
    requires Sound(pager.suite) && pager.Sets() && pager.state == Reader && pager.Serves(c) && pager.lockPage == 0 && pager.file.Keys == {1, 2, 3}
    requires forall n :: n in pager.file ==> Read(pager.suite, c.ReadKey(), n, pager.file[n]).Some?
    modifies pager
    ensures pager.Valid(c.ReadKey(), c.WriteKey()) && pager.state == CacheMod && pager.journal.Keys == pager.dirty == {1, 2}
    ensures pager.before == old(pager.file) == pager.file
  {
    hide Journaled, Cached, Stored, Sound, Read, Pager.Sets, Pager.Valid;
    var rc := pager.Begin(false);
    NothingIn(pager, c.ReadKey(), c.WriteKey());
    Prepare(pager, 1, c);
    Prepare(pager, 2, c);
  }

  lemma NothingIn(pager: Pager, rk: Option<Key>, wk: Option<Key>)
    requires pager.Valid(rk, wk) && pager.state == Locked
    ensures pager.journal == map[]
  {
  }

  // pagerStress on the second page
  method SecondPageOut(pager: Pager, c: Codec)
    requires pager.Serves(c) && pager.Valid(c.ReadKey(), c.WriteKey()) && pager.state == CacheMod && pager.journal.Keys == pager.dirty == {1, 2}
    modifies pager`synced, pager`state, pager`file, pager`safe, pager`dirty, pager`touched, pager`done
    ensures pager.Valid(c.ReadKey(), c.WriteKey()) && pager.state == DbMod && pager.synced == pager.journal.Keys
    ensures 2 in pager.done && 2 !in pager.dirty
    ensures pager.file.Keys == old(pager.file.Keys) && forall m :: m in pager.file && m != 2 ==> pager.file[m] == old(pager.file[m])
  {
    hide Journaled, Cached, Stored, Sound;
    assert 1 in pager.journal.Keys;
    var rc := pager.SyncJournal(false, c.ReadKey(), c.WriteKey());
    rc := pager.WriteOut(2, c, false);
  }

  // The third page cannot be read, and the others are played back.
  method ThirdPageFails(pager: Pager, c: Codec)
    requires pager.Serves(c) && pager.Valid(c.ReadKey(), c.WriteKey()) && pager.state == DbMod && pager.journal.Keys == {1, 2} && pager.file.Keys == {1, 2, 3}
    modifies pager
    ensures pager.state == Reader && pager.journal == map[] && pager.file.Keys == old(pager.file.Keys) && pager.before == old(pager.before)
    ensures pager.file[3] == old(pager.file[3])
    ensures forall n :: n in {1, 2} ==> n in pager.before && Moved(pager.suite, c.ReadKey(), c.WriteKey(), n, pager.before[n], pager.file[n])
  {
    hide Journaled, Cached, Stored, Sound, Moved, Pager.Sets, Pager.Valid;
    JournalOf(pager, c.ReadKey(), c.WriteKey());
    assert 3 !in pager.journal.Keys && 1 in pager.journal.Keys && 2 in pager.journal.Keys;
    var rc := pager.Load(3, c, true);
    rc := pager.PlayOne(1, c, false, false);
    rc := pager.PlayOne(2, c, false, false);
    pager.EndTransaction();
  }

  lemma JournalOf(pager: Pager, rk: Option<Key>, wk: Option<Key>)
    requires pager.Valid(rk, wk)
    ensures Journaled(pager.suite, rk, pager.before, pager.journal)
  {
    hide Journaled, Cached, Stored;
  }
}
