// The pager of a database in rollback mode, as the codec meets it: file, cache and journal,
// with every operation on the files free to fail.

module RekeyPager {
  import opened RekeyCodec

  datatype State = Reader | Locked | CacheMod | DbMod | Finished | Failed

  // Every record of the journal is the page as it was, under the key it was read with.
  ghost predicate Journaled(s: Suite, rk: Option<Key>, before: map<nat, Page>, journal: map<nat, Page>) {
    forall n :: n in journal ==> n in before && Read(s, rk, n, journal[n]).Some? && Read(s, rk, n, journal[n]) == Read(s, rk, n, before[n])
  }

  ghost predicate Cached(s: Suite, rk: Option<Key>, before: map<nat, Page>, cache: map<nat, Page>) {
    forall n :: n in cache ==> n in before && Read(s, rk, n, before[n]) == Some(cache[n])
  }

  // A page of the file holds, under one key, what it held before under another.
  ghost predicate Moved(s: Suite, rk: Option<Key>, wk: Option<Key>, n: nat, before: Page, now: Page) {
    Read(s, wk, n, now).Some? && Read(s, wk, n, now) == Read(s, rk, n, before)
  }

  // Pages that were not touched are as they were, those in done are rewritten.
  ghost predicate Stored(s: Suite, rk: Option<Key>, wk: Option<Key>, before: map<nat, Page>, file: map<nat, Page>, touched: set<nat>, done: set<nat>) {
    file.Keys == before.Keys && (forall n :: n in file && n !in touched ==> file[n] == before[n]) &&
    forall n :: n in done ==> n in file && Moved(s, rk, wk, n, before[n], file[n])
  }

  lemma StoredMore(s: Suite, rk: Option<Key>, wk: Option<Key>, before: map<nat, Page>, file: map<nat, Page>, touched: set<nat>, done: set<nat>,
                   n: nat, image: Page)
    requires Stored(s, rk, wk, before, file, touched, done) && n in before && Moved(s, rk, wk, n, before[n], image)
    ensures Stored(s, rk, wk, before, file[n := image], touched + {n}, done + {n})
  {
  }

  lemma StoredTorn(s: Suite, rk: Option<Key>, wk: Option<Key>, before: map<nat, Page>, file: map<nat, Page>, touched: set<nat>, done: set<nat>,
                   n: nat, image: Page)
    requires Stored(s, rk, wk, before, file, touched, done) && n in before
    ensures Stored(s, rk, wk, before, file[n := image], touched + {n}, done - {n})
  {
  }

  // The pages written, those that may be torn, those to be written, and where they are kept.
  ghost predicate Nested(done: set<nat>, touched: set<nat>, dirty: set<nat>, synced: set<nat>, journaled: set<nat>, cached: set<nat>) {
    done <= touched && synced <= journaled && dirty <= cached && dirty <= journaled && dirty !! done
  }

  lemma NestedWritten(done: set<nat>, touched: set<nat>, dirty: set<nat>, synced: set<nat>, journaled: set<nat>, cached: set<nat>, n: nat)
    requires Nested(done, touched, dirty, synced, journaled, cached)
    ensures dirty <= cached && Nested(done + {n}, touched + {n}, dirty - {n}, synced, journaled, cached)
    ensures Nested(done - {n}, touched + {n}, dirty - {n}, synced, journaled, cached)
  {
  }

  lemma NestedWritable(done: set<nat>, touched: set<nat>, dirty: set<nat>, synced: set<nat>, journaled: set<nat>, cached: set<nat>, n: nat)
    requires Nested(done, touched, dirty, synced, journaled, cached) && touched <= synced && n !in journaled && n in cached
    ensures Nested(done, touched, dirty + {n}, synced, journaled + {n}, cached)
    ensures touched <= synced + {n} && Nested(done, touched, dirty + {n}, synced + {n}, journaled + {n}, cached)
  {
  }

  class Pager {
    const suite: Suite
    const lockPage: nat
    const noSync: bool              // the journal is never synced, and every record counts as safe
    var file: map<nat, Page>
    var cache: map<nat, Page>
    var dirty: set<nat>
    var journal: map<nat, Page>
    var synced: set<nat>            // the records that are safe in the journal
    var state: State
    ghost var faults: nat           // how many operations on the files have failed so far
    ghost var grave: nat            // how many of them were severe
    ghost var safe: bool            // what was written to the file is synced
    ghost var before: map<nat, Page>
    ghost var touched: set<nat>     // the pages whose images may differ from before
    ghost var done: set<nat>        // those that are rewritten

    ghost predicate Sets()
      reads `cache, `dirty, `journal, `synced, `state, `touched, `done
    {
      Nested(done, touched, dirty, synced, journal.Keys, cache.Keys) && lockPage !in journal &&
      (state == Reader ==> journal == map[] && cache == map[]) && (state != Reader ==> touched <= synced) &&
      (state == Locked ==> journal == map[]) && (state == CacheMod ==> touched == {}) && (state == DbMod || state == Finished ==> synced != {})
    }

    // The state of a transaction that reads with one key and writes with another.
    ghost predicate Valid(rk: Option<Key>, wk: Option<Key>)
      reads `file, `cache, `dirty, `journal, `synced, `state, `before, `touched, `done
    {
      Sound(suite) && Sets() && Journaled(suite, rk, before, journal) && Cached(suite, rk, before, cache) &&
      Stored(suite, rk, wk, before, file, touched, done)
    }

    ghost predicate Serves(c: Codec)
      reads c, c.Objects()
    {
      c.Valid() && c.Complete() && c.suite == suite
    }

    constructor (suite: Suite, lockPage: nat, noSync: bool, file: map<nat, Page>)
      requires Sound(suite)
      ensures this.suite == suite && this.lockPage == lockPage && this.noSync == noSync && this.file == file && state == Reader
      ensures Sets() && forall rk, wk :: Valid(rk, wk)
    {
      this.suite, this.lockPage, this.noSync, this.file := suite, lockPage, noSync, file;
      cache, dirty, journal, synced, state := map[], {}, map[], {}, Reader;
      before, touched, done, faults, grave, safe := file, {}, {}, 0, 0, true;
    }

    // An operation on the files, which may fail; most errors, but not all, are severe.
    method Fault() returns (fails: bool, severe: bool)
      modifies this`faults, this`grave
      ensures faults == old(faults) + (if fails then 1 else 0) && grave == old(grave) + if fails && severe then 1 else 0
    {
      fails, severe := *, *;
      if fails {
        faults := faults + 1;
        if severe {
          grave := grave + 1;
        }
      }
    }

    // Two of them, one after the other.
    method TwoFaults() returns (first: bool, second: bool)
      modifies this`faults, this`grave
      ensures old(faults) <= faults && (first || second <==> faults > old(faults))
    {
      var severe;
      first, severe := Fault();
      second, severe := Fault();
    }

    // sqlite3BtreeBeginTrans
    method Begin(fails: bool) returns (rc: Rc)
      requires Sound(suite) && Sets() && state == Reader
      modifies this`state, this`before, this`touched, this`done, this`synced, this`dirty
      ensures forall rk, wk :: Valid(rk, wk)
      ensures before == file && touched == {} && dirty == {} && done == {} && (rc == Okay <==> !fails) && state == if fails then Reader else Locked
    {
      before, touched, done, synced, dirty := file, {}, {}, {}, {};
      if fails {
        return IoErr;
      }
      state := Locked;
      rc := Okay;
    }

    // syncJournal
    method SyncJournal(fails: bool, ghost rk: Option<Key>, ghost wk: Option<Key>) returns (rc: Rc)
      requires Valid(rk, wk) && (state == CacheMod || state == DbMod) && journal != map[]
      modifies this`state, this`synced
      ensures rc == Okay <==> !fails
      ensures rc == Okay ==> synced == journal.Keys && state == DbMod
      ensures rc != Okay ==> synced == old(synced) && state == old(state)
      ensures Valid(rk, wk)
    {
      hide Journaled, Cached, Stored, Sound;
      if fails {
        return IoErr;
      }
      synced, state := journal.Keys, DbMod;
      rc := Okay;
    }

    // A page goes to the database file. A write that fails may leave anything behind.
    method PutImage(n: nat, image: Page, fails: bool) returns (rc: Rc, ghost left: Page)
      requires n in file
      modifies this`file, this`safe
      ensures file == old(file)[n := left] && (rc == Okay <==> !fails) && (!fails ==> left == image) && !safe
    {
      safe := false;
      if fails {
        var torn: Page := *;
        file := file[n := torn];
        return IoErr, torn;
      }
      file := file[n := image];
      return Okay, image;
    }

    // One page of pager_write_pagelist
    method WriteOut(n: nat, c: Codec, fails: bool) returns (rc: Rc)
      requires Serves(c) && Valid(c.ReadKey(), c.WriteKey()) && n in dirty && n in synced && state == DbMod
      modifies this`file, this`safe, this`dirty, this`touched, this`done
      ensures Valid(c.ReadKey(), c.WriteKey()) && dirty == old(dirty) - {n} && file.Keys == old(file.Keys)
      ensures (rc == Okay <==> !fails) && (rc == Okay ==> done == old(done) + {n}) && (forall m :: m in file && m != n ==> file[m] == old(file[m]))
    {
      hide Read, Write, Sound, Journaled, Cached, Stored, Nested, Codec.Valid, Codec.Complete;
      ghost var rk, wk := c.ReadKey(), c.WriteKey();
      NestedWritten(done, touched, dirty, synced, journal.Keys, cache.Keys, n);
      InCache(n, rk, wk);
      var ok, image, nonce := c.Run(cache[n], n, 6);
      ReadWritten(suite, wk, n, cache[n], nonce);
      ghost var was := file;
      ghost var left;
      rc, left := PutImage(n, image, fails);
      if rc == Okay {
        StoredMore(suite, rk, wk, before, was, touched, done, n, image);
        done := done + {n};
      } else {
        StoredTorn(suite, rk, wk, before, was, touched, done, n, left);
        done := done - {n};
      }
      touched := touched + {n};
      dirty := dirty - {n};
    }

    lemma InCache(n: nat, rk: Option<Key>, wk: Option<Key>)
      requires Valid(rk, wk) && n in cache
      ensures n in before && n in file && Read(suite, rk, n, before[n]) == Some(cache[n])
    {
    }

    // pagerStress: a dirty page goes to the file early.
    method SpillOne(n: nat, c: Codec) returns (rc: Rc)
      requires Serves(c) && Valid(c.ReadKey(), c.WriteKey()) && (state == CacheMod || state == DbMod) && n in dirty
      modifies this`file, this`safe, this`dirty, this`touched, this`done, this`synced, this`state, this`faults, this`grave
      ensures Valid(c.ReadKey(), c.WriteKey()) && file.Keys == old(file.Keys) && dirty == old(dirty) - {n}
      ensures old(faults) <= faults && (rc == Okay <==> faults == old(faults))
      ensures rc == Okay ==> done == old(done) + {n} && state == DbMod
      ensures rc != Okay ==> state in {old(state), DbMod, Failed} && (state == Failed <==> grave > old(grave))
      ensures old(grave) <= grave && (rc == Okay ==> grave == old(grave))
    {
      hide Valid, Sound;
      ghost var rk, wk := c.ReadKey(), c.WriteKey();
      DirtyIsThere(n, rk, wk);
      var fails, severe := Fault();
      rc := SyncJournal(fails, c.ReadKey(), c.WriteKey());
      if rc == Okay {
        fails, severe := Fault();
        rc := WriteOut(n, c, fails);
      } else {
        GivenUp(n, rk, wk);
      }
      if rc != Okay {
        Error(severe, c.ReadKey(), c.WriteKey());
      }
    }

    lemma DirtyIsThere(n: nat, rk: Option<Key>, wk: Option<Key>)
      requires Valid(rk, wk) && n in dirty
      ensures journal != map[] && n in journal.Keys
    {
      hide Journaled, Cached, Stored, Sound;
      assert n in journal;
    }

    // The page that could not be spilled is no longer dirty here.
    method GivenUp(n: nat, ghost rk: Option<Key>, ghost wk: Option<Key>)
      requires Valid(rk, wk) && n in dirty
      modifies this`dirty
      ensures Valid(rk, wk) && dirty == old(dirty) - {n}
    {
      hide Journaled, Cached, Stored, Sound;
      dirty := dirty - {n};
    }

    // pager_error: a severe error puts the pager in its error state.
    method Error(severe: bool, ghost rk: Option<Key>, ghost wk: Option<Key>)
      requires Valid(rk, wk) && state != Reader
      modifies this`state
      ensures state == if severe then Failed else old(state)
      ensures Valid(rk, wk)
    {
      hide Journaled, Cached, Stored, Sound;
      if severe {
        state := Failed;
      }
    }

    // sqlite3PagerSync
    method SyncFile() returns (rc: Rc)
      modifies this`safe, this`faults, this`grave
      ensures old(faults) <= faults && old(grave) <= grave && (rc == Okay <==> faults == old(faults)) && (faults == old(faults) ==> grave == old(grave))
      ensures rc == Okay ==> safe
    {
      if !noSync {
        var fails, severe := Fault();
        if fails {
          return IoErr;
        }
      }
      safe := true;
      rc := Okay;
    }

    // As many pages as the cache asks for, but not the first: the transaction refers to it.
    method Spill(c: Codec) returns (rc: Rc)
      requires Serves(c) && Valid(c.ReadKey(), c.WriteKey()) && (state == Locked || state == CacheMod || state == DbMod)
      modifies this`file, this`safe, this`dirty, this`touched, this`done, this`synced, this`state, this`faults, this`grave
      ensures Valid(c.ReadKey(), c.WriteKey()) && file.Keys == old(file.Keys)
      ensures old(faults) <= faults && (rc == Okay <==> faults == old(faults))
      ensures rc == Okay ==> dirty + done == old(dirty + done) && state in {old(state), DbMod} && (state == DbMod ==> old(state) != Locked)
      ensures 1 in old(dirty) ==> 1 in dirty
      ensures rc != Okay ==> state in {old(state), DbMod, Failed} && old(state) != Locked && (state == Failed <==> grave > old(grave))
      ensures old(grave) <= grave && (rc == Okay ==> grave == old(grave))
    {
      hide Valid;
      rc := Okay;
      var more: bool := *;
      while more && dirty - {1} != {} && state != Locked
        invariant Valid(c.ReadKey(), c.WriteKey()) && dirty + done == old(dirty + done) && state in {old(state), DbMod}
        invariant state == DbMod ==> old(state) != Locked
        invariant rc == Okay && faults == old(faults) && grave == old(grave) && file.Keys == old(file.Keys) && (1 in old(dirty) ==> 1 in dirty)
        decreases |dirty|
      {
        var n :| n in dirty - {1};
        rc := SpillOne(n, c);
        if rc != Okay {
          return;
        }
        more := *;
      }
    }

    // Clean pages leave the cache.
    method Evict()
      requires dirty <= cache.Keys
      modifies this`cache
      ensures dirty <= cache.Keys && forall n :: n in cache ==> n in old(cache) && cache[n] == old(cache[n])
      ensures old(cache) == map[] ==> cache == map[]
    {
      var gone: set<nat> :| gone !! dirty;
      cache := cache - gone;
    }

    // Pages leave the cache, clean ones at once.
    method MakeRoom(c: Codec) returns (rc: Rc)
      requires Serves(c) && Valid(c.ReadKey(), c.WriteKey()) && (state == Locked || state == CacheMod || state == DbMod)
      modifies this`file, this`safe, this`cache, this`dirty, this`touched, this`done, this`synced, this`state, this`faults, this`grave
      ensures Valid(c.ReadKey(), c.WriteKey()) && file.Keys == old(file.Keys)
      ensures old(faults) <= faults && (rc == Okay <==> faults == old(faults)) && old(grave) <= grave
      ensures rc == Okay ==> grave == old(grave) && dirty + done == old(dirty + done) && state in {old(state), DbMod} && (state == DbMod ==> old(state) != Locked)
      ensures rc != Okay ==> state in {old(state), DbMod, Failed} && old(state) != Locked && (state == Failed <==> grave > old(grave))
    {
      hide Journaled, Cached, Stored, Sound;
      EvictKeeps(c.ReadKey());
      Evict();
      rc := Spill(c);
    }

    // sqlite3PagerGet: from the cache or, with its key, from the file
    method Get(n: nat, c: Codec) returns (rc: Rc, ghost spilled: bool)
      requires Serves(c) && Valid(c.ReadKey(), c.WriteKey()) && (state == Locked || state == CacheMod || state == DbMod)
      requires n in file && n !in journal
      modifies this`file, this`safe, this`cache, this`dirty, this`touched, this`done, this`synced, this`state, this`faults, this`grave
      ensures Valid(c.ReadKey(), c.WriteKey()) && file.Keys == old(file.Keys)
      ensures old(faults) <= faults && (rc == Okay <==> faults == old(faults) && n in before && Read(suite, c.ReadKey(), n, before[n]).Some?)
      ensures rc == Okay ==> n in cache && dirty + done == old(dirty + done) && (state == Locked || state == CacheMod || state == DbMod)
      ensures rc != Okay ==> state in {old(state), DbMod, Failed}
      // the error state is that of a severe error while the cache makes room, or of a page that
      // cannot be decrypted
      ensures rc != Okay ==> (state == Failed <==> if spilled then faults == old(faults) else grave > old(grave))
      ensures state == Locked ==> old(state) == Locked
    {
      hide Journaled, Cached, Stored, Sound;
      rc, spilled := Okay, true;
      ghost var rk, wk := c.ReadKey(), c.WriteKey();
      if n in cache {
        InCache(n, rk, wk);
        return;
      }
      rc := MakeRoom(c);
      if rc != Okay {
        spilled := false;
        return;
      }
      InFile(n, rk, wk);
      var fails, severe := Fault();
      rc := Load(n, c, fails);
    }

    lemma InFile(n: nat, rk: Option<Key>, wk: Option<Key>)
      requires Valid(rk, wk) && n in file
      ensures n in before
    {
    }

    // readDbPage; a page that cannot be decrypted puts the pager in its error state
    method Load(n: nat, c: Codec, fails: bool) returns (rc: Rc)
      requires Serves(c) && Valid(c.ReadKey(), c.WriteKey()) && state != Reader && n in file && n !in journal
      modifies this`cache, this`state
      ensures Valid(c.ReadKey(), c.WriteKey())
      ensures rc == Okay <==> !fails && Read(suite, c.ReadKey(), n, before[n]).Some?
      ensures rc == Okay ==> n in cache && forall m :: m in old(cache) ==> m in cache
      ensures state == if rc == Okay || fails then old(state) else Failed
    {
      hide Journaled, Cached, Stored, Sound;
      if fails {
        return IoErr;
      }
      ghost var rk, wk := c.ReadKey(), c.WriteKey();
      NotTouched(n, rk, wk);
      var p; ghost var nonce;
      rc, p, nonce := c.Run(file[n], n, 3);
      if rc == Okay {
        CachedMore(n, rk, p);
        cache := cache[n := p];
      } else {
        state := Failed;
      }
    }

    lemma EvictKeeps(rk: Option<Key>)
      requires Cached(suite, rk, before, cache)
      ensures forall m: map<nat, Page> :: (forall n :: n in m ==> n in cache && m[n] == cache[n]) ==> Cached(suite, rk, before, m)
    {
    }

    lemma NotTouched(n: nat, rk: Option<Key>, wk: Option<Key>)
      requires Valid(rk, wk) && n in file && n !in journal && state != Reader
      ensures n in before && file[n] == before[n]
    {
    }

    lemma CachedMore(n: nat, rk: Option<Key>, p: Page)
      requires Cached(suite, rk, before, cache) && n in before && Read(suite, rk, n, before[n]) == Some(p)
      ensures Cached(suite, rk, before, cache[n := p])
    {
    }

    // sqlite3PagerWrite: the page goes to the journal before it may change.
    method MakeWritable(n: nat, c: Codec, unopened: bool, fails: bool) returns (rc: Rc)
      requires Serves(c) && Valid(c.ReadKey(), c.WriteKey()) && (state == Locked || state == CacheMod || state == DbMod)
      requires n in cache && n !in journal && n != lockPage
      modifies this`journal, this`dirty, this`state, this`synced
      ensures Valid(c.ReadKey(), c.WriteKey())
      ensures rc == Okay <==> !unopened && !fails
      ensures synced == if rc == Okay && noSync then old(synced) + {n} else old(synced)
      ensures rc == Okay ==> journal.Keys == old(journal.Keys) + {n} && dirty == old(dirty) + {n} && (state == CacheMod || state == DbMod)
      ensures rc != Okay ==> journal == old(journal) && dirty == old(dirty)
      ensures state in {old(state), CacheMod} && (state == CacheMod ==> old(state) != DbMod)
    {
      hide Journaled, Cached, Stored, Sound, Nested;
      if unopened {
        return IoErr;
      }
      if state == Locked {
        NothingTouchedYet();
        state := CacheMod;
      }
      if fails {
        return IoErr;
      }
      AddRecord(n, c);
      rc := Okay;
    }

    // pagerAddPageToRollbackJournal, and the page is dirty
    method AddRecord(n: nat, c: Codec)
      requires Serves(c) && Valid(c.ReadKey(), c.WriteKey()) && (state == CacheMod || state == DbMod) && n in cache && n !in journal && n != lockPage
      modifies this`journal, this`dirty, this`synced
      ensures Valid(c.ReadKey(), c.WriteKey()) && journal.Keys == old(journal.Keys) + {n} && dirty == old(dirty) + {n}
      ensures synced == if noSync then old(synced) + {n} else old(synced)
    {
      hide Journaled, Cached, Stored, Sound, Nested;
      ghost var rk, wk := c.ReadKey(), c.WriteKey();
      NestedWritable(done, touched, dirty, synced, journal.Keys, cache.Keys, n);
      InCache(n, rk, wk);
      var ok, image, nonce := c.Run(cache[n], n, 7);
      ReadWritten(suite, rk, n, cache[n], nonce);
      JournaledMore(n, rk, image);
      journal := journal[n := image];
      assert journal.Keys == old(journal.Keys) + {n};
      if noSync {
        synced := synced + {n};
      }
      dirty := dirty + {n};
    }

    lemma NothingTouchedYet()
      requires Sets() && state == Locked
      ensures touched == {}
    {
    }

    lemma JournaledMore(n: nat, rk: Option<Key>, image: Page)
      requires Journaled(suite, rk, before, journal) && n in before && Read(suite, rk, n, image).Some? && Read(suite, rk, n, image) == Read(suite, rk, n, before[n])
      ensures Journaled(suite, rk, before, journal[n := image])
    {
    }

    // The dirty pages go to the file, behind a journal that is safe.
    method Flush(c: Codec) returns (rc: Rc)
      requires Serves(c) && Valid(c.ReadKey(), c.WriteKey()) && (state == CacheMod || state == DbMod) && journal != map[]
      modifies this`file, this`safe, this`dirty, this`touched, this`done, this`synced, this`state, this`faults, this`grave
      ensures Valid(c.ReadKey(), c.WriteKey()) && file.Keys == old(file.Keys)
      ensures old(faults) <= faults && (rc == Okay <==> faults == old(faults))
      ensures rc == Okay ==> done == old(dirty + done) && state == DbMod && safe
      ensures rc != Okay ==> state in {old(state), DbMod}
      ensures old(grave) <= grave && (rc == Okay ==> grave == old(grave))
    {
      hide Journaled, Cached, Stored, Sound;
      var fails, severe := Fault();
      rc := SyncJournal(fails, c.ReadKey(), c.WriteKey());
      if rc != Okay {
        return;
      }
      rc := WriteAll(c);
      if rc != Okay {
        return;
      }
      rc := SyncFile();
    }

    // pager_write_pagelist
    method WriteAll(c: Codec) returns (rc: Rc)
      requires Serves(c) && Valid(c.ReadKey(), c.WriteKey()) && state == DbMod && dirty <= synced
      modifies this`file, this`safe, this`dirty, this`touched, this`done, this`faults, this`grave
      ensures Valid(c.ReadKey(), c.WriteKey()) && file.Keys == old(file.Keys)
      ensures old(faults) <= faults && (rc == Okay <==> faults == old(faults))
      ensures rc == Okay ==> done == old(dirty + done) && dirty == {}
      ensures old(grave) <= grave && (rc == Okay ==> grave == old(grave))
    {
      hide Valid;
      rc := Okay;
      while dirty != {}
        invariant Serves(c) && Valid(c.ReadKey(), c.WriteKey()) && dirty + done == old(dirty + done) && dirty <= synced
        invariant file.Keys == old(file.Keys) && rc == Okay && faults == old(faults) && grave == old(grave)
        decreases |dirty|
      {
        var n :| n in dirty;
        var fails, severe := Fault();
        rc := WriteOut(n, c, fails);
        if rc != Okay {
          return;
        }
      }
    }

    // sqlite3BtreeCommit, in its two phases
    method Commit(c: Codec) returns (rc: Rc, ghost flushed: bool)
      requires Serves(c) && Valid(c.ReadKey(), c.WriteKey()) && (state == Locked || state == CacheMod || state == DbMod)
      requires state != Locked ==> journal != map[]
      modifies this`file, this`safe, this`cache, this`dirty, this`journal, this`touched, this`done, this`synced, this`state, this`faults, this`grave
      ensures Valid(c.ReadKey(), c.WriteKey()) && file.Keys == old(file.Keys)
      ensures old(faults) <= faults && (rc == Okay <==> faults == old(faults))
      ensures rc == Okay ==> state == Reader && done == old(dirty + done) && touched <= old(journal.Keys)
      // the journal is given up only after what was written is synced
      ensures rc == Okay && old(state) != Locked ==> safe
      // the error state is that of a severe error when everything is in the file
      ensures rc != Okay ==> if !flushed then state in {old(state), DbMod} && old(state) != Locked
                             else state == if grave > old(grave) then Failed else if old(state) == Locked then Locked else Finished
    {
      hide Journaled, Cached, Stored, Sound;
      rc, flushed := Okay, true;
      if state != Locked {
        rc := Flush(c);
        if rc != Okay {
          flushed := false;
          return;
        }
        state := Finished;
      }
      rc := CommitEnd(c.ReadKey(), c.WriteKey());
    }

    // sqlite3PagerCommitPhaseTwo: the journal is given up, unless that fails.
    method CommitEnd(ghost rk: Option<Key>, ghost wk: Option<Key>) returns (rc: Rc)
      requires Valid(rk, wk) && (state == Locked || state == Finished)
      modifies this`cache, this`dirty, this`journal, this`synced, this`state, this`faults, this`grave
      ensures Valid(rk, wk) && old(faults) <= faults && (rc == Okay <==> faults == old(faults))
      ensures state == if rc == Okay then Reader else if grave > old(grave) then Failed else old(state)
    {
      hide Journaled, Cached, Stored, Sound;
      var kept, severe := Fault();
      if kept {
        Error(severe, rk, wk);
        return IoErr;
      }
      EndTransaction();
      EmptyRight(rk);
      rc := Okay;
    }

    lemma EmptyRight(rk: Option<Key>)
      ensures Journaled(suite, rk, before, map[]) && Cached(suite, rk, before, map[])
    {
    }

    // pager_end_transaction when the journal is gone. What is left in the cache is clean
    // and may leave it.
    method EndTransaction()
      modifies this`cache, this`dirty, this`journal, this`synced, this`state
      ensures state == Reader && journal == map[] && cache == map[] && dirty == {} && synced == {}
    {
      cache, dirty, journal, synced, state := map[], {}, map[], {}, Reader;
    }

    // pager_playback over the records that are safe in the journal: each is read from the
    // journal and written to the database file, so that its page ends up under the key that
    // the codec writes with now.
    method PlayBack(c: Codec, ghost wk: Option<Key>) returns (rc: Rc)
      requires Serves(c) && Valid(c.ReadKey(), wk) && (state == DbMod || state == Finished || state == Failed)
      modifies this`file, this`safe, this`dirty, this`touched, this`done, this`faults, this`grave
      ensures Hot(c.ReadKey()) && file.Keys == old(file.Keys)
      ensures old(faults) <= faults && (rc == Okay <==> faults == old(faults))
      ensures rc == Okay ==> Stored(suite, c.ReadKey(), c.WriteKey(), before, file, synced, synced) && safe
    {
      hide Stored, Sets, Hot, Playing, Valid;
      ghost var rk, now := c.ReadKey(), c.WriteKey();
      StartPlaying(rk, wk, now);
      rc := Okay;
      var todo := synced;
      while todo != {}
        invariant rc == Okay && faults == old(faults) && Playing(rk, now) && todo <= synced && done == synced - todo
        decreases |todo|
      {
        var n :| n in todo;
        rc := PlayRecord(n, c);
        if rc != Okay {
          StopPlaying(rk, now);
          return;
        }
        todo := todo - {n};
      }
      assert done == synced;
      StopPlaying(rk, now);
      rc := SyncFile();
    }

    // While the journal is played back: the records in done are in the file.
    ghost predicate Playing(rk: Option<Key>, now: Option<Key>)
      reads `file, `dirty, `journal, `synced, `state, `before, `touched, `done
    {
      Journaled(suite, rk, before, journal) && synced <= journal.Keys && lockPage !in journal && (state == DbMod || state == Finished || state == Failed) &&
      (state == DbMod || state == Finished ==> synced != {}) && file.Keys == before.Keys && dirty == {} && touched == synced && done <= synced &&
      Stored(suite, rk, now, before, file, synced, done)
    }

    method PlayRecord(n: nat, c: Codec) returns (rc: Rc)
      requires Serves(c) && Playing(c.ReadKey(), c.WriteKey()) && n in synced
      modifies this`file, this`safe, this`done, this`faults, this`grave
      ensures old(faults) <= faults && (rc == Okay <==> faults == old(faults))
      ensures Playing(c.ReadKey(), c.WriteKey()) && (if rc == Okay then done == old(done) + {n} else done == old(done) - {n})
    {
      hide Journaled, Moved, Stored;
      ghost var rk, now := c.ReadKey(), c.WriteKey();
      RecordReads(n, rk);
      ghost var was := file;
      var unread, unwritten := TwoFaults();
      rc := PlayOne(n, c, unread, unwritten);
      if rc == Okay {
        OneMore(rk, now, was, n);
        done := done + {n};
      } else {
        OneTorn(rk, now, was, n);
        done := done - {n};
      }
    }

    method StartPlaying(ghost rk: Option<Key>, ghost wk: Option<Key>, ghost now: Option<Key>)
      requires Valid(rk, wk) && (state == DbMod || state == Finished || state == Failed)
      modifies this`dirty, this`touched, this`done
      ensures Playing(rk, now) && done == {} && file.Keys == before.Keys
    {
      hide Journaled, Moved, Cached, Sound;
      assert Stored(suite, rk, now, before, file, synced, {});
      dirty, done, touched := {}, {}, synced;
    }

    lemma StopPlaying(rk: Option<Key>, now: Option<Key>)
      requires Playing(rk, now)
      ensures Hot(rk) && file.Keys == before.Keys && Stored(suite, rk, now, before, file, synced, done)
    {
      hide Journaled, Moved;
    }

    lemma OneMore(rk: Option<Key>, now: Option<Key>, was: map<nat, Page>, n: nat)
      requires Stored(suite, rk, now, before, was, synced, done) && n in synced && n in before && file.Keys == was.Keys
      requires (forall m :: m in file && m != n ==> file[m] == was[m]) && Moved(suite, rk, now, n, before[n], file[n])
      ensures Stored(suite, rk, now, before, file, synced, done + {n})
    {
    }

    lemma OneTorn(rk: Option<Key>, now: Option<Key>, was: map<nat, Page>, n: nat)
      requires Stored(suite, rk, now, before, was, synced, done) && n in synced && file.Keys == was.Keys
      requires forall m :: m in file && m != n ==> file[m] == was[m]
      ensures Stored(suite, rk, now, before, file, synced, done - {n})
    {
    }

    // pager_playback_one_page
    method PlayOne(n: nat, c: Codec, unread: bool, unwritten: bool) returns (rc: Rc)
      requires Serves(c) && Journaled(suite, c.ReadKey(), before, journal) && n in journal && n in file
      modifies this`file, this`safe
      ensures file.Keys == old(file.Keys) && (forall m :: m in file && m != n ==> file[m] == old(file[m])) && n in before
      ensures (rc == Okay <==> !unread && !unwritten) && (rc == Okay ==> Moved(suite, c.ReadKey(), c.WriteKey(), n, before[n], file[n]))
    {
      hide Journaled, Sound, Read, Write;
      RecordReads(n, c.ReadKey());
      if unread {
        return IoErr;
      }
      var ok, p, image;
      ghost var nonce, left;
      ok, p, nonce := c.Run(journal[n], n, 3);
      ok, image, nonce := c.Run(p, n, 6);
      ReadWritten(suite, c.WriteKey(), n, p, nonce);
      rc, left := PutImage(n, image, unwritten);
    }

    // sqlite3PagerRollback. In the error state nothing is done now. Otherwise the journal is
    // played back, into the file only if the file was written to, and given up; played are
    // the pages that go back to the file.
    method Rollback(c: Codec) returns (ghost played: set<nat>)
      requires Serves(c) && Valid(c.ReadKey(), c.WriteKey()) && state != Reader
      modifies this`file, this`safe, this`cache, this`dirty, this`journal, this`touched, this`done, this`synced, this`state, this`faults, this`grave
      ensures old(faults) <= faults && state == if old(state) != Failed && faults == old(faults) then Reader else Failed
      ensures file.Keys == old(file.Keys) && played == if old(state) == DbMod || old(state) == Finished then old(synced) else {}
      ensures state == Reader ==> Sets() && Stored(suite, c.ReadKey(), c.WriteKey(), before, file, played, played)
      ensures state == Failed ==> Hot(c.ReadKey())
    {
      hide Valid, Hot, Sound, Stored;
      ghost var rk, wk := c.ReadKey(), c.WriteKey();
      played := {};
      if state == Failed {
        StillHot(rk, wk);
        return;
      }
      if state == Locked || state == CacheMod {
        NothingTouched(rk, wk);
        StillHot(rk, wk);
      } else {
        played := synced;
        var rc := PlayBack(c, wk);
        if rc != Okay {
          Fail(rk);
          return;
        }
      }
      EndRollback(rk, wk, played);
    }

    method Fail(ghost rk: Option<Key>)
      requires Hot(rk) && state != Reader
      modifies this`state
      ensures Hot(rk) && state == Failed
    {
      hide Journaled;
      state := Failed;
    }

    // The journal is given up, unless that fails.
    method EndRollback(ghost rk: Option<Key>, ghost wk: Option<Key>, ghost played: set<nat>)
      requires Hot(rk) && state != Reader && Stored(suite, rk, wk, before, file, played, played)
      modifies this`cache, this`dirty, this`journal, this`touched, this`done, this`synced, this`state, this`faults, this`grave
      ensures old(faults) <= faults && state == if faults == old(faults) then Reader else Failed
      ensures if state == Reader then Sets() else Hot(rk)
    {
      hide Journaled, Stored;
      var kept, severe := Fault();
      if kept {
        Fail(rk);
      } else {
        EndTransaction();
        done, touched := played, played;
      }
    }

    // The journal will be played back by the next reader: it holds every page that may have
    // changed, as it was.
    ghost predicate Hot(rk: Option<Key>)
      reads `file, `cache, `dirty, `journal, `synced, `state, `before, `touched, `done
    {
      Sets() && Journaled(suite, rk, before, journal) && file.Keys == before.Keys && forall n :: n in file && n !in synced ==> file[n] == before[n]
    }

    lemma StillHot(rk: Option<Key>, wk: Option<Key>)
      requires Valid(rk, wk) && state != Reader
      ensures Hot(rk)
    {
    }

    lemma NothingTouched(rk: Option<Key>, wk: Option<Key>)
      requires Valid(rk, wk) && (state == Locked || state == CacheMod)
      ensures Stored(suite, rk, wk, before, file, {}, {})
    {
    }

    // The journal of a transaction that ended in the error state is played back when the
    // database is next read, by whatever codec it then has.
    method Recover(c: Codec) returns (rc: Rc)
      requires Serves(c) && Hot(c.ReadKey()) && state == Failed
      modifies this`file, this`safe, this`cache, this`dirty, this`journal, this`touched, this`done, this`synced, this`state, this`faults, this`grave
      ensures old(faults) <= faults && (rc == Okay <==> faults == old(faults))
      ensures file.Keys == old(file.Keys) && (rc != Okay ==> state == Failed && Hot(c.ReadKey()))
      ensures rc == Okay ==> state == Reader && Sets() && Stored(suite, c.ReadKey(), c.WriteKey(), before, file, old(synced), old(synced))
    {
      hide Journaled, Cached, Sound, Stored, Moved, Playing, Valid, Hot;
      ReadAnew(c.ReadKey());
      rc := PlayBack(c, c.ReadKey());
      if rc == Okay {
        ghost var was := synced;
        EndTransaction();
        done, touched := was, was;
      }
    }

    // The next reader finds the journal and an empty cache.
    method ReadAnew(ghost rk: Option<Key>)
      requires Sound(suite) && Hot(rk) && state == Failed
      modifies this`cache, this`dirty, this`touched, this`done
      ensures Valid(rk, rk)
    {
      hide Journaled, Cached, Sound, Stored, Moved;
      cache, dirty, touched, done := map[], {}, synced, {};
      HotIsValid(rk);
    }

    lemma HotIsValid(rk: Option<Key>)
      requires Sound(suite) && Hot(rk) && cache == map[] && dirty == {} && touched == synced && done == {} && state == Failed
      ensures Valid(rk, rk)
    {
    }

    lemma RecordReads(n: nat, rk: Option<Key>)
      requires Journaled(suite, rk, before, journal) && n in journal
      ensures n in before && Read(suite, rk, n, journal[n]).Some? && Read(suite, rk, n, journal[n]) == Read(suite, rk, n, before[n])
    {
    }
  }
}
