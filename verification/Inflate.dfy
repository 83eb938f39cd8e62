// Reading Huffman words out of the bit buffer.

module Inflate {
  import opened Bits
  import opened Bitstream
  import opened HuffmanCode
  import opened HuffmanTable

  // ----- The symbol that bits stand for -----

  // The bits left begin with the word of symbol i.
  ghost predicate NextWord(cs: seq<nat>, i: nat, rest: seq<bool>) {
    Used(cs, i) && Word(cs, i) <= rest
  }

  ghost predicate HasWord(cs: seq<nat>, rest: seq<bool>) {
    exists i: nat :: NextWord(cs, i, rest)
  }

  // A symbol and how many bits it takes; proper if the bits begin with its word.
  datatype Symbol = NoSymbol | Symbol(sym: nat, len: nat, proper: bool)

  // What the decompressor makes of the bits left. Bits that begin with no word, which only an
  // incomplete code has, are symbol 0: nothing is taken for it, or what led through the tree.
  ghost function NextSymbol(cs: seq<nat>, rest: seq<bool>): (s: Symbol)
    ensures s.Symbol? ==> s.len <= |rest| && (s.sym != 0 ==> s.len > 0 && Used(cs, s.sym))
    ensures s.Symbol? && s.proper ==> NextWord(cs, s.sym, rest) && s.len == cs[s.sym] > 0
  {
    if HasWord(cs, rest) then
      var i: nat :| NextWord(cs, i, rest);
      WordLength(cs, i);
      Symbol(i, cs[i], true)
    else if FAST_BITS <= |rest| && Inner(cs, rest[..FAST_BITS]) then Leave(cs, rest, FAST_BITS)
    else if |rest| >= MAX_LENGTH then Symbol(0, 0, false)
    else NoSymbol
  }

  // Where the bits leave the tree.
  ghost function Leave(cs: seq<nat>, rest: seq<bool>, d: nat): (s: Symbol)
    requires d <= |rest|
    ensures s.Symbol? ==> s.sym == 0 && !s.proper && d <= s.len <= |rest|
    decreases |rest| - d
  {
    if !Inner(cs, rest[..d]) then Symbol(0, d, false)
    else if d == |rest| then NoSymbol
    else Leave(cs, rest, d + 1)
  }

  // A word, if there is one, decides.
  lemma WordDecides(cs: seq<nat>, i: nat, rest: seq<bool>)
    requires Feasible(cs) && NextWord(cs, i, rest)
    ensures NextSymbol(cs, rest) == Symbol(i, cs[i], true)
  {
    hide Feasible, Word, Leave;
    var s := NextSymbol(cs, rest);
    OneWord(cs, i, s.sym, rest);
  }

  lemma OneWord(cs: seq<nat>, i: nat, j: nat, rest: seq<bool>)
    requires Feasible(cs) && NextWord(cs, i, rest) && NextWord(cs, j, rest)
    ensures i == j
  {
    hide Feasible, Word;
    OneCovers(cs, rest, i, j);
  }

  lemma WordMore(cs: seq<nat>, s: seq<bool>, more: seq<bool>)
    ensures HasWord(cs, s) ==> HasWord(cs, s + more)
  {
    hide Word;
    if i: nat :| NextWord(cs, i, s) {
      assert NextWord(cs, i, s + more);
    }
  }

  // The bits of a branching point begin with no word.
  lemma NoWordInside(cs: seq<nat>, q: seq<bool>)
    requires Feasible(cs) && Inner(cs, q)
    ensures !HasWord(cs, q)
  {
    hide Feasible, Inner, Word;
    if HasWord(cs, q) {
      var i: nat :| NextWord(cs, i, q);
      NodeNotCovered(cs, q, i);
    }
  }

  lemma {:induction false} LeavesAt(cs: seq<nat>, rest: seq<bool>, d: nat, len: nat)
    requires d <= len <= |rest| && !Inner(cs, rest[..len]) && forall e :: d <= e < len ==> Inner(cs, rest[..e])
    ensures Leave(cs, rest, d) == Symbol(0, len, false)
    decreases len - d
  {
    hide Inner;
    if d < len {
      LeavesAt(cs, rest, d + 1, len);
    }
  }

  lemma {:induction false} LeavesNever(cs: seq<nat>, rest: seq<bool>, d: nat)
    requires d <= |rest| && forall e :: d <= e <= |rest| ==> Inner(cs, rest[..e])
    ensures Leave(cs, rest, d) == NoSymbol
    decreases |rest| - d
  {
    hide Inner;
    if d < |rest| {
      LeavesNever(cs, rest, d + 1);
    }
  }

  lemma {:induction false} LeaveMeans(cs: seq<nat>, rest: seq<bool>, d: nat)
    requires d <= |rest|
    ensures var s := Leave(cs, rest, d);
            if s.NoSymbol? then forall e :: d <= e <= |rest| ==> Inner(cs, rest[..e])
            else !Inner(cs, rest[..s.len]) && forall e :: d <= e < s.len ==> Inner(cs, rest[..e])
    decreases |rest| - d
  {
    hide Inner;
    if d < |rest| {
      LeaveMeans(cs, rest, d + 1);
    }
  }

  // A complete code has a word for whatever follows: its symbols are proper.
  lemma CompleteIsProper(cs: seq<nat>, rest: seq<bool>)
    requires Lengths(cs) && Complete(cs)
    ensures |rest| >= MAX_LENGTH ==> HasWord(cs, rest)
    ensures NextSymbol(cs, rest).Symbol? ==> NextSymbol(cs, rest).proper
  {
    hide Complete, Inner, Word, Leave, Feasible;
    var more: seq<bool> := seq(MAX_LENGTH, _ => false);
    var i := WordOf(cs, (rest + more)[..MAX_LENGTH]);
    assert (rest + more)[..MAX_LENGTH][..cs[i]] == (rest + more)[..cs[i]];
    if cs[i] <= |rest| {
      assert (rest + more)[..cs[i]] == rest[..cs[i]];
      assert NextWord(cs, i, rest);
    } else {
      assert Word(cs, i)[..|rest|] == rest;
      forall d | 0 <= d <= |rest| ensures Inner(cs, rest[..d]) {
        InnerPrefix(cs, i, d);
        assert Word(cs, i)[..d] == rest[..d];
      }
      if |rest| >= FAST_BITS {
        LeavesNever(cs, rest, FAST_BITS);
      }
    }
  }

  lemma WordOf(cs: seq<nat>, p: seq<bool>) returns (i: nat)
    requires Lengths(cs) && Complete(cs) && |p| == MAX_LENGTH
    ensures Used(cs, i) && |Word(cs, i)| == cs[i] && Word(cs, i) == p[..cs[i]]
  {
    hide Word, Start, Weight, Val, CodeOf, Below, FirstCode, Count;
    WholeSpace();
    PrefixInside([], p);
    LoBelowHi(p);
    i := Covered(cs, MAX_LENGTH + 1, Lo(p));
    CodeFits(cs, i);
    WordLength(cs, i);
    hide Lo, Hi;
    Nested(Word(cs, i), p, Lo(p));
  }

  lemma LoBelowHi(p: seq<bool>)
    requires |p| <= MAX_LENGTH
    ensures Lo(p) < Hi(p)
  {
    Pow2Positive(MAX_LENGTH - |p|);
  }

  // ----- The bits in the buffer -----

  lemma PrefixOf(x: nat, n: nat, d: nat, more: seq<bool>)
    requires d <= n
    ensures (Lsb(x, n) + more)[..d] == Lsb(x, d) && |Lsb(x, n)| == n
  {
    LsbPrefix(x, d, n);
    assert (Lsb(x, n) + more)[..d] == Lsb(x, n)[..d];
  }

  // A word that fits into the buffer is one that the buffer begins with.
  lemma WordInBuffer(cs: seq<nat>, i: nat, x: nat, n: nat, more: seq<bool>)
    requires i < |cs| && cs[i] <= n
    ensures NextWord(cs, i, Lsb(x, n) + more) <==> Matches(cs, i, x)
  {
    WordLength(cs, i);
    PrefixOf(x, n, cs[i], more);
  }

  // What is found out about a symbol stays so when more bits are read.
  ghost predicate Decided(cs: seq<nat>, x: nat, n: nat) {
    n >= MAX_LENGTH || NextSymbol(cs, Lsb(x, n)).Symbol?
  }

  lemma WordFits(cs: seq<nat>, i: nat, x: nat, n: nat, more: seq<bool>)
    requires Feasible(cs) && Decided(cs, x, n) && (NextWord(cs, i, Lsb(x, n) + more) || Matches(cs, i, x)) && Used(cs, i)
    ensures cs[i] <= n
  {
    hide Feasible, Word, Lsb, Inner, Leave;
    if cs[i] > n {
      var s := Lsb(x, n);
      var sym := NextSymbol(cs, s);
      WordBegins(cs, i, x, n, more);
      InnerPrefix(cs, i, n);
      NoWordInside(cs, s);
      LeaveMeans(cs, s, FAST_BITS);
      assert s[..sym.len] == Word(cs, i)[..sym.len];
      InnerPrefix(cs, i, sym.len);
      assert false;
    }
  }

  lemma WordBegins(cs: seq<nat>, i: nat, x: nat, n: nat, more: seq<bool>)
    requires i < |cs| && cs[i] > n && (NextWord(cs, i, Lsb(x, n) + more) || Matches(cs, i, x))
    ensures |Lsb(x, n)| == n && |Word(cs, i)| == cs[i] && Lsb(x, n) == Word(cs, i)[..n]
  {
    WordLength(cs, i);
    LsbLength(x, n);
    if Matches(cs, i, x) {
      LsbPrefix(x, n, cs[i]);
    } else {
      assert (Lsb(x, n) + more)[..n] == Lsb(x, n);
    }
  }

  // Once it is decided, the tables say what the symbol is.
  lemma DecodeIs(cs: seq<nat>, x: nat, n: nat, more: seq<bool>, sym: int, len: nat)
    requires Feasible(cs) && Decided(cs, x, n)
    requires forall i: nat :: i < |cs| && Matches(cs, i, x) ==> sym == i && len == cs[i]
    requires NoMatch(cs, x) ==> sym == 0 && StrayLength(cs, x, len)
    ensures len <= n
    ensures var s := NextSymbol(cs, Lsb(x, n) + more); s.Symbol? && s.sym == sym && s.len == len
  {
    hide Feasible, Word, Lsb, Inner, Leave, NextSymbol, StrayLength, Matches;
    var rest := Lsb(x, n) + more;
    if i: nat :| NextWord(cs, i, rest) {
      WordFits(cs, i, x, n, more);
      WordInBuffer(cs, i, x, n, more);
      WordDecides(cs, i, rest);
    } else {
      forall i: nat | i < |cs| ensures !Matches(cs, i, x) {
        if Matches(cs, i, x) {
          MatchIsUsed(cs, i, x);
          WordFits(cs, i, x, n, more);
          WordInBuffer(cs, i, x, n, more);
        }
      }
      StrayIs(cs, x, n, more, len);
    }
  }

  lemma MatchIsUsed(cs: seq<nat>, i: nat, x: nat)
    requires Matches(cs, i, x)
    ensures Used(cs, i)
  {
  }

  lemma StrayIs(cs: seq<nat>, x: nat, n: nat, more: seq<bool>, len: nat)
    requires Decided(cs, x, n) && StrayLength(cs, x, len) && !HasWord(cs, Lsb(x, n) + more)
    ensures len <= n && NextSymbol(cs, Lsb(x, n) + more) == Symbol(0, len, false)
  {
    hide Lsb, Inner, Leave, HasWord;
    var rest := Lsb(x, n) + more;
    if n < MAX_LENGTH {
      DecidedInTree(cs, x, n, more, len);
    }
    PrefixOf(x, n, FAST_BITS, more);
    if Inner(cs, Lsb(x, FAST_BITS)) {
      forall d | FAST_BITS <= d < len ensures Inner(cs, rest[..d]) {
        PrefixOf(x, n, d, more);
      }
      PrefixOf(x, n, len, more);
      LeavesAt(cs, rest, FAST_BITS, len);
    }
  }

  lemma DecidedInTree(cs: seq<nat>, x: nat, n: nat, more: seq<bool>, len: nat)
    requires n < MAX_LENGTH && Decided(cs, x, n) && StrayLength(cs, x, len) && !HasWord(cs, Lsb(x, n) + more)
    ensures FAST_BITS <= n && Inner(cs, Lsb(x, FAST_BITS)) && len <= n
  {
    hide Lsb, Inner, Leave, Word;
    var s := Lsb(x, n);
    LsbLength(x, n);
    WordMore(cs, s, more);
    LsbPrefix(x, FAST_BITS, n);
    LeaveMeans(cs, s, FAST_BITS);
    LsbPrefix(x, NextSymbol(cs, s).len, n);
  }

  // ----- Reading -----

  // What TINFL_HUFF_BITBUF_FILL finds out: whether the bits present decide the symbol.
  method Probe(t: Table, bitBuf: nat, numBits: nat, ghost cs: seq<nat>) returns (found: bool)
    requires Acceptable(cs) && |cs| <= MAX_SYMBOLS && t.Filled(cs, |cs|) && numBits < 15
    ensures found <==> NextSymbol(cs, Lsb(bitBuf, numBits)).Symbol?
  {
    hide Feasible, Acceptable, Lsb, Tables, NextSymbol, Inner, Leave;
    AcceptableIsFeasible(cs);
    var temp := t.lookUp[bitBuf % FAST_SIZE];
    FastResult(cs, t.nodes, t.lookUp[..], t.tree[..], bitBuf);
    if temp >= 0 {
      ProbeFast(cs, t.nodes, t.lookUp[..], t.tree[..], bitBuf, numBits);
      var codeLen := temp / 512;
      return codeLen != 0 && numBits >= codeLen;
    }
    if numBits > FAST_BITS {
      var codeLen := FAST_BITS;
      Walk(cs, t.nodes, t.lookUp[..], t.tree[..], bitBuf, codeLen);
      WalkStray(cs, t.nodes, t.lookUp[..], t.tree[..], bitBuf, codeLen);
      temp := t.tree[-temp - 1 + High(bitBuf, codeLen) % 2];
      codeLen := codeLen + 1;
      while temp < 0 && numBits >= codeLen + 1
        invariant FAST_BITS < codeLen <= numBits && forall d :: FAST_BITS <= d < codeLen ==> Lsb(bitBuf, d) in t.nodes
        invariant if temp < 0 then Lsb(bitBuf, codeLen) in t.nodes && temp == Ref(t.nodes[Lsb(bitBuf, codeLen)]) else Lsb(bitBuf, codeLen) !in t.nodes
        decreases numBits - codeLen
      {
        Walk(cs, t.nodes, t.lookUp[..], t.tree[..], bitBuf, codeLen);
        WalkStray(cs, t.nodes, t.lookUp[..], t.tree[..], bitBuf, codeLen);
        temp := t.tree[-temp - 1 + High(bitBuf, codeLen) % 2];
        codeLen := codeLen + 1;
      }
      ProbeTree(cs, t.nodes, t.lookUp[..], t.tree[..], bitBuf, numBits, codeLen);
      return temp >= 0;
    }
    ProbeTree(cs, t.nodes, t.lookUp[..], t.tree[..], bitBuf, numBits, FAST_BITS);
    return false;
  }

  lemma ProbeFast(cs: seq<nat>, nodes: Nodes, lk: seq<int>, tr: seq<int>, x: nat, n: nat)
    requires Feasible(cs) && |cs| <= MAX_SYMBOLS && |lk| == FAST_SIZE && Tables(cs, |cs|, nodes, lk, tr) && lk[x % FAST_SIZE] >= 0 && n < MAX_LENGTH
    ensures var v := lk[x % FAST_SIZE]; v / 512 != 0 && n >= v / 512 <==> NextSymbol(cs, Lsb(x, n)).Symbol?
  {
    hide Feasible, Lsb, Inner, Leave, Tables, Word, Matches;
    var s, v := Lsb(x, n), lk[x % FAST_SIZE];
    FastStray(cs, nodes, lk, tr, x);
    FastResult(cs, nodes, lk, tr, x);
    assert s + [] == s;
    LsbLength(x, n);
    if n >= FAST_BITS {
      LsbPrefix(x, FAST_BITS, n);
    }
    if i: nat :| NextWord(cs, i, s) {
      WordLength(cs, i);
      WordInBuffer(cs, i, x, n, []);
    } else if v / 512 != 0 && n >= v / 512 {
      FastSymbol(cs, nodes, lk, tr, x);
      WordInBuffer(cs, v % 512, x, n, []);
    }
  }

  // A positive entry belongs to a word.
  lemma FastSymbol(cs: seq<nat>, nodes: Nodes, lk: seq<int>, tr: seq<int>, x: nat)
    requires Feasible(cs) && |cs| <= MAX_SYMBOLS && |lk| == FAST_SIZE && Tables(cs, |cs|, nodes, lk, tr) && lk[x % FAST_SIZE] > 0
    ensures var v := lk[x % FAST_SIZE]; v % 512 < |cs| && Matches(cs, v % 512, x) && cs[v % 512] == v / 512
  {
    hide Feasible, Lsb, Inner, Tables, Word, Ref;
    FastStray(cs, nodes, lk, tr, x);
    FastResult(cs, nodes, lk, tr, x);
    assert !NoMatch(cs, x);
  }

  lemma ProbeTree(cs: seq<nat>, nodes: Nodes, lk: seq<int>, tr: seq<int>, x: nat, n: nat, len: nat)
    requires Feasible(cs) && Tables(cs, |cs|, nodes, lk, tr) && n < MAX_LENGTH && Lsb(x, FAST_BITS) in nodes && FAST_BITS <= len
    requires forall d :: FAST_BITS <= d < len ==> Lsb(x, d) in nodes
    requires if Lsb(x, len) in nodes then n <= len else len <= n
    ensures NextSymbol(cs, Lsb(x, n)).Symbol? <==> Lsb(x, len) !in nodes
  {
    hide Feasible, Lsb, Inner, Tables, Word, Leave;
    var s := Lsb(x, n);
    LsbLength(x, n);
    AllInner(cs, nodes, lk, tr, x, len);
    if Lsb(x, len) in nodes {
      LsbPrefix(x, n, len);
      LsbLength(x, len);
      assert Lsb(x, len) == s + Lsb(x, len)[n..];
      WordMore(cs, s, Lsb(x, len)[n..]);
      NoWordInside(cs, Lsb(x, len));
      if n >= FAST_BITS {
        forall d | FAST_BITS <= d <= n ensures Inner(cs, s[..d]) {
          LsbPrefix(x, d, n);
        }
        LeavesNever(cs, s, FAST_BITS);
      }
    } else {
      forall d | FAST_BITS <= d < len ensures Inner(cs, s[..d]) {
        LsbPrefix(x, d, n);
      }
      LsbPrefix(x, len, n);
      LeavesAt(cs, s, FAST_BITS, len);
    }
  }

  lemma AllInner(cs: seq<nat>, nodes: Nodes, lk: seq<int>, tr: seq<int>, x: nat, len: nat)
    requires Tables(cs, |cs|, nodes, lk, tr) && FAST_BITS <= len && forall d :: FAST_BITS <= d < len ==> Lsb(x, d) in nodes
    ensures (forall d :: FAST_BITS <= d < len ==> Inner(cs, Lsb(x, d))) && (Lsb(x, len) in nodes <==> Inner(cs, Lsb(x, len)))
  {
    hide Tables, Lsb, Inner;
    forall d | FAST_BITS <= d <= len ensures Lsb(x, d) in nodes <==> Inner(cs, Lsb(x, d)) {
      LsbLength(x, d);
      InnerIsNode(cs, nodes, lk, tr, Lsb(x, d));
    }
  }

  // TINFL_HUFF_DECODE: the symbol that the bits left stand for, and exactly its bits are taken;
  // near the end of the input no more bytes are asked for than it needs.
  method HuffDecode(r: Reader, t: Table, ghost cs: seq<nat>) returns (ok: bool, sym: nat)
    requires r.Valid() && Acceptable(cs) && |cs| <= MAX_SYMBOLS && t.Filled(cs, |cs|)
    modifies r
    ensures r.Valid() && (ok <==> NextSymbol(cs, old(r.Rest())).Symbol?)
    ensures ok ==> var s := NextSymbol(cs, old(r.Rest())); sym == s.sym && r.Rest() == old(r.Rest())[s.len..]
  {
    hide *;
    AcceptableIsFeasible(cs);
    ghost var rest := r.Rest();
    if r.numBits < 15 {
      if |r.src| - r.pos < 2 {
        var found := Probe(t, r.bitBuf, r.numBits, cs);
        while !found && r.numBits < 15
          invariant r.Valid() && r.Rest() == rest && t.Filled(cs, |cs|)
          invariant r.numBits < 15 ==> (found <==> NextSymbol(cs, Lsb(r.bitBuf, r.numBits)).Symbol?)
          decreases |r.src| - r.pos
        {
          RestIs(r);
          if r.pos == |r.src| {
            AtEnd(r);
            return false, 0;
          }
          r.AddByte();
          if r.numBits < 15 {
            found := Probe(t, r.bitBuf, r.numBits, cs);
          }
        }
        IsDecided(cs, r.bitBuf, r.numBits);
      } else {
        r.AddByte();
        r.AddByte();
        IsDecided(cs, r.bitBuf, r.numBits);
      }
    } else {
      IsDecided(cs, r.bitBuf, r.numBits);
    }
    sym := DecodeNow(r, t, cs);
    ok := true;
  }

  // The symbol is looked up and its bits are taken.
  method DecodeNow(r: Reader, t: Table, ghost cs: seq<nat>) returns (sym: nat)
    requires r.Valid() && Acceptable(cs) && |cs| <= MAX_SYMBOLS && t.Filled(cs, |cs|) && Decided(cs, r.bitBuf, r.numBits)
    modifies r
    ensures r.Valid() && r.pos == old(r.pos)
    ensures var s := NextSymbol(cs, old(r.Rest())); s.Symbol? && sym == s.sym && r.Rest() == old(r.Rest())[s.len..]
  {
    hide *;
    AcceptableIsFeasible(cs);
    var temp, len := t.Decode(r.bitBuf, cs);
    RestIs(r);
    DecodeIs(cs, r.bitBuf, r.numBits, BitsOf(r.src[r.pos..]), temp, len);
    r.Drop(len);
    sym := temp;
  }

  // Fifteen bits decide every symbol; two more bytes are enough for them.
  method DecodeFast(r: Reader, t: Table, ghost cs: seq<nat>) returns (sym: nat)
    requires r.Valid() && Acceptable(cs) && |cs| <= MAX_SYMBOLS && t.Filled(cs, |cs|) && r.pos + 2 <= |r.src|
    modifies r
    ensures r.Valid() && r.pos <= old(r.pos) + 2
    ensures var s := NextSymbol(cs, old(r.Rest())); s.Symbol? && sym == s.sym && r.Rest() == old(r.Rest())[s.len..]
  {
    hide *;
    if r.numBits < 15 {
      r.AddByte();
      r.AddByte();
    }
    IsDecided(cs, r.bitBuf, r.numBits);
    sym := DecodeNow(r, t, cs);
  }

  lemma IsDecided(cs: seq<nat>, x: nat, n: nat)
    requires n >= 15 || NextSymbol(cs, Lsb(x, n)).Symbol?
    ensures Decided(cs, x, n)
  {
    hide NextSymbol, Lsb;
  }

  lemma RestIs(r: Reader)
    requires r.Valid()
    ensures r.pos <= |r.src| && r.Rest() == Lsb(r.bitBuf, r.numBits) + BitsOf(r.src[r.pos..])
  {
  }

  lemma AtEnd(r: Reader)
    requires r.Valid() && r.pos == |r.src|
    ensures r.Rest() == Lsb(r.bitBuf, r.numBits)
  {
    assert r.src[r.pos..] == [];
  }
}
