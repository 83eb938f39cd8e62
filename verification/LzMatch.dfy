// The ring dictionary of the compressor and the search for matches in it.

module LzMatch {
  import opened Ints
  import opened LzSpec

  const DICT_LENGTH: nat := LZ_DICT_SIZE + MAX_MATCH_LEN - 1
  const TWO32: nat := 0x1_0000_0000

  // ----- The ring -----

  // Byte x of the text is in its slot, and again behind the ring when the slot is low.
  ghost predicate Slot(dict: array<byte>, text: seq<byte>, x: nat)
    requires dict.Length == DICT_LENGTH && x < |text|
    reads dict
  {
    dict[x % LZ_DICT_SIZE] == text[x] &&
    (x % LZ_DICT_SIZE < MAX_MATCH_LEN - 1 ==> dict[LZ_DICT_SIZE + x % LZ_DICT_SIZE] == text[x])
  }

  // The ring holds the last LZ_DICT_SIZE bytes of the text.
  ghost predicate Holds(dict: array<byte>, text: seq<byte>)
    requires dict.Length == DICT_LENGTH
    reads dict
  {
    forall x :: 0 <= x < |text| && |text| - LZ_DICT_SIZE <= x ==> Slot(dict, text, x)
  }

  // Reading on past a slot, into the mirrored tail where needed, reads on in the text.
  lemma ReadOn(dict: array<byte>, text: seq<byte>, x: nat, k: nat)
    requires dict.Length == DICT_LENGTH && Holds(dict, text)
    requires x + k < |text| && |text| - LZ_DICT_SIZE <= x && k < MAX_MATCH_LEN
    ensures dict[x % LZ_DICT_SIZE + k] == text[x + k]
  {
    assert Slot(dict, text, x + k);
    var s := x % LZ_DICT_SIZE;
    if s + k < LZ_DICT_SIZE {
      assert (x + k) % LZ_DICT_SIZE == s + k;
    } else {
      assert (x + k) % LZ_DICT_SIZE == s + k - LZ_DICT_SIZE;
    }
  }

  method PutByte(dict: array<byte>, dst: nat, c: byte, ghost text: seq<byte>)
    requires dict.Length == DICT_LENGTH && Holds(dict, text) && dst == |text| % LZ_DICT_SIZE
    modifies dict
    ensures Holds(dict, text + [c])
  {
    dict[dst] := c;
    if dst < MAX_MATCH_LEN - 1 {
      dict[LZ_DICT_SIZE + dst] := c;
    }
    forall x | 0 <= x < |text| + 1 && |text| + 1 - LZ_DICT_SIZE <= x
      ensures Slot(dict, text + [c], x)
    {
      if x < |text| {
        assert x % LZ_DICT_SIZE != dst by { SlotsDiffer(x, |text|); }
        assert old(Slot(dict, text, x));
      }
    }
  }

  lemma SlotsDiffer(x: nat, y: nat)
    requires x < y < x + LZ_DICT_SIZE
    ensures x % LZ_DICT_SIZE != y % LZ_DICT_SIZE
  {
  }

  // ----- The hash chains -----

  function Distance(laPos: nat, earlier: u16): (d: nat)
    ensures d < 0x1_0000
  {
    (laPos - earlier) % 0x1_0000
  }

  predicate Ends(next: seq<u16>, laPos: nat, maxDist: nat, cur: nat)
    requires cur < |next|
  {
    next[cur] == 0 || Distance(laPos, next[cur]) == 0 || Distance(laPos, next[cur]) > maxDist
  }

  // Distance d is met within n steps along the chain from slot cur.
  ghost predicate OnChain(next: seq<u16>, laPos: nat, maxDist: nat, cur: nat, d: nat, n: nat)
    requires |next| == LZ_DICT_SIZE && cur < LZ_DICT_SIZE
    decreases n
  {
    n > 0 && !Ends(next, laPos, maxDist, cur) &&
    (d == Distance(laPos, next[cur]) || OnChain(next, laPos, maxDist, next[cur] % LZ_DICT_SIZE, d, n - 1))
  }

  lemma {:induction false} OnLongerChain(next: seq<u16>, laPos: nat, maxDist: nat, cur: nat, d: nat, n: nat, m: nat)
    requires |next| == LZ_DICT_SIZE && cur < LZ_DICT_SIZE && n <= m && OnChain(next, laPos, maxDist, cur, d, n)
    ensures OnChain(next, laPos, maxDist, cur, d, m)
    decreases n
  {
    if d != Distance(laPos, next[cur]) {
      OnLongerChain(next, laPos, maxDist, next[cur] % LZ_DICT_SIZE, d, n - 1, m - 1);
    }
  }

  // A chain entry stands for the slot of the byte that many positions back.
  lemma EntrySlot(p: nat, laPos: nat, entry: u16)
    requires laPos == p % TWO32 && Distance(laPos, entry) <= p
    ensures entry % LZ_DICT_SIZE == (p - Distance(laPos, entry)) % LZ_DICT_SIZE
  {
    var d := Distance(laPos, entry);
    var a, b := p / TWO32, (laPos - entry) / 0x1_0000;
    Wraps(p - d, entry, 2 * b + 0x2_0000 * a);
  }

  lemma Wraps(x: nat, y: nat, turns: int)
    requires x == y + LZ_DICT_SIZE * turns
    ensures x % LZ_DICT_SIZE == y % LZ_DICT_SIZE
  {
  }

  lemma WrappedSlot(p: nat)
    ensures (p % TWO32) % LZ_DICT_SIZE == p % LZ_DICT_SIZE
  {
    Wraps(p, p % TWO32, 0x2_0000 * (p / TWO32));
  }

  datatype Probed = Stop | Hit | Miss

  // One probe along a chain.
  method Probe(dict: array<byte>, next: array<u16>, laPos: nat, maxDist: nat, len: nat, c0: byte, c1: byte, probePos: nat)
    returns (r: Probed, dist: nat, pos: nat)
    requires dict.Length == DICT_LENGTH && next.Length == LZ_DICT_SIZE && probePos < LZ_DICT_SIZE && 1 <= len < MAX_MATCH_LEN
    ensures pos < LZ_DICT_SIZE
    ensures r.Stop? ==> next[probePos] == 0 || Distance(laPos, next[probePos]) > maxDist
    ensures !r.Stop? ==> next[probePos] != 0 && dist == Distance(laPos, next[probePos]) <= maxDist
    ensures !r.Stop? ==> pos == next[probePos] % LZ_DICT_SIZE
    ensures !r.Stop? ==> (r.Hit? <==> dict[pos + len] == c0 && dict[pos + len - 1] == c1)
  {
    var nextPos := next[probePos];
    dist, pos := 0, probePos;
    if nextPos == 0 {
      return Stop, dist, pos;
    }
    dist := (laPos - nextPos) % 0x1_0000;
    if dist > maxDist {
      return Stop, dist, pos;
    }
    pos := nextPos % LZ_DICT_SIZE;
    r := if dict[pos + len] == c0 && dict[pos + len - 1] == c1 then Hit else Miss;
  }

  // What a search for matches at p may still hope to find: chain entries not ruled out
  // lie within n steps of slot cur.
  ghost predicate Covered(next: seq<u16>, laPos: nat, maxDist: nat, start: nat, budget: nat,
                          text: seq<byte>, p: nat, len: nat, cur: nat, n: nat)
    requires |next| == LZ_DICT_SIZE && start < LZ_DICT_SIZE && cur < LZ_DICT_SIZE
  {
    forall d :: OnChain(next, laPos, maxDist, start, d, budget) ==>
      !TrueMatch(text, p, len + 1, d) || OnChain(next, laPos, maxDist, cur, d, n)
  }

  lemma CoverStep(next: seq<u16>, laPos: nat, maxDist: nat, start: nat, budget: nat,
                  text: seq<byte>, p: nat, len: nat, cur: nat, n: nat, m: nat)
    requires |next| == LZ_DICT_SIZE && start < LZ_DICT_SIZE && cur < LZ_DICT_SIZE
    requires Covered(next, laPos, maxDist, start, budget, text, p, len, cur, n) && n <= m + 1
    requires !TrueMatch(text, p, len + 1, Distance(laPos, next[cur]))
    ensures Covered(next, laPos, maxDist, start, budget, text, p, len, next[cur] % LZ_DICT_SIZE, m)
  {
    forall d | OnChain(next, laPos, maxDist, start, d, budget)
      ensures !TrueMatch(text, p, len + 1, d) || OnChain(next, laPos, maxDist, next[cur] % LZ_DICT_SIZE, d, m)
    {
      if TrueMatch(text, p, len + 1, d) {
        assert OnChain(next, laPos, maxDist, cur, d, n);
        OnLongerChain(next, laPos, maxDist, next[cur] % LZ_DICT_SIZE, d, n - 1, m);
      }
    }
  }

  lemma CoverDone(next: seq<u16>, laPos: nat, maxDist: nat, start: nat, budget: nat,
                  text: seq<byte>, p: nat, len: nat, cur: nat, n: nat)
    requires |next| == LZ_DICT_SIZE && start < LZ_DICT_SIZE && cur < LZ_DICT_SIZE
    requires Covered(next, laPos, maxDist, start, budget, text, p, len, cur, n)
    requires n == 0 || Ends(next, laPos, maxDist, cur)
    ensures NoLonger(next, laPos, maxDist, start, budget, text, p, len)
  {
  }

  // No chain entry within the budget matches at p for more than len bytes.
  ghost predicate NoLonger(next: seq<u16>, laPos: nat, maxDist: nat, start: nat, budget: nat, text: seq<byte>, p: nat, len: nat)
    requires |next| == LZ_DICT_SIZE && start < LZ_DICT_SIZE
  {
    forall d :: OnChain(next, laPos, maxDist, start, d, budget) ==> !TrueMatch(text, p, len + 1, d)
  }

  // Bytes that differ rule a longer match out.
  lemma MissIsShort(text: seq<byte>, p: nat, len: nat, dist: nat, j: nat)
    requires p <= j < p + len && j < |text| && dist <= p && text[j] != text[j - dist]
    ensures !TrueMatch(text, p, len, dist)
  {
    assert !SameAs(text, j, dist);
  }

  // How far the text at p repeats what is dist before.
  method CompareBytes(dict: array<byte>, pos: nat, probePos: nat, maxLen: nat, ghost text: seq<byte>, ghost p: nat, ghost dist: nat)
    returns (len: nat)
    requires dict.Length == DICT_LENGTH && Holds(dict, text) && maxLen <= MAX_MATCH_LEN && p + maxLen == |text|
    requires 1 <= dist <= p && dist + maxLen <= LZ_DICT_SIZE && pos == p % LZ_DICT_SIZE && probePos == (p - dist) % LZ_DICT_SIZE
    ensures len <= maxLen && TrueMatch(text, p, len, dist) && !TrueMatch(text, p, len + 1, dist)
  {
    len := 0;
    while len < maxLen
      invariant len <= maxLen && TrueMatch(text, p, len, dist)
    {
      ReadOn(dict, text, p, len);
      ReadOn(dict, text, p - dist, len);
      if dict[pos + len] != dict[probePos + len] {
        MissIsShort(text, p, len + 1, dist, p + len);
        break;
      }
      assert SameAs(text, p + len, dist);
      len := len + 1;
    }
  }

  // No match at p is longer than the text.
  lemma TextEnds(text: seq<byte>, p: nat, len: nat, next: seq<u16>, laPos: nat, maxDist: nat, start: nat, budget: nat)
    requires |next| == LZ_DICT_SIZE && start < LZ_DICT_SIZE && p + len >= |text|
    ensures NoLonger(next, laPos, maxDist, start, budget, text, p, len)
  {
  }

  lemma CoverLonger(next: seq<u16>, laPos: nat, maxDist: nat, start: nat, budget: nat,
                    text: seq<byte>, p: nat, len: nat, longer: nat, cur: nat, n: nat)
    requires |next| == LZ_DICT_SIZE && start < LZ_DICT_SIZE && cur < LZ_DICT_SIZE
    requires Covered(next, laPos, maxDist, start, budget, text, p, len, cur, n) && len <= longer
    ensures Covered(next, laPos, maxDist, start, budget, text, p, longer, cur, n)
  {
    hide OnChain;
    forall d | OnChain(next, laPos, maxDist, start, d, budget) && TrueMatch(text, p, longer + 1, d)
      ensures OnChain(next, laPos, maxDist, cur, d, n)
    {
      assert TrueMatch(text, p, len + 1, d);
    }
  }

  // A probe that misses rules its entry out.
  lemma MissRulesOut(dict: array<byte>, text: seq<byte>, p: nat, laPos: nat, entry: u16, len: nat)
    requires dict.Length == DICT_LENGTH && Holds(dict, text) && laPos == p % TWO32
    requires 1 <= len && p + len < |text| && len < MAX_MATCH_LEN
    requires var d := Distance(laPos, entry); d <= p && |text| - LZ_DICT_SIZE <= p - d
    requires dict[entry % LZ_DICT_SIZE + len] != dict[p % LZ_DICT_SIZE + len] ||
             dict[entry % LZ_DICT_SIZE + len - 1] != dict[p % LZ_DICT_SIZE + len - 1]
    ensures !TrueMatch(text, p, len + 1, Distance(laPos, entry))
  {
    hide Holds, TrueMatch;
    var d := Distance(laPos, entry);
    EntrySlot(p, laPos, entry);
    var j := if dict[entry % LZ_DICT_SIZE + len] != dict[p % LZ_DICT_SIZE + len] then len else len - 1;
    ReadOn(dict, text, p - d, j);
    ReadOn(dict, text, p, j);
    MissIsShort(text, p, len + 1, d, p + j);
  }

  // The inner loop of the search: on along the chain, three probes for each count, until
  // an entry agrees in the two bytes that would make a longer match.
  method NextHit(dict: array<byte>, next: array<u16>, laPos: nat, maxDist: nat, len: nat, c0: byte, c1: byte, probePos0: nat,
                 numProbes0: nat, ghost text: seq<byte>, ghost p: nat, ghost budget: nat)
    returns (found: bool, dist: nat, probePos: nat, numProbes: nat, ghost cur: nat, ghost n: nat)
    requires dict.Length == DICT_LENGTH && next.Length == LZ_DICT_SIZE && Holds(dict, text) && probePos0 < LZ_DICT_SIZE
    requires laPos == p % TWO32 && maxDist <= p && |text| - LZ_DICT_SIZE <= p - maxDist && numProbes0 >= 1
    requires 1 <= len < MAX_MATCH_LEN && p + len < |text|
    requires c0 == dict[p % LZ_DICT_SIZE + len] && c1 == dict[p % LZ_DICT_SIZE + len - 1]
    requires Covered(next[..], laPos, maxDist, p % LZ_DICT_SIZE, budget, text, p, len, probePos0, numProbes0 - 1)
    ensures !found ==> NoLonger(next[..], laPos, maxDist, p % LZ_DICT_SIZE, budget, text, p, len)
    ensures found ==> 1 <= numProbes < numProbes0 && cur < LZ_DICT_SIZE && probePos == next[cur] % LZ_DICT_SIZE &&
                      next[cur] != 0 && dist == Distance(laPos, next[cur]) <= maxDist && n <= numProbes &&
                      Covered(next[..], laPos, maxDist, p % LZ_DICT_SIZE, budget, text, p, len, cur, n)
  {
    hide Holds, TrueMatch, OnChain, Covered, NoLonger;
    found, dist, probePos, numProbes, cur, n := false, 0, probePos0, numProbes0, 0, 0;
    ghost var slots, start := next[..], p % LZ_DICT_SIZE;
    while true
      invariant probePos < LZ_DICT_SIZE && 1 <= numProbes <= numProbes0
      invariant Covered(slots, laPos, maxDist, start, budget, text, p, len, probePos, numProbes - 1)
      decreases numProbes
    {
      numProbes := numProbes - 1;
      if numProbes == 0 {
        CoverDone(slots, laPos, maxDist, start, budget, text, p, len, probePos, 0);
        return;
      }
      n := numProbes;
      for i := 0 to 3
        invariant probePos < LZ_DICT_SIZE && numProbes - 1 <= n <= numProbes && (i > 0 ==> n == numProbes - 1)
        invariant Covered(slots, laPos, maxDist, start, budget, text, p, len, probePos, n)
      {
        var r, d, q := Probe(dict, next, laPos, maxDist, len, c0, c1, probePos);
        if r.Stop? {
          CoverDone(slots, laPos, maxDist, start, budget, text, p, len, probePos, n);
          return;
        }
        cur, dist := probePos, d;
        probePos := q;
        if r.Hit? {
          found := true;
          return;
        }
        MissRulesOut(dict, text, p, laPos, next[cur], len);
        CoverStep(slots, laPos, maxDist, start, budget, text, p, len, cur, n, numProbes - 1);
        n := numProbes - 1;
      }
    }
  }

  // tdefl_find_match. p is the true position of the byte at laPos, which wraps at 2^32.
  // The match returned is true in the text, longer than the one known before, and at least
  // as long as any other within maxProbes - 1 steps along the chain.
  method FindMatch(dict: array<byte>, next: array<u16>, maxProbes: nat, laPos: nat, maxDist: nat, maxLen: nat, dist0: nat, len0: nat,
                   ghost text: seq<byte>, ghost p: nat)
    returns (dist: nat, len: nat)
    requires dict.Length == DICT_LENGTH && next.Length == LZ_DICT_SIZE && Holds(dict, text)
    requires laPos == p % TWO32 && maxDist <= p && p + maxLen == |text| && maxLen <= MAX_MATCH_LEN && maxDist + maxLen <= LZ_DICT_SIZE
    requires maxProbes >= 1 && 1 <= len0 < MAX_MATCH_LEN
    ensures (dist == dist0 && len == len0) || (len0 < len <= maxLen && 1 <= dist <= maxDist && TrueMatch(text, p, len, dist))
    ensures NoLonger(next[..], laPos, maxDist, p % LZ_DICT_SIZE, maxProbes - 1, text, p, len)
  {
    hide Holds, TrueMatch, OnChain, Covered, NoLonger;
    dist, len := dist0, len0;
    var pos := laPos % LZ_DICT_SIZE;
    WrappedSlot(p);
    var probePos: nat, numProbes: nat := pos, maxProbes;
    var c0, c1 := dict[pos + len], dict[pos + len - 1];
    ghost var slots, budget := next[..], maxProbes - 1;
    if maxLen <= len {
      TextEnds(text, p, len, slots, laPos, maxDist, pos, budget);
      return;
    }
    CoverStart(slots, laPos, maxDist, pos, budget, text, p, len);
    while true
      invariant probePos < LZ_DICT_SIZE && numProbes >= 1 && 1 <= len < maxLen
      invariant (dist == dist0 && len == len0) || (len0 < len && 1 <= dist <= maxDist && TrueMatch(text, p, len, dist))
      invariant c0 == dict[pos + len] && c1 == dict[pos + len - 1]
      invariant Covered(slots, laPos, maxDist, pos, budget, text, p, len, probePos, numProbes - 1)
      decreases numProbes
    {
      var found, d, q, left, cur, n := NextHit(dict, next, laPos, maxDist, len, c0, c1, probePos, numProbes, text, p, budget);
      if !found {
        return;
      }
      if d == 0 {
        CoverDone(slots, laPos, maxDist, pos, budget, text, p, len, cur, n);
        return;
      }
      probePos, numProbes := q, left;
      EntrySlot(p, laPos, next[cur]);
      var probeLen := CompareBytes(dict, pos, probePos, maxLen, text, p, d);
      if probeLen > len {
        CoverLonger(slots, laPos, maxDist, pos, budget, text, p, len, probeLen, cur, n);
        dist, len := d, probeLen;
        if len == maxLen {
          TextEnds(text, p, len, slots, laPos, maxDist, pos, budget);
          return;
        }
        c0, c1 := dict[pos + len], dict[pos + len - 1];
      } else {
        NoLongerStill(text, p, probeLen, len, d);
      }
      CoverStep(slots, laPos, maxDist, pos, budget, text, p, len, cur, n, numProbes - 1);
    }
  }

  lemma CoverStart(next: seq<u16>, laPos: nat, maxDist: nat, start: nat, budget: nat, text: seq<byte>, p: nat, len: nat)
    requires |next| == LZ_DICT_SIZE && start < LZ_DICT_SIZE
    ensures Covered(next, laPos, maxDist, start, budget, text, p, len, start, budget)
  {
  }

  lemma NoLongerStill(text: seq<byte>, p: nat, len: nat, longer: nat, dist: nat)
    requires !TrueMatch(text, p, len + 1, dist) && len <= longer
    ensures !TrueMatch(text, p, longer + 1, dist)
  {
  }
}
