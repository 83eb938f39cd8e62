// The hash chains of the match finder: for every hash of three bytes the last place that has it,
// and for every place the one before it with the same hash.

module LzChains {
  import opened Ints
  import opened LzSpec

  const LZ_HASH_SIZE: nat := 32768

  datatype Chains = Chains(next: seq<u16>, heads: seq<u16>)

  predicate Sized(c: Chains) {
    |c.next| == LZ_DICT_SIZE && |c.heads| == LZ_HASH_SIZE
  }

  function Shifted(h: bv15, c: bv15): bv15 {
    (h << 5) ^ c
  }

  // One more byte in the hash.
  function HashStep(h: bv15, c: byte): bv15 {
    Shifted(h, c as bv15)
  }

  // The hash of three bytes.
  function Hash(a: byte, b: byte, c: byte): bv15 {
    HashStep(HashStep(HashStep(0, a), b), c)
  }

  function Mixed(a: bv15, b: bv15, c: bv15): bv15 {
    (a << 10) ^ (b << 5) ^ c
  }

  // Bytes further back have left it.
  lemma HashForgets(x: bv15, a: byte, b: byte, c: byte)
    ensures HashStep(HashStep(HashStep(x, a), b), c) == Hash(a, b, c) == Mixed(a as bv15, b as bv15, c as bv15)
  {
    hide Shifted, Mixed;
    ShiftedOut(x, a as bv15, b as bv15, c as bv15);
    ShiftedOut(0, a as bv15, b as bv15, c as bv15);
  }

  lemma ShiftedOut(x: bv15, a: bv15, b: bv15, c: bv15)
    ensures Shifted(Shifted(Shifted(x, a), b), c) == Mixed(a, b, c)
  {
  }

  // The chain that a place belongs to.
  function HashAt(s: seq<byte>, p: nat): (h: nat)
    requires p + 3 <= |s|
    ensures h < LZ_HASH_SIZE
  {
    Hash(s[p], s[p + 1], s[p + 2]) as nat
  }

  // A place put in front of the chain of a hash.
  function Linked(c: Chains, p: nat, h: nat): (d: Chains)
    requires Sized(c) && h < LZ_HASH_SIZE
    ensures Sized(d)
  {
    Chains(c.next[p % LZ_DICT_SIZE := c.heads[h]], c.heads[h := p % 0x1_0000])
  }

  // The chains after the places from start up to end, each put in front of those before it.
  function Entered(c: Chains, s: seq<byte>, start: nat, end: nat): (d: Chains)
    requires Sized(c) && start <= end && end + 2 <= |s|
    ensures Sized(d)
  {
    if start == end then c else Linked(Entered(c, s, start, end - 1), end - 1, HashAt(s, end - 1))
  }

  lemma {:induction false} EnteredMore(c: Chains, s: seq<byte>, t: seq<byte>, start: nat, end: nat)
    requires Sized(c) && start <= end && end + 2 <= |s|
    ensures Entered(c, s + t, start, end) == Entered(c, s, start, end)
  {
    hide HashAt;
    if start < end {
      EnteredMore(c, s, t, start, end - 1);
      SameHash(s, t, end - 1);
    }
  }

  lemma SameHash(s: seq<byte>, t: seq<byte>, p: nat)
    requires p + 3 <= |s|
    ensures HashAt(s + t, p) == HashAt(s, p)
  {
  }

  // A chain begins at the last place with its hash.
  lemma {:induction false} HeadIsLast(c: Chains, s: seq<byte>, start: nat, end: nat, p: nat)
    requires Sized(c) && start <= p < end && end + 2 <= |s| && forall q :: p < q < end ==> HashAt(s, q) != HashAt(s, p)
    ensures Entered(c, s, start, end).heads[HashAt(s, p)] == p % 0x1_0000
    decreases end
  {
    hide HashAt;
    if p < end - 1 {
      HeadIsLast(c, s, start, end - 1, p);
    }
  }

  // As long as its slot is not taken over, a place leads on to where the chain began before it.
  lemma {:induction false} LinkIsPrevious(c: Chains, s: seq<byte>, start: nat, end: nat, p: nat)
    requires Sized(c) && start <= p < end <= p + LZ_DICT_SIZE && end + 2 <= |s|
    ensures Entered(c, s, start, end).next[p % LZ_DICT_SIZE] == Entered(c, s, start, p).heads[HashAt(s, p)]
    decreases end
  {
    hide HashAt;
    if p < end - 1 {
      LinkIsPrevious(c, s, start, end - 1, p);
      OtherSlot(p, end - 1);
    }
  }

  lemma OtherSlot(p: nat, q: nat)
    requires p < q < p + LZ_DICT_SIZE
    ensures p % LZ_DICT_SIZE != q % LZ_DICT_SIZE
  {
    var a, b := p / LZ_DICT_SIZE, q / LZ_DICT_SIZE;
    assert p == LZ_DICT_SIZE * a + p % LZ_DICT_SIZE && q == LZ_DICT_SIZE * b + q % LZ_DICT_SIZE;
  }

  // Together: from a place with a hash, the chain goes back to the next place with it.
  lemma ChainGoesBack(c: Chains, s: seq<byte>, start: nat, end: nat, p: nat, q: nat)
    requires Sized(c) && start <= p < q < end <= q + LZ_DICT_SIZE && end + 2 <= |s|
    requires HashAt(s, p) == HashAt(s, q) && forall r :: p < r < q ==> HashAt(s, r) != HashAt(s, q)
    ensures Entered(c, s, start, end).next[q % LZ_DICT_SIZE] == p % 0x1_0000
  {
    hide HashAt;
    LinkIsPrevious(c, s, start, end, q);
    HeadIsLast(c, s, start, q, p);
  }

  // A position that has wrapped at 32 bits has the same slot and the same low half.
  lemma SameSlot(p: nat)
    ensures p % 0x1_0000_0000 % LZ_DICT_SIZE == p % LZ_DICT_SIZE && p % 0x1_0000_0000 % 0x1_0000 == p % 0x1_0000
  {
    var a := p / 0x1_0000_0000;
    assert p == 0x1_0000_0000 * a + p % 0x1_0000_0000;
    FoldsSlot(p % 0x1_0000_0000, 0x2_0000 * a);
    FoldsHalf(p % 0x1_0000_0000, 0x1_0000 * a);
  }

  lemma FoldsSlot(x: nat, k: nat)
    ensures (x + LZ_DICT_SIZE * k) % LZ_DICT_SIZE == x % LZ_DICT_SIZE
  {
  }

  lemma FoldsHalf(x: nat, k: nat)
    ensures (x + 0x1_0000 * k) % 0x1_0000 == x % 0x1_0000
  {
  }
}
