// The compressor: the dictionary, the pending match, the code buffer and the stream put
// out so far, over any sequence of calls.

module LzCompressor {
  import opened Ints
  import opened LzSpec
  import opened LzMatch
  import opened LzChains
  import LzBuffer
  import opened Bits
  import opened Bitstream
  import DeflateStream
  import opened Adler

  const OUT_BUF_SIZE: nat := 85196

  datatype Flush = NoFlush | SyncFlush | FullFlush | Finish

  datatype Status = Okay | Done | BadParam | PutBufFailed

  datatype Flags = Flags(maxProbes: nat, maxProbesLong: nat, greedy: bool, rle: bool, filter: bool,
                         forceStatic: bool, forceRaw: bool, zlib: bool, computeAdler: bool,
                         nondeterministic: bool)

  // ----- What has been sent of the input -----

  // The blocks expand to the input before blockStart, and the tokens of the open block
  // take the expansion on to sent.
  ghost predicate Sent(input: seq<byte>, blocks: seq<Block>, blockStart: nat, tokens: seq<Token>, sent: nat) {
    blockStart <= sent <= |input| && ExpandBlocks(blocks) == Text(input[..blockStart]) &&
    Expand(Text(input[..blockStart]), tokens) == Text(input[..sent])
  }

  lemma SentAtStart()
    ensures Sent([], [], 0, [], 0) && Saved([], 0, 0, 0, 0) && TotalLength([]) == 0 && AllStored([]) && Checksum(1, []) == 1
  {
  }

  lemma HoldsNothing(dict: array<byte>)
    requires dict.Length == DICT_LENGTH
    ensures Holds(dict, [])
  {
  }

  lemma SentLength(input: seq<byte>, blocks: seq<Block>, blockStart: nat, tokens: seq<Token>, sent: nat)
    requires Sent(input, blocks, blockStart, tokens, sent)
    ensures sent == blockStart + TotalLength(tokens)
  {
    ExpandLength(Text(input[..blockStart]), tokens);
  }

  lemma SentLiteral(input: seq<byte>, blocks: seq<Block>, blockStart: nat, tokens: seq<Token>, sent: nat, b: byte)
    requires Sent(input, blocks, blockStart, tokens, sent) && sent < |input| && b == input[sent]
    ensures Sent(input, blocks, blockStart, tokens + [Literal(b)], sent + 1)
  {
    ExpandMore(Text(input[..blockStart]), tokens, Literal(b));
    assert input[..sent] + [b] == input[..sent + 1];
  }

  lemma SentMatch(input: seq<byte>, blocks: seq<Block>, blockStart: nat, tokens: seq<Token>, sent: nat, len: nat, dist: nat)
    requires Sent(input, blocks, blockStart, tokens, sent) && TrueMatch(input, sent, len, dist)
    ensures Sent(input, blocks, blockStart, tokens + [Match(len, dist)], sent + len)
  {
    ExpandMore(Text(input[..blockStart]), tokens, Match(len, dist));
    CopyIsText(input, sent, len, dist);
  }

  lemma SentCoded(input: seq<byte>, blocks: seq<Block>, blockStart: nat, tokens: seq<Token>, sent: nat)
    requires Sent(input, blocks, blockStart, tokens, sent)
    ensures Sent(input, blocks + [Coded(tokens)], sent, [], sent)
  {
    BlocksMore(blocks, Coded(tokens));
  }

  lemma SentStored(input: seq<byte>, blocks: seq<Block>, blockStart: nat, tokens: seq<Token>, sent: nat)
    requires Sent(input, blocks, blockStart, tokens, sent)
    ensures Sent(input, blocks + [Stored(input[blockStart..sent])], sent, [], sent)
  {
    BlocksMore(blocks, Stored(input[blockStart..sent]));
    assert input[..blockStart] + input[blockStart..sent] == input[..sent];
  }

  lemma SentNothing(input: seq<byte>, blocks: seq<Block>, sent: nat)
    requires Sent(input, blocks, sent, [], sent)
    ensures Sent(input, blocks + [Stored([])], sent, [], sent)
  {
    BlocksMore(blocks, Stored([]));
    assert input[..sent] + [] == input[..sent];
  }

  lemma SentOfMore(input: seq<byte>, more: seq<byte>, blocks: seq<Block>, blockStart: nat, tokens: seq<Token>, sent: nat)
    requires Sent(input, blocks, blockStart, tokens, sent)
    ensures Sent(input + more, blocks, blockStart, tokens, sent)
  {
    assert (input + more)[..blockStart] == input[..blockStart] && (input + more)[..sent] == input[..sent];
  }

  // ----- The pending match -----

  // Either nothing is held back, or a short true match one byte before pos.
  ghost predicate Saved(input: seq<byte>, pos: nat, lit: byte, len: nat, dist: nat) {
    len != 0 ==> MIN_MATCH_LEN <= len < 128 && 1 <= pos && pos - 1 + len <= |input| && dist <= LZ_DICT_SIZE &&
                 TrueMatch(input, pos - 1, len, dist) && lit == input[pos - 1]
  }

  lemma SavedOfMore(input: seq<byte>, more: seq<byte>, pos: nat, lit: byte, len: nat, dist: nat)
    requires Saved(input, pos, lit, len, dist)
    ensures Saved(input + more, pos, lit, len, dist)
  {
    if len != 0 {
      MatchOfMore(input, more, pos - 1, len, dist);
    }
  }

  lemma MatchOfMore(text: seq<byte>, more: seq<byte>, p: nat, len: nat, dist: nat)
    requires TrueMatch(text, p, len, dist)
    ensures TrueMatch(text + more, p, len, dist)
  {
    forall j | p <= j < p + len
      ensures SameAs(text + more, j, dist)
    {
      assert SameAs(text, j, dist);
    }
  }

  // A match as far as the tokens can say it, at pos.
  ghost predicate Usable(input: seq<byte>, pos: nat, len: nat, dist: nat) {
    MIN_MATCH_LEN <= len <= MAX_MATCH_LEN && dist <= LZ_DICT_SIZE && TrueMatch(input, pos, len, dist)
  }

  predicate AllStored(blocks: seq<Block>) {
    forall k :: 0 <= k < |blocks| ==> blocks[k].Stored?
  }

  lemma OneMore(blocks: seq<Block>, b: Block)
    ensures AllStored(blocks) && b.Stored? ==> AllStored(blocks + [b])
  {
  }

  lemma {:induction false} TotalBound(ts: seq<Token>)
    requires LzBuffer.AllOk(ts)
    ensures TotalLength(ts) <= MAX_MATCH_LEN * |ts|
  {
    if ts != [] {
      TotalBound(ts[..|ts| - 1]);
    }
  }

  lemma NextSlot(p: nat)
    ensures (p % LZ_DICT_SIZE + 1) % LZ_DICT_SIZE == (p + 1) % LZ_DICT_SIZE
  {
  }

  lemma WrappedSum(p: nat, k: nat)
    ensures (p % TWO32 + k) % LZ_DICT_SIZE == (p + k) % LZ_DICT_SIZE
  {
    Wraps(p + k, p % TWO32 + k, 0x2_0000 * (p / TWO32));
  }

  // Two wrapped positions are as far apart as the true ones.
  lemma WrappedDistance(a: nat, b: nat)
    requires b <= a < b + TWO32
    ensures (a % TWO32 - b % TWO32) % TWO32 == a - b
  {
    var qa, qb := a / TWO32, b / TWO32;
    assert a % TWO32 - b % TWO32 == a - b - TWO32 * (qa - qb);
    assert qa == qb || qa == qb + 1;
  }

  lemma WrappedMove(p: nat, k: nat)
    ensures (p % TWO32 + k) % TWO32 == (p + k) % TWO32
  {
  }

  function Min(a: nat, b: nat): nat {
    if a <= b then a else b
  }

  function Max(a: nat, b: nat): nat {
    if a <= b then b else a
  }

  lemma SavedShort(input: seq<byte>, pos: nat, lit: byte, len: nat, dist: nat)
    requires Saved(input, pos, lit, len, dist)
    ensures len < 128
    ensures len != 0 ==> pos >= 1 && len <= |input| - pos + 1 && lit == input[pos - 1] && Usable(input, pos - 1, len, dist)
  {
  }

  lemma WrappedBack(p: nat)
    requires p >= 1
    ensures (p % LZ_DICT_SIZE + LZ_DICT_SIZE - 1) % LZ_DICT_SIZE == (p - 1) % LZ_DICT_SIZE
  {
  }

  lemma WrappedTwo(p: nat, k: nat)
    requires p + k >= 2
    ensures (p % TWO32 + k - 2) % TWO32 == (p + k - 2) % TWO32
  {
  }

  lemma WrappedThree(p: nat, k: nat)
    requires p + k >= 3
    ensures (p % TWO32 + k - 3) % TWO32 == (p + k - 3) % TWO32
  {
  }

  lemma NothingEntered(c: Chains, s: seq<byte>, p: nat)
    requires Sized(c) && p + 2 <= |s|
    ensures Entered(c, s, p, p) == c
  {
  }

  // One more byte s ends with, and one more place entered.
  lemma OneEntered(c: Chains, s: seq<byte>, start: nat, end: nat, b: byte)
    requires Sized(c) && start < end && |s| == end + 2 && s[end + 1] == b
    ensures HashAt(s, end - 1) == Hash(s[end - 1], s[end], b) as nat
    ensures Entered(c, s, start, end) == Linked(Entered(c, s[..end + 1], start, end - 1), end - 1, HashAt(s, end - 1))
  {
    assert s == s[..end + 1] + [b];
    EnteredMore(c, s[..end + 1], [b], start, end - 1);
  }

  // The last two bytes of the text in the ring.
  lemma LastTwo(dict: array<byte>, text: seq<byte>, insPos: nat)
    requires dict.Length == DICT_LENGTH && Holds(dict, text) && |text| >= 2 && insPos == (|text| - 2) % TWO32
    ensures dict[insPos % LZ_DICT_SIZE] == text[|text| - 2] && dict[(insPos + 1) % LZ_DICT_SIZE] == text[|text| - 1]
  {
    SameSlot(|text| - 2);
    NextSlot(insPos);
    NextSlot(|text| - 2);
    assert Slot(dict, text, |text| - 2) && Slot(dict, text, |text| - 1);
  }

  lemma LastThree(dict: array<byte>, text: seq<byte>, insPos: nat)
    requires dict.Length == DICT_LENGTH && Holds(dict, text) && |text| >= 3 && insPos == (|text| - 3) % TWO32
    ensures dict[insPos % LZ_DICT_SIZE] == text[|text| - 3] && dict[(insPos + 1) % LZ_DICT_SIZE] == text[|text| - 2]
  {
    SameSlot(|text| - 3);
    NextSlot(insPos);
    NextSlot(|text| - 3);
    assert Slot(dict, text, |text| - 3) && Slot(dict, text, |text| - 2);
  }

  // A null pointer with bytes or room behind it.
  predicate NullGiven(src: seq<byte>, inNull: bool, hasOut: bool, outNull: bool, room: nat) {
    (|src| != 0 && inNull) || (hasOut && room != 0 && outNull)
  }

  // The caller's function for output answers by how often it was called before and the bytes.
  type Callback = (nat, seq<byte>) -> bool

  predicate Refuses(accepts: Callback, puts: seq<seq<byte>>, k: nat)
    requires k < |puts|
  {
    !accepts(k, puts[k])
  }

  ghost predicate Refused(accepts: Callback, puts: seq<seq<byte>>) {
    exists k: nat :: k < |puts| && Refuses(accepts, puts, k)
  }

  // The bytes that it took.
  function TakenBy(accepts: Callback, puts: seq<seq<byte>>): seq<byte> {
    if puts == [] then []
    else
      var k := |puts| - 1;
      TakenBy(accepts, puts[..k]) + if Refuses(accepts, puts, k) then [] else puts[k]
  }

  lemma OneMorePut(accepts: Callback, puts: seq<seq<byte>>, bytes: seq<byte>)
    ensures TakenBy(accepts, puts + [bytes]) == TakenBy(accepts, puts) + if accepts(|puts|, bytes) then bytes else []
    ensures Refused(accepts, puts + [bytes]) <==> Refused(accepts, puts) || !accepts(|puts|, bytes)
  {
    var all := puts + [bytes];
    assert all[..|puts|] == puts && (Refuses(accepts, all, |puts|) <==> !accepts(|puts|, bytes));
    OneMoreRefused(accepts, puts, bytes);
  }

  lemma OneMoreRefused(accepts: Callback, puts: seq<seq<byte>>, bytes: seq<byte>)
    ensures Refused(accepts, puts + [bytes]) <==> Refused(accepts, puts) || Refuses(accepts, puts + [bytes], |puts|)
  {
    var all := puts + [bytes];
    assert forall k: nat :: k < |puts| ==> (Refuses(accepts, all, k) <==> Refuses(accepts, puts, k));
    hide Refuses;
    if Refused(accepts, puts) {
      var k: nat :| k < |puts| && Refuses(accepts, puts, k);
      assert Refuses(accepts, all, k);
    }
  }

  class Compressor {
    const flags: Flags
    const hasPut: bool              // m_pPut_buf_func set
    const accepts: Callback         // what it answers
    const lz: LzBuffer.Buffer       // m_lz_code_buf with its pointers
    const dict: array<byte>
    const next: array<u16>
    const hash: array<u16>
    var laPos: nat                  // m_lookahead_pos, 32 bits
    var laSize: nat                 // m_lookahead_size
    var dictSize: nat
    var dictPos: nat                // m_lz_code_buf_dict_pos, 32 bits
    var totalLz: nat                // m_total_lz_bytes
    var savedLit: byte
    var savedLen: nat
    var savedDist: nat
    const w: Writer                 // m_bit_buffer, m_bits_in and every byte of blocks put out
    var head: seq<byte>             // the zlib header before and the checksum behind them
    var tail: seq<byte>
    var blockIndex: nat             // m_block_index
    var adler: u32
    var delivered: seq<byte>        // the bytes that the caller has
    var outRoom: nat                // *m_pOut_buf_size - m_out_buf_ofs
    var outRemaining: nat           // m_output_flush_remaining
    var wantsToFinish: bool
    var finished: bool
    var prevStatus: Status
    var calls: nat                  // how often the callback was called
    ghost var puts: seq<seq<byte>>  // and with what
    ghost var input: seq<byte>      // every byte taken from the caller so far
    ghost var blocks: seq<Block>    // every block sent so far
    ghost var blockStart: nat
    ghost var sent: seq<DeflateStream.Sent>
    ghost var ended: bool           // the last block went out

    // The true position of the first lookahead byte.
    ghost function Pos(): int
      reads this`input, this`laSize
    {
      |input| - laSize
    }

    // How much of the input the tokens cover: all but the lookahead and a held-back byte.
    ghost function SentTo(): int
      reads this`input, this`laSize, this`savedLen
    {
      Pos() - if savedLen == 0 then 0 else 1
    }

    ghost predicate Arrays() {
      dict.Length == DICT_LENGTH && next.Length == LZ_DICT_SIZE && hash.Length == LZ_HASH_SIZE && lz.buf.Length == LzBuffer.LZ_CODE_BUF_SIZE &&
      (dict as object) != next && (dict as object) != hash && (dict as object) != lz.buf && (next as object) != hash &&
      (lz.buf as object) != next && (lz.buf as object) != hash
    }

    ghost predicate Shape()
      reads lz, lz.buf
    {
      Arrays() && flags.maxProbes >= 1 && flags.maxProbesLong >= 1 && lz.Valid() && |lz.tokens| < lz.pCode
    }

    ghost predicate Window()
      reads this`laPos, this`laSize, this`dictSize, this`input, dict
    {
      dict.Length == DICT_LENGTH && Holds(dict, input) && laSize <= MAX_MATCH_LEN && Pos() >= 0 && laPos == Pos() % TWO32 &&
      dictSize <= Pos() && dictSize + laSize <= LZ_DICT_SIZE
    }

    ghost predicate Queue()
      reads this`laSize, this`input, this`savedLit, this`savedLen, this`savedDist, this`dictPos, this`totalLz, this`blocks, this`blockStart, lz`tokens
    {
      Pos() >= 0 && SentTo() >= 0 &&
      Saved(input, Pos(), savedLit, savedLen, savedDist) && Sent(input, blocks, blockStart, lz.tokens, SentTo()) &&
      dictPos == blockStart % TWO32 && totalLz == TotalLength(lz.tokens)
    }

    // With raw blocks forced, all that is not yet sent can still be read from the ring.
    ghost predicate Raw()
      reads this`blocks, this`savedLen, this`totalLz, this`dictSize
    {
      flags.forceRaw ==> AllStored(blocks) && savedLen == 0 && totalLz <= dictSize
    }

    // The bytes put out are a stream of the blocks.
    ghost predicate Written()
      reads this`blocks, this`sent, this`ended, w
    {
      w.Valid() && blocks == DeflateStream.BlocksOf(sent) &&
      if ended then w.bitsIn == 0 && DeflateStream.Ended(w.Stream(), sent) else DeflateStream.Open(w.Stream(), sent)
    }

    // Every byte put out.
    function Out(): seq<byte>
      reads this`head, this`tail, w
    {
      head + w.out + tail
    }

    // The header is put before the first block, the checksum behind the last.
    ghost predicate Framed()
      reads this`head, this`tail, this`blockIndex, this`adler, this`ended, w
    {
      head == (if flags.zlib && blockIndex > 0 then ZLIB_HEADER else []) && tail == (if flags.zlib && ended then BigEndian(adler) else []) &&
      (blockIndex == 0 ==> w.out == [] && !ended)
    }

    // The checksum is that of the whole input.
    ghost predicate Summed()
      reads this`adler, this`input, this`prevStatus
    {
      (flags.zlib || flags.computeAdler) && (prevStatus == Okay || prevStatus == Done) ==> adler == Checksum(1, input)
    }

    // A call failed exactly if the callback refused its bytes, and with a callback the caller
    // has exactly the bytes that it took.
    ghost predicate Answered(st: Status)
      reads this`delivered, this`calls, this`puts
    {
      |puts| == calls &&
      if hasPut then delivered == TakenBy(accepts, puts) && (st == PutBufFailed ==> Refused(accepts, puts)) && (st == Okay || st == Done ==> !Refused(accepts, puts))
      else puts == []
    }

    // The caller has all bytes, but for those that wait for room.
    ghost predicate Handed()
      reads this`delivered, this`outRemaining, this`prevStatus, this`head, this`tail, w
    {
      prevStatus == Okay || prevStatus == Done ==> outRemaining <= |Out()| && delivered == Out()[..|Out()| - outRemaining] && (hasPut ==> outRemaining == 0)
    }

    // All but the state of a call and what the caller has.
    ghost predicate Inner()
      reads this`laPos, this`laSize, this`dictSize, this`input, this`savedLit, this`savedLen, this`savedDist, this`dictPos, this`totalLz, this`blocks,
            this`blockStart, this`sent, this`ended, this`head, this`tail, this`blockIndex, this`adler, lz, lz.buf, dict, w
    {
      Shape() && Window() && Queue() && Raw() && Written() && Framed() &&
      lz.pCode <= LzBuffer.LZ_CODE_BUF_SIZE - 8 && (flags.forceRaw ==> totalLz <= 31 * 1024)
    }

    ghost predicate Valid()
      reads this`laPos, this`laSize, this`dictSize, this`input, this`savedLit, this`savedLen, this`savedDist, this`dictPos, this`totalLz, this`blocks,
            this`blockStart, this`sent, this`ended, this`head, this`tail, this`blockIndex, this`adler, this`delivered, this`outRemaining, this`prevStatus,
            this`calls, this`puts, this`finished, lz, lz.buf, dict, w
    {
      Inner() && Handed() && Answered(prevStatus) && (finished ==> ended && laSize == 0 && lz.tokens == []) && (prevStatus == Okay && !finished ==> !ended)
    }

    // tdefl_init: the chains keep whatever the memory held, and with the flag for it so do
    // dictionary and hash.
    constructor (flags: Flags, hasPut: bool, accepts: Callback)
      requires flags.maxProbes >= 1 && flags.maxProbesLong >= 1
      ensures Valid() && Summed() && input == [] && delivered == [] && prevStatus == Okay && !finished && outRemaining == 0
      ensures this.flags == flags && this.hasPut == hasPut && this.accepts == accepts && puts == [] && fresh(lz) && fresh(lz.buf) && fresh(dict) && fresh(next) && fresh(hash) && fresh(w)
    {
      hide Inner, LzBuffer.Buffer.Valid, Writer.Valid, Writer.Stream, Checksum;
      SentAtStart();
      this.flags, this.hasPut, this.accepts, calls, puts := flags, hasPut, accepts, 0, [];
      lz := new LzBuffer.Buffer();
      next := new u16[LZ_DICT_SIZE];
      if flags.nondeterministic {
        dict, hash := new byte[DICT_LENGTH], new u16[LZ_HASH_SIZE];
      } else {
        dict, hash := new byte[DICT_LENGTH](_ => 0), new u16[LZ_HASH_SIZE](_ => 0);
      }
      laPos, laSize, dictSize, dictPos, totalLz := 0, 0, 0, 0, 0;
      savedLit, savedLen, savedDist := 0, 0, 0;
      outRoom, outRemaining, wantsToFinish, finished, prevStatus := 0, 0, false, false, Okay;
      input, blocks, blockStart := [], [], 0;
      w := new Writer();
      delivered, sent, ended := [], [], false;
      head, tail, blockIndex, adler := [], [], 0, 1;
      new;
      InnerAtStart();
    }

    lemma InnerAtStart()
      requires Arrays() && flags.maxProbes >= 1 && flags.maxProbesLong >= 1 && lz.Valid() && lz.tokens == [] && lz.pCode == 1
      requires w.Valid() && w.Stream() == [] && w.out == [] && input == [] && blocks == [] && blockStart == 0 && sent == [] && !ended
      requires laPos == 0 && laSize == 0 && dictSize == 0 && dictPos == 0 && totalLz == 0 && savedLit == 0 && savedLen == 0 && savedDist == 0
      requires head == [] && tail == [] && blockIndex == 0
      ensures Inner()
    {
      hide LzBuffer.Buffer.Valid, Sent, Saved, TotalLength, Holds, DeflateStream.Open, DeflateStream.Ended, DeflateStream.BlocksOf, Writer.Valid,
           Writer.Stream, AllStored;
      SentAtStart();
      DeflateStream.OpenAtStart();
      HoldsNothing(dict);
    }

    // The chains as they are.
    ghost function Entries(): Chains
      reads next, hash
    {
      Chains(next[..], hash[..])
    }

    lemma EntriesSized()
      requires Arrays()
      ensures Sized(Entries())
    {
    }

    // Enter the three bytes at insPos into the chain of their hash.
    method Insert(insPos: nat, h: nat, ghost p: nat)
      requires Arrays() && insPos == p % TWO32 && h < LZ_HASH_SIZE
      modifies next, hash
      ensures Entries() == Linked(old(Entries()), p, h)
    {
      SameSlot(p);
      next[insPos % LZ_DICT_SIZE] := hash[h];
      hash[h] := insPos % 0x1_0000;
    }

    // The loop that takes bytes in when earlier ones allow every new one to be hashed.
    method TakeHashed(src: seq<byte>, from: nat, count: nat)
      requires Arrays() && Holds(dict, input) && laPos == (|input| - laSize) % TWO32 && laSize + count <= MAX_MATCH_LEN
      requires 2 <= |input| && laSize <= |input| && from + count <= |src|
      modifies this`laSize, this`input, dict, next, hash
      ensures Holds(dict, input) && input == old(input) + src[from..from + count] && laSize == old(laSize) + count
      ensures Entries() == Entered(old(Entries()), input, |old(input)| - 2, |input| - 2)
    {
      hide Holds, HashStep, Entered, Hash, Entries, HashAt, Linked;
      EntriesSized();
      WrappedSum(|input| - laSize, laSize);
      var dst: nat, insPos: nat := (laPos + laSize) % LZ_DICT_SIZE, (laPos + laSize - 2) % TWO32;
      WrappedTwo(|input| - laSize, laSize);
      var h := HashStep(HashStep(0, dict[insPos % LZ_DICT_SIZE]), dict[(insPos + 1) % LZ_DICT_SIZE]);
      LastTwo(dict, input, insPos);
      ghost var before, c0, x: bv15 := input, Entries(), 0;
      NothingEntered(c0, input, |input| - 2);
      laSize := laSize + count;
      for at := from to from + count
        invariant dst == |input| % LZ_DICT_SIZE && laSize == old(laSize) + count
        invariant input == before + src[from..at] && Holds(dict, input)
        invariant insPos == (|input| - 2) % TWO32 && h == HashStep(HashStep(x, input[|input| - 2]), input[|input| - 1])
        invariant Entries() == Entered(c0, input, |before| - 2, |input| - 2)
      {
        var c := src[at];
        assert src[from..at + 1] == src[from..at] + [c];
        ghost var a := input[|input| - 2];
        h := TakeNext(dst, insPos, h, c, x, |before| - 2, c0);
        x := HashStep(x, a);
        NextSlot(|input| - 1);
        dst := (dst + 1) % LZ_DICT_SIZE;
        WrappedMove(|input| - 3, 1);
        insPos := (insPos + 1) % TWO32;
      }
    }

    // One byte, which is the last of the three at insPos.
    method TakeNext(dst: nat, insPos: nat, h: bv15, c: byte, ghost x: bv15, ghost start: nat, ghost c0: Chains) returns (h': bv15)
      requires Arrays() && Holds(dict, input) && dst == |input| % LZ_DICT_SIZE && 2 <= |input| && insPos == (|input| - 2) % TWO32
      requires h == HashStep(HashStep(x, input[|input| - 2]), input[|input| - 1])
      requires Sized(c0) && start <= |input| - 2 && Entries() == Entered(c0, input, start, |input| - 2)
      modifies this`input, dict, next, hash
      ensures input == old(input) + [c] && Holds(dict, input)
      ensures h' == HashStep(HashStep(HashStep(x, old(input[|input| - 2])), old(input[|input| - 1])), c)
      ensures Entries() == Entered(c0, input, start, |input| - 2)
    {
      hide Holds, HashStep, Entered, Hash, Entries, HashAt, Linked;
      ghost var before := input;
      TakeByte(dst, c);
      HashForgets(x, before[|before| - 2], before[|before| - 1], c);
      h' := HashStep(h, c);
      OneEntered(c0, input, start, |before| - 1, c);
      assert input[..|before|] == before;
      Insert(insPos, h' as nat, |before| - 2);
    }

    method TakeByte(dst: nat, c: byte)
      requires Arrays() && Holds(dict, input) && dst == |input| % LZ_DICT_SIZE
      modifies this`input, dict
      ensures input == old(input) + [c] && Holds(dict, input)
    {
      hide Holds;
      PutByte(dict, dst, c, input);
      input := input + [c];
    }

    // The loop that takes the first bytes of a stream, or after a full flush.
    method TakeFirst(src: seq<byte>, from: nat) returns (at: nat)
      requires Arrays() && Holds(dict, input) && laSize <= MAX_MATCH_LEN && from <= |src|
      requires laSize + dictSize <= |input| && laPos == (|input| - laSize) % TWO32 && laSize + dictSize < MIN_MATCH_LEN
      modifies this`laSize, this`input, dict, next, hash
      ensures from <= at <= |src| && laSize == old(laSize) + at - from == Min(MAX_MATCH_LEN, old(laSize) + |src| - from)
      ensures Holds(dict, input) && input == old(input) + src[from..at]
      ensures var start := |old(input)| - old(laSize) - dictSize;
              Entries() == if |input| <= start + 2 then old(Entries()) else Entered(old(Entries()), input, start, |input| - 2)
    {
      hide Holds, HashStep, Entered, Hash, Entries, HashAt, Linked;
      EntriesSized();
      at := from;
      ghost var before, pos, c0 := input, |input| - laSize, Entries();
      ghost var start := pos - dictSize;
      while at < |src| && laSize < MAX_MATCH_LEN
        invariant from <= at <= |src| && laSize == old(laSize) + at - from <= MAX_MATCH_LEN
        invariant input == before + src[from..at] && Holds(dict, input) && |input| == pos + laSize
        invariant Entries() == if |input| <= start + 2 then c0 else Entered(c0, input, start, |input| - 2)
      {
        var c := src[at];
        at := at + 1;
        var dst: nat := (laPos + laSize) % LZ_DICT_SIZE;
        WrappedSum(pos, laSize);
        assert src[from..at] == src[from..at - 1] + [c];
        laSize := laSize + 1;
        TakeByte(dst, c);
        if laSize + dictSize >= MIN_MATCH_LEN {
          EnterLast(c, pos, start, c0);
        }
      }
    }

    // The three bytes that end with a new one are entered.
    method EnterLast(c: byte, ghost pos: nat, ghost start: nat, ghost c0: Chains)
      requires Arrays() && Holds(dict, input) && 3 <= |input| == pos + laSize && laPos == pos % TWO32 && c == input[|input| - 1] && laSize >= 1
      requires start + 3 <= |input| && Sized(c0)
      requires Entries() == if |input| <= start + 3 then c0 else Entered(c0, input[..|input| - 1], start, |input| - 3)
      modifies next, hash
      ensures Entries() == Entered(c0, input, start, |input| - 2)
    {
      hide Holds, HashStep, Entered, Hash, Entries, HashAt, Linked;
      var insPos: nat := (laPos + laSize - 3) % TWO32;
      WrappedThree(pos, laSize);
      LastThree(dict, input, insPos);
      var h := HashStep(HashStep(HashStep(0, dict[insPos % LZ_DICT_SIZE]), dict[(insPos + 1) % LZ_DICT_SIZE]), c);
      HashForgets(0, input[|input| - 3], input[|input| - 2], c);
      assert input == input[..|input| - 1] + [c];
      NothingEntered(c0, input[..|input| - 1], start);
      OneEntered(c0, input, start, |input| - 2, c);
      Insert(insPos, h as nat, |input| - 3);
    }

    // As many bytes as there is room for, by one loop or the other.
    method TakeMore(src: seq<byte>, from: nat) returns (at: nat)
      requires Arrays() && Holds(dict, input) && laSize <= MAX_MATCH_LEN && from <= |src|
      requires laSize + dictSize <= |input| && laPos == (|input| - laSize) % TWO32
      modifies this`laSize, this`input, dict, next, hash
      ensures from <= at <= |src| && laSize == old(laSize) + at - from == Min(MAX_MATCH_LEN, old(laSize) + |src| - from)
      ensures Holds(dict, input) && input == old(input) + src[from..at]
      ensures var start := |old(input)| - Min(2, old(laSize) + dictSize);
              Entries() == if |input| <= start + 2 then old(Entries()) else Entered(old(Entries()), input, start, |input| - 2)
    {
      hide Holds, Entered, Entries;
      if laSize + dictSize >= MIN_MATCH_LEN - 1 {
        EntriesSized();
        NothingEntered(Entries(), input, |input| - 2);
        var count := Min(|src| - from, MAX_MATCH_LEN - laSize);
        ghost var before := input;
        TakeHashed(src, from, count);
        at := from + count;
        assert count == 0 ==> input == before;
      } else {
        at := TakeFirst(src, from);
      }
    }

    // The first part of the parsing loop: fill the lookahead and give up the part of the
    // dictionary that was overwritten.
    method Fill(src: seq<byte>, from: nat) returns (at: nat)
      requires Shape() && Window() && Queue() && Raw() && (flags.forceRaw ==> totalLz <= 31 * 1024) && from <= |src|
      modifies this`laSize, this`dictSize, this`input, dict, next, hash
      ensures Shape() && Window() && Queue() && Raw() && Pos() == old(Pos())
      ensures from <= at <= |src| && input == old(input) + src[from..at]
      ensures laSize == Min(MAX_MATCH_LEN, old(laSize) + |src| - from)
      ensures dictSize == Min(LZ_DICT_SIZE - laSize, old(dictSize))
      // every place enters its chain as soon as its three bytes are known
      ensures var start := |old(input)| - Min(2, old(laSize) + old(dictSize));
              Entries() == if |input| <= start + 2 then old(Entries()) else Entered(old(Entries()), input, start, |input| - 2)
    {
      hide Holds, Saved, Sent, LzBuffer.Buffer.Valid, Entered, Entries;
      ghost var before := input;
      at := TakeMore(src, from);
      dictSize := Min(LZ_DICT_SIZE - laSize, dictSize);
      SavedOfMore(before, src[from..at], Pos(), savedLit, savedLen, savedDist);
      SentOfMore(before, src[from..at], blocks, blockStart, lz.tokens, SentTo());
    }

    // A match to be used at the current position, or a length that will not be.
    ghost predicate Offer(dist: nat, len: nat)
      reads this`input, this`laSize, this`savedLen
    {
      laSize <= |input| &&
      (dist != 0 || len > Max(savedLen, MIN_MATCH_LEN - 1) ==> len <= laSize && Usable(input, |input| - laSize, len, dist))
    }

    // The run of the byte before the current one.
    method RunLength(curPos: nat) returns (len: nat)
      requires Window() && 1 <= dictSize && curPos == Pos() % LZ_DICT_SIZE
      ensures len <= laSize && TrueMatch(input, Pos(), len, 1)
    {
      hide Holds;
      ghost var p := Pos();
      var c := dict[(curPos + LZ_DICT_SIZE - 1) % LZ_DICT_SIZE];
      WrappedBack(p);
      ReadOn(dict, input, p - 1, 0);
      len := 0;
      while len < laSize
        invariant len <= laSize && TrueMatch(input, p, len, 1)
        invariant c == input[p + len - 1]
      {
        ReadOn(dict, input, p, len);
        if dict[curPos + len] != c {
          break;
        }
        assert SameAs(input, p + len, 1);
        len := len + 1;
      }
    }

    // The second part of the loop: a match for the current position.
    method BestMatch() returns (dist: nat, len: nat)
      requires Shape() && Window() && Queue()
      ensures Offer(dist, len)
      ensures flags.forceRaw ==> dist == 0
    {
      hide Holds, Sent, LzBuffer.Buffer.Valid, TrueMatch, NoLonger;
      dist := 0;
      len := if savedLen != 0 then savedLen else MIN_MATCH_LEN - 1;
      assert len < 128 by { SavedShort(input, Pos(), savedLit, savedLen, savedDist); }
      var curPos: nat := laPos % LZ_DICT_SIZE;
      WrappedSlot(Pos());
      if flags.rle || flags.forceRaw {
        if dictSize != 0 && !flags.forceRaw {
          len := RunLength(curPos);
          if len < MIN_MATCH_LEN {
            len := 0;
          } else {
            dist := 1;
          }
        }
      } else {
        var probes := if len >= 32 then flags.maxProbesLong else flags.maxProbes;
        dist, len := FindMatch(dict, next, probes, laPos, dictSize, laSize, dist, len, input, Pos());
      }
      if (len == MIN_MATCH_LEN && dist >= 8 * 1024) || curPos == dist || (flags.filter && len <= 5) {
        dist, len := 0, 0;
      }
    }

    // The lazy parsing decision: which tokens are recorded, what is held back, and how
    // far the lookahead moves on.
    method Decide(dist: nat, len: nat) returns (move: nat)
      requires Shape() && Window() && Queue() && Offer(dist, len) && laSize >= 1 && lz.pCode <= LzBuffer.LZ_CODE_BUF_SIZE - 8
      modifies this`totalLz, this`savedLit, this`savedLen, this`savedDist, lz, lz.buf
      ensures Shape() && 1 <= move <= laSize && totalLz == TotalLength(lz.tokens)
      ensures Saved(input, Pos() + move, savedLit, savedLen, savedDist)
      ensures Sent(input, blocks, blockStart, lz.tokens, Pos() + move - if savedLen == 0 then 0 else 1)
      // a held-back match is sent unless the current one is longer
      ensures old(savedLen) != 0 && len <= old(savedLen) ==> savedLen == 0 && lz.tokens == old(lz.tokens) + [Match(old(savedLen), old(savedDist))]
      ensures old(savedLen) != 0 && len > old(savedLen) ==>
                lz.tokens == old(lz.tokens) + [Literal(old(savedLit))] + (if len >= 128 then [Match(len, dist)] else [])
      // a match is sent at once when it is long or parsing is greedy
      ensures old(savedLen) == 0 && dist != 0 ==>
                lz.tokens == old(lz.tokens) + (if flags.greedy || flags.rle || len >= 128 then [Match(len, dist)] else [])
      ensures old(savedLen) == 0 && dist == 0 ==> move == 1 && savedLen == 0 && totalLz == old(totalLz) + 1
    {
      hide Holds, Sent, LzBuffer.Buffer.Valid, TrueMatch;
      ghost var p, sent := Pos(), SentTo();
      var curPos: nat := laPos % LZ_DICT_SIZE;
      WrappedSlot(p);
      ReadOn(dict, input, p, 0);
      move := 1;
      if savedLen != 0 {
        SavedShort(input, p, savedLit, savedLen, savedDist);
        if len > savedLen {
          RecordLiteral(savedLit, sent);
          if len >= 128 {
            RecordMatch(len, dist, p);
            savedLen := 0;
            move := len;
          } else {
            savedLit, savedDist, savedLen := dict[curPos], dist, len;
          }
        } else {
          RecordMatch(savedLen, savedDist, sent);
          move := savedLen - 1;
          savedLen := 0;
        }
      } else if dist == 0 {
        RecordLiteral(dict[curPos], p);
      } else if flags.greedy || flags.rle || len >= 128 {
        RecordMatch(len, dist, p);
        move := len;
      } else {
        savedLit, savedDist, savedLen := dict[curPos], dist, len;
      }
    }

    // tdefl_record_literal
    method RecordLiteral(lit: byte, ghost sent: nat)
      requires Shape() && lz.pCode + 1 < LzBuffer.LZ_CODE_BUF_SIZE && totalLz == TotalLength(lz.tokens)
      requires Sent(input, blocks, blockStart, lz.tokens, sent) && sent < |input| && lit == input[sent]
      modifies this`totalLz, lz, lz.buf
      ensures Shape() && lz.tokens == old(lz.tokens) + [Literal(lit)] && lz.pCode <= old(lz.pCode) + 2
      ensures totalLz == old(totalLz) + 1 == TotalLength(lz.tokens)
      ensures Sent(input, blocks, blockStart, lz.tokens, sent + 1)
    {
      hide Sent, LzBuffer.Buffer.Valid;
      SentLiteral(input, blocks, blockStart, lz.tokens, sent, lit);
      ExpandMore(Text([]), lz.tokens, Literal(lit));
      lz.RecordLiteral(lit);
      totalLz := totalLz + 1;
    }

    // tdefl_record_match
    method RecordMatch(len: nat, dist: nat, ghost sent: nat)
      requires Shape() && lz.pCode + 3 < LzBuffer.LZ_CODE_BUF_SIZE && totalLz == TotalLength(lz.tokens)
      requires Sent(input, blocks, blockStart, lz.tokens, sent) && Usable(input, sent, len, dist)
      modifies this`totalLz, lz, lz.buf
      ensures Shape() && lz.tokens == old(lz.tokens) + [Match(len, dist)] && lz.pCode <= old(lz.pCode) + 4
      ensures totalLz == old(totalLz) + len == TotalLength(lz.tokens)
      ensures Sent(input, blocks, blockStart, lz.tokens, sent + len)
    {
      hide Sent, LzBuffer.Buffer.Valid;
      SentMatch(input, blocks, blockStart, lz.tokens, sent, len, dist);
      ExpandMore(Text([]), lz.tokens, Match(len, dist));
      lz.RecordMatch(len, dist);
      totalLz := totalLz + len;
    }

    // The bytes of a stored block, read back out of the ring.
    method ReadStored() returns (bytes: seq<byte>)
      requires Window() && Queue() && Pos() - blockStart <= dictSize
      ensures bytes == input[blockStart..SentTo()]
    {
      hide Holds, Saved, Sent;
      bytes := [];
      SentLength(input, blocks, blockStart, lz.tokens, SentTo());
      for i := 0 to totalLz
        invariant bytes == input[blockStart..blockStart + i]
      {
        WrappedSum(blockStart, i);
        ReadOn(dict, input, blockStart + i, 0);
        bytes := bytes + [dict[(dictPos + i) % LZ_DICT_SIZE]];
      }
    }

    // The open block is short enough for its distance to survive the wrapping.
    lemma BlockShort()
      requires Shape() && Window() && Queue()
      ensures (laPos - dictPos) % TWO32 == Pos() - blockStart
    {
      hide Holds, Saved, Sent, TotalLength;
      SentLength(input, blocks, blockStart, lz.tokens, SentTo());
      TotalBound(lz.tokens);
      WrappedDistance(Pos(), blockStart);
    }

    ghost predicate ClosedBuffer()
      reads lz, lz.buf
    {
      lz.pCode <= lz.buf.Length == LzBuffer.LZ_CODE_BUF_SIZE && LzBuffer.AllOk(lz.tokens) && lz.buf[..lz.pCode] == LzBuffer.Packed(lz.tokens)
    }

    method CloseBuffer()
      requires Shape()
      modifies lz`pCode, lz.buf
      ensures ClosedBuffer()
    {
      hide LzBuffer.Buffer.Valid;
      lz.Close();
    }

    // The open block as coded tokens.
    method WriteCoded(isStatic: bool, ghost last: bool) returns (ghost s: DeflateStream.Sent)
      requires ClosedBuffer() && w.Valid()
      modifies w
      ensures w.Valid() && DeflateStream.FormFits(s) && s.block == Coded(lz.tokens) && s.last == last && !s.form.Raw?
      ensures w.Stream() == old(w.Stream()) + DeflateStream.BodyBits(s)
      ensures isStatic ==> |w.Stream()| <= |old(w.Stream())| + 8 * (OUT_BUF_SIZE - 24)
      ensures s.form.Fixed? == isStatic
    {
      hide LzBuffer.Packed, Writer.Valid, Writer.Stream, DeflateStream.FormFits, DeflateStream.BodyBits;
      LzBuffer.PackedIsLong(lz.tokens);
      s := DeflateStream.WriteCodedBlock(w, lz.buf, lz.pCode, isStatic, lz.tokens, last);
      if isStatic {
        DeflateStream.StaticBody(s);
      }
    }

    // The open block as stored bytes.
    method WriteRaw(ghost last: bool) returns (ghost s: DeflateStream.Sent)
      requires Window() && Queue() && Pos() - blockStart <= dictSize && w.Valid()
      modifies w
      ensures w.Valid() && DeflateStream.FormFits(s) && s.block == Stored(input[blockStart..SentTo()]) && s.last == last && s.form.Raw?
      ensures (|old(w.Stream())| + 2 + |s.form.fill|) % 8 == 0 && w.Stream() == old(w.Stream()) + DeflateStream.BodyBits(s)
      ensures |w.Stream()| <= |old(w.Stream())| + 8 * (OUT_BUF_SIZE - 24)
    {
      hide Holds, Saved, Sent, Writer.Valid, Writer.Stream, DeflateStream.StoredBits;
      SentLength(input, blocks, blockStart, lz.tokens, SentTo());
      var bytes := ReadStored();
      ghost var pad := DeflateStream.WriteStoredBlock(w, bytes);
      s := DeflateStream.Sent(Stored(bytes), DeflateStream.Raw(Lsb(0, pad)), last);
      DeflateStream.RawLength(s);
    }

    lemma BlockIs()
      requires Shape() && Window() && Queue() && Raw()
      ensures (laPos - dictPos) % TWO32 == Pos() - blockStart && (flags.forceRaw ==> Pos() - blockStart <= dictSize)
    {
      hide Holds, Saved, LzBuffer.Buffer.Valid, LzBuffer.Packed, Sent, AllStored;
      BlockShort();
      SentLength(input, blocks, blockStart, lz.tokens, SentTo());
    }

    // The bits of the open block: whether it is the last, then its tokens, unless they
    // take more room than the bytes they stand for and those are still in the ring.
    method WriteBlock(last: bool, limit: nat) returns (ghost s: DeflateStream.Sent)
      requires Shape() && Window() && Queue() && Raw() && w.Valid() && OUT_BUF_SIZE - 18 <= limit <= OUT_BUF_SIZE - 16
      modifies lz`pCode, lz.buf, w
      ensures w.Valid() && DeflateStream.FormFits(s) && s.last == last && DeflateStream.Aligned(s, |old(w.Stream())|)
      ensures w.Stream() == old(w.Stream()) + ([s.last] + DeflateStream.BodyBits(s))
      ensures s.block == Coded(lz.tokens) || s.block == Stored(input[blockStart..SentTo()])
      ensures flags.forceRaw ==> s.block.Stored?
      // bytes are stored only if they are still in the ring, and there are some or raw blocks are forced
      ensures s.form.Raw? ==> Pos() - blockStart <= dictSize && (flags.forceRaw || totalLz != 0)
      // if they could be, a coded block takes no more bytes than they are
      ensures !s.form.Raw? && totalLz != 0 && Pos() - blockStart <= dictSize ==> !flags.forceRaw && |w.out| <= |old(w.out)| + totalLz
      // short blocks have the fixed codes, others only if they are asked for or nothing else fits
      ensures s.form.Dynamic? ==> !flags.forceStatic && totalLz >= 48
      ensures s.form.Fixed? && Pos() - blockStart <= dictSize ==> flags.forceStatic || totalLz < 48 || totalLz >= limit
      // the output buffer is never full, so that no byte is dropped
      ensures |w.out| < |old(w.out)| + limit
    {
      hide Window, Queue, Raw, LzBuffer.Buffer.Valid, LzBuffer.Packed, Writer.Valid, Writer.Stream, DeflateStream.FormFits, DeflateStream.BodyBits, Lsb, Pow2, ClosedBuffer;
      BlockIs();
      var behind := (laPos - dictPos) % TWO32;
      var useRaw := flags.forceRaw && behind <= dictSize;
      CloseBuffer();
      var start := |w.out|;
      ghost var bits := w.Stream();
      DeflateStream.OutLength(w);
      PutLast(last);
      var bitBuffer, bitsIn, out := w.bitBuffer, w.bitsIn, w.out;
      ghost var marked := w.Stream();
      StreamIs(w);
      var succeeded := false;
      if !useRaw {
        s := WriteCoded(flags.forceStatic || totalLz < 48, last);
        succeeded := |w.out| < start + limit;
      }
      var end := Min(|w.out|, start + limit);
      if (useRaw || (totalLz != 0 && end + 1 >= totalLz + |out|)) && behind <= dictSize {
        w.Restore(bitBuffer, bitsIn, out);
        s := WriteRaw(last);
        FewBytes(w, |bits|, start);
      } else if !succeeded {
        w.Restore(bitBuffer, bitsIn, out);
        s := WriteCoded(true, last);
        FewBytes(w, |bits|, start);
      }
      InOrder(bits, [s.last], DeflateStream.BodyBits(s));
    }

    // The bit that marks the last block.
    method PutLast(last: bool)
      requires w.Valid()
      modifies w
      ensures w.Valid() && w.Stream() == old(w.Stream()) + [last] && |w.out| <= |old(w.out)| + 1
    {
      DeflateStream.OutLength(w);
      w.PutBits(if last then 1 else 0, 1);
      DeflateStream.OutLength(w);
    }

    // The block part of tdefl_flush_block: the open block is sent and a new one opened.
    method SendBlock(flush: Flush, limit: nat)
      requires Shape() && Window() && Queue() && Raw() && Written() && !ended && OUT_BUF_SIZE - 18 <= limit <= OUT_BUF_SIZE - 16
      modifies this`totalLz, this`dictPos, this`blocks, this`blockStart, this`sent, this`ended, lz, lz.buf, w
      ensures Shape() && Window() && Queue() && Raw() && Written() && lz.tokens == [] && lz.pCode == 1 && totalLz == 0 && old(blocks) <= blocks && blocks != old(blocks)
      ensures ended == (flush == Finish) && (flush != NoFlush ==> w.bitsIn == 0)
      ensures old(w.out) <= w.out && |w.out| <= |old(w.out)| + limit + 6 && (flush == NoFlush ==> |w.out| < |old(w.out)| + limit)
    {
      hide Holds, Saved, LzBuffer.Buffer.Valid, Sent, AllStored, Writer.Valid, Writer.Stream, DeflateStream.Open, DeflateStream.Ended, DeflateStream.FormFits,
           DeflateStream.BodyBits, DeflateStream.Aligned;
      ghost var to, tokens := SentTo(), lz.tokens;
      SentLength(input, blocks, blockStart, tokens, to);
      SentCoded(input, blocks, blockStart, tokens, to);
      SentStored(input, blocks, blockStart, tokens, to);
      SendStream(flush, limit);
      lz.Reset();
      WrappedMove(blockStart, totalLz);
      dictPos := (dictPos + totalLz) % TWO32;
      totalLz := 0;
      blockStart := to;
    }

    // The bits that a flush puts out.
    method SendStream(flush: Flush, limit: nat)
      requires Shape() && Window() && Queue() && Raw() && Written() && !ended && OUT_BUF_SIZE - 18 <= limit <= OUT_BUF_SIZE - 16
      modifies this`blocks, this`sent, this`ended, lz`pCode, lz.buf, w
      ensures Written() && Sent(input, blocks, SentTo(), [], SentTo()) && (flags.forceRaw ==> AllStored(blocks))
      ensures ended == (flush == Finish) && (flush != NoFlush ==> w.bitsIn == 0) && old(blocks) <= blocks && blocks != old(blocks)
      ensures old(w.out) <= w.out && |w.out| <= |old(w.out)| + limit + 6 && (flush == NoFlush ==> |w.out| < |old(w.out)| + limit)
    {
      hide Holds, Saved, LzBuffer.Buffer.Valid, Sent, AllStored, Writer.Valid, Writer.Stream, DeflateStream.Open, DeflateStream.Ended, DeflateStream.FormFits,
           DeflateStream.BodyBits, DeflateStream.Aligned;
      ghost var to, tokens := SentTo(), lz.tokens;
      SentLength(input, blocks, blockStart, tokens, to);
      SentCoded(input, blocks, blockStart, tokens, to);
      SentStored(input, blocks, blockStart, tokens, to);
      ghost var bits := w.Stream();
      StreamIs(w);
      ghost var a, x := w.out, Lsb(w.bitBuffer, w.bitsIn);
      ghost var s := WriteBlock(flush == Finish, limit);
      DeflateStream.OutGrows(a, x, w, [s.last] + DeflateStream.BodyBits(s));
      OneMore(blocks, s.block);
      DeflateStream.BlocksMore(sent, s);
      if flush == Finish {
        ghost var pad := EndStream();
        DeflateStream.EndsWith(bits, sent, s, pad);
        ended := true;
      } else {
        DeflateStream.StaysOpen(bits, sent, s);
      }
      blocks, sent := blocks + [s.block], sent + [s];
      if flush == SyncFlush || flush == FullFlush {
        SendEmpty();
      }
    }

    // The stream ends on a byte boundary.
    method EndStream() returns (ghost pad: nat)
      requires w.Valid()
      modifies w
      ensures w.Valid() && pad < 8 && w.bitsIn == 0 && w.Stream() == old(w.Stream()) + Lsb(0, pad) && old(w.out) <= w.out && |w.out| <= |old(w.out)| + 1
    {
      hide Writer.Valid, Writer.Stream, Lsb;
      StreamIs(w);
      DeflateStream.OutLength(w);
      ghost var a, x := w.out, Lsb(w.bitBuffer, w.bitsIn);
      pad := DeflateStream.PadToByte(w);
      DeflateStream.OutGrows(a, x, w, Lsb(0, pad));
      DeflateStream.PadLength(pad);
      DeflateStream.OutLength(w);
    }

    // The empty block behind a flush that does not end the stream.
    method SendEmpty()
      requires Written() && !ended && blockStart <= SentTo() && Sent(input, blocks, SentTo(), [], SentTo())
      modifies this`blocks, this`sent, w
      ensures Written() && Sent(input, blocks, SentTo(), [], SentTo()) && (AllStored(old(blocks)) ==> AllStored(blocks))
      ensures w.bitsIn == 0 && old(blocks) <= blocks && old(w.out) <= w.out && |w.out| <= |old(w.out)| + 6
    {
      hide Sent, AllStored, Writer.Valid, Writer.Stream, DeflateStream.Open, DeflateStream.Ended, DeflateStream.FormFits,
           DeflateStream.BodyBits, DeflateStream.Aligned;
      SentNothing(input, blocks, SentTo());
      ghost var bits := w.Stream();
      StreamIs(w);
      DeflateStream.OutLength(w);
      ghost var a, x := w.out, Lsb(w.bitBuffer, w.bitsIn);
      ghost var s := DeflateStream.WriteEmptyBlock(w);
      DeflateStream.OutGrows(a, x, w, [s.last] + DeflateStream.BodyBits(s));
      DeflateStream.OutLength(w);
      DeflateStream.StaysOpen(bits, sent, s);
      DeflateStream.BlocksMore(sent, s);
      OneMore(blocks, s.block);
      blocks, sent := blocks + [s.block], sent + [s];
    }

    // tdefl_flush_block: a negative result is a failed put, a positive one is output
    // that waits for room.
    method FlushBlock(flush: Flush) returns (n: int)
      requires Shape() && Window() && Queue() && Raw() && Written() && Framed() && Handed() && Answered(Okay) && !ended && prevStatus == Okay && outRemaining == 0
      modifies this`totalLz, this`dictPos, this`blocks, this`blockStart, this`sent, this`ended, this`delivered, this`outRoom, this`outRemaining,
               this`prevStatus, this`calls, this`puts, this`head, this`tail, this`blockIndex, lz, lz.buf, w
      ensures Inner() && Handed() && Answered(prevStatus)
      ensures lz.tokens == [] && lz.pCode == 1 && totalLz == 0 && old(blocks) <= blocks && blocks != old(blocks)
      ensures n < 0 ==> prevStatus == PutBufFailed && hasPut
      ensures n >= 0 ==> n == outRemaining && prevStatus == Okay
      ensures blockIndex > 0 && ended == (flush == Finish) && (flush != NoFlush ==> w.bitsIn == 0)
      ensures outRemaining > 0 ==> outRoom == 0
      ensures old(delivered) <= delivered && (!hasPut ==> |delivered| + outRoom == |old(delivered)| + old(outRoom))
      ensures old(puts) <= puts
    {
      hide Shape, Window, Queue, Raw, Written, Framed, Handed, Out, Answered;
      var direct := !hasPut && outRoom >= OUT_BUF_SIZE;
      var start := |Out()|;
      AllHanded();
      PutBlock(flush);
      n := HandOut(start, direct);
    }

    // The header, the block and the checksum.
    method PutBlock(flush: Flush)
      requires Shape() && Window() && Queue() && Raw() && Written() && Framed() && !ended
      modifies this`totalLz, this`dictPos, this`blocks, this`blockStart, this`sent, this`ended, this`head, this`tail, this`blockIndex, lz, lz.buf, w
      ensures Shape() && Window() && Queue() && Raw() && Written() && Framed()
      ensures lz.tokens == [] && lz.pCode == 1 && totalLz == 0 && old(blocks) <= blocks && blocks != old(blocks)
      ensures blockIndex > 0 && ended == (flush == Finish) && (flush != NoFlush ==> w.bitsIn == 0)
      ensures old(Out()) <= Out() && |Out()| <= |old(Out())| + OUT_BUF_SIZE
    {
      hide Shape, Window, Queue, Raw, Written, BigEndian;
      var limit := OUT_BUF_SIZE - 16;
      if flags.zlib && blockIndex == 0 {
        head := ZLIB_HEADER;
        limit := limit - 2;
      }
      SendBlock(flush, limit);
      if flush == Finish && flags.zlib {
        tail := BigEndian(adler);
      }
      blockIndex := blockIndex + 1;
    }

    // The caller's function is given bytes.
    method CallBack(bytes: seq<byte>) returns (accepted: bool)
      requires hasPut && Answered(Okay)
      modifies this`delivered, this`calls, this`puts
      ensures accepted == accepts(old(calls), bytes) && puts == old(puts) + [bytes] && delivered == old(delivered) + if accepted then bytes else []
      ensures Answered(if accepted then Okay else PutBufFailed)
    {
      hide TakenBy, Refused;
      OneMorePut(accepts, puts, bytes);
      accepted := accepts(calls, bytes);
      calls := calls + 1;
      puts := puts + [bytes];
      if accepted {
        delivered := delivered + bytes;
      }
    }

    lemma AnsweredMeans(st: Status)
      requires Answered(st)
      ensures |puts| == calls && Answered(BadParam)
      ensures hasPut ==> delivered == TakenBy(accepts, puts)
      ensures st == PutBufFailed && hasPut ==> Refused(accepts, puts)
      ensures st == Okay || st == Done ==> !Refused(accepts, puts) && Answered(Okay)
    {
      hide TakenBy;
    }

    lemma AnsweredStays(st: Status)
      requires Answered(st) && (st == Okay || st == Done)
      ensures Answered(Okay) && Answered(Done)
    {
      hide TakenBy, Refused;
    }

    lemma NotCalled(st: Status)
      requires !hasPut && Answered(st)
      ensures puts == [] && calls == 0
    {
    }

    lemma NoCallback(st: Status)
      requires !hasPut && puts == [] && calls == 0
      ensures Answered(st)
    {
    }

    // The end of tdefl_flush_block: what was put out since start goes to the caller.
    method HandOut(start: nat, direct: bool) returns (n: int)
      requires start <= |Out()| && delivered == Out()[..start] && prevStatus == Okay && outRemaining == 0 && Answered(Okay)
      requires !hasPut && |Out()| > start + outRoom ==> !direct
      requires direct ==> !hasPut
      modifies this`delivered, this`outRoom, this`outRemaining, this`prevStatus, this`calls, this`puts
      ensures Handed() && old(delivered) <= delivered && (!hasPut ==> |delivered| + outRoom == |old(delivered)| + old(outRoom))
      ensures Answered(prevStatus) && puts == old(puts) + if hasPut && |Out()| > start then [Out()[start..]] else []
      ensures n < 0 <==> hasPut && |Out()| > start && !accepts(old(calls), Out()[start..])
      ensures n < 0 ==> prevStatus == PutBufFailed && hasPut
      ensures n >= 0 ==> n == outRemaining && prevStatus == Okay
      ensures outRemaining > 0 ==> outRoom == 0
    {
      hide Answered, BigEndian;
      if !hasPut {
        NotCalled(Okay);
      }
      AnsweredMeans(Okay);
      var out := Out();
      var size := |out| - start;
      if size != 0 {
        if hasPut {
          var accepted := CallBack(out[start..]);
          if !accepted {
            prevStatus := PutBufFailed;
            return -1;
          }
        } else if !direct {
          var copied := Min(size, outRoom);
          delivered := delivered + out[start..start + copied];
          outRoom := outRoom - copied;
          if size != copied {
            outRemaining := size - copied;
          }
        } else {
          delivered := delivered + out[start..];
          outRoom := outRoom - size;
        }
      }
      if !hasPut {
        NoCallback(prevStatus);
      }
      return outRemaining;
    }

    // One turn of the parsing state machine.
    method ParseStep()
      requires Valid() && laSize >= 1
      modifies this`laPos, this`laSize, this`dictSize, this`savedLit, this`savedLen, this`savedDist, this`totalLz, lz, lz.buf
      ensures Shape() && Window() && Queue() && Raw() && laSize < old(laSize)
    {
      hide Written, Framed, Handed, Holds, Saved, LzBuffer.Buffer.Valid, Sent, AllStored;
      ghost var pos := Pos();
      var dist, len := BestMatch();
      var move := Decide(dist, len);
      laPos := (laPos + move) % TWO32;
      laSize := laSize - move;
      dictSize := Min(dictSize + move, LZ_DICT_SIZE);
      WrappedMove(pos, move);
    }

    // The rest of a turn: the block is sent when its buffer is full, or when it is large and
    // does not shrink.
    method ParseAndFlush() returns (n: int)
      requires Valid() && laSize >= 1 && outRemaining == 0 && !finished && prevStatus == Okay
      modifies this`laPos, this`laSize, this`dictSize, this`savedLit, this`savedLen, this`savedDist, this`totalLz,
               this`dictPos, this`blocks, this`blockStart, this`sent, this`ended, this`delivered, this`outRoom, this`outRemaining, this`prevStatus, this`calls, this`puts,
               this`head, this`tail, this`blockIndex, lz, lz.buf, w
      ensures Valid() && laSize < old(laSize) && old(blocks) <= blocks
      ensures n < 0 ==> prevStatus == PutBufFailed && hasPut
      ensures n >= 0 ==> n == outRemaining && prevStatus == Okay && !ended
      ensures outRemaining > 0 ==> outRoom == 0
      ensures old(delivered) <= delivered && (!hasPut ==> |delivered| + outRoom == |old(delivered)| + old(outRoom))
      ensures old(puts) <= puts
    {
      hide Shape, Window, Queue, Raw, Written, Framed, Handed, Answered;
      n := 0;
      ParseStep();
      if lz.pCode > LzBuffer.LZ_CODE_BUF_SIZE - 8 ||
         (totalLz > 31 * 1024 && ((lz.pCode * 115) / 128 >= totalLz || flags.forceRaw))
      {
        n := FlushBlock(NoFlush);
      }
    }

    // tdefl_compress_normal
    method CompressNormal(src: seq<byte>, flush: Flush) returns (ok: bool, at: nat)
      requires Valid() && outRemaining == 0 && !finished && prevStatus == Okay
      modifies this`laPos, this`laSize, this`dictSize, this`savedLit, this`savedLen, this`savedDist, this`input, this`totalLz,
               this`dictPos, this`blocks, this`blockStart, this`sent, this`ended, this`delivered, this`outRoom, this`outRemaining, this`prevStatus, this`calls, this`puts,
               this`head, this`tail, this`blockIndex, lz, lz.buf, dict, next, hash, w
      ensures Valid() && at <= |src| && input == old(input) + src[..at] && old(blocks) <= blocks
      ensures !ok ==> prevStatus == PutBufFailed && hasPut
      ensures ok ==> prevStatus == Okay && !ended && (outRemaining > 0 ==> outRoom == 0)
      ensures old(delivered) <= delivered && (!hasPut ==> |delivered| + outRoom == |old(delivered)| + old(outRoom))
      ensures old(puts) <= puts
      ensures ok && outRemaining == 0 ==> at == |src| && (flush != NoFlush ==> laSize == 0)
    {
      hide Shape, Window, Queue, Raw, Written, Framed, Handed, Answered;
      ok, at := true, 0;
      ghost var before := input;
      while at < |src| || (flush != NoFlush && laSize != 0)
        invariant Valid() && outRemaining == 0 && at <= |src| && input == before + src[..at] && old(blocks) <= blocks
        invariant prevStatus == Okay && !ended && old(delivered) <= delivered && old(puts) <= puts
        invariant !hasPut ==> |delivered| + outRoom == |old(delivered)| + old(outRoom)
        decreases |src| - at + laSize
      {
        var now := Fill(src, at);
        assert src[..at] + src[at..now] == src[..now];
        at := now;
        if flush == NoFlush && laSize < MAX_MATCH_LEN {
          break;
        }
        var n := ParseAndFlush();
        if n != 0 {
          return n >= 0, at;
        }
      }
    }

    // tdefl_flush_output_buffer
    method FlushOutput(hasOut: bool) returns (st: Status)
      requires Handed() && prevStatus == Okay && Answered(Okay) && hasOut == !hasPut
      modifies this`outRoom, this`outRemaining, this`delivered
      ensures Answered(st) && outRemaining == old(outRemaining) - if hasOut then Min(old(outRoom), old(outRemaining)) else 0
      ensures outRoom == old(outRoom) - if hasOut then Min(old(outRoom), old(outRemaining)) else 0
      ensures st == (if finished && outRemaining == 0 then Done else Okay)
      ensures old(outRoom) == 0 || !hasOut ==> outRemaining == old(outRemaining)
      ensures old(outRemaining) == 0 ==> outRemaining == 0
      ensures outRemaining <= |Out()| && delivered == Out()[..|Out()| - outRemaining] && (hasPut ==> outRemaining == 0)
      ensures old(delivered) <= delivered && |delivered| + outRoom == |old(delivered)| + old(outRoom)
    {
      hide Answered;
      AnsweredStays(Okay);
      if hasOut {
        NotCalled(Okay);
        var n := Min(outRoom, outRemaining);
        delivered := delivered + Out()[|delivered|..|delivered| + n];
        outRemaining := outRemaining - n;
        outRoom := outRoom - n;
        NoCallback(Okay);
        NoCallback(Done);
      }
      st := if finished && outRemaining == 0 then Done else Okay;
    }

    // tdefl_compress: take in src, and with a flush send everything taken in so far.
    method Compress(src: seq<byte>, inNull: bool, hasOut: bool, outNull: bool, room: nat, flush: Flush) returns (st: Status, consumed: nat)
      requires Valid() && Summed()
      modifies this, lz, lz.buf, dict, next, hash, w
      ensures Valid() && Summed() && consumed <= |src| && input == old(input) + src[..consumed]
      ensures st == prevStatus && (hasPut || st == Okay || st == Done || st == BadParam)
      // it fails exactly if the callback refuses, and with a callback the caller has what that took
      ensures st == PutBufFailed <==> Refused(accepts, puts) && !old(Refused(accepts, puts))
      ensures old(puts) <= puts && (hasPut ==> delivered == TakenBy(accepts, puts))
      // bad calls change nothing else
      ensures st == BadParam <==> hasPut == hasOut || old(prevStatus) != Okay || (old(wantsToFinish) && flush != Finish) ||
                                    (inNull && src != []) || (outNull && hasOut && room > 0)
      ensures st == BadParam ==> consumed == 0 && delivered == old(delivered)
      // no more goes out than there is room for, and nothing is taken back
      ensures old(delivered) <= delivered && (!hasPut ==> |delivered| <= |old(delivered)| + room)
      // output waits only when all the room is used
      ensures (st == Okay || st == Done) && outRemaining > 0 ==> !hasPut && |delivered| == |old(delivered)| + room
      // a flush that leaves no output waiting has sent the whole input: what the caller has
      // are whole blocks for it
      ensures flush != NoFlush && (st == Okay || st == Done) && old(outRemaining) == 0 && outRemaining == 0 && !old(finished) ==>
                consumed == |src| && Complete()
      ensures flush == NoFlush && st == Okay && old(outRemaining) == 0 && outRemaining == 0 ==> consumed == |src|
      // a finished stream is complete and stays as it is
      ensures st == Done ==> finished && ended && Complete() && DeflateStream.OneLast(sent)
      ensures finished && !old(finished) ==> flush == Finish && consumed == |src|
      ensures old(finished) ==> finished && consumed == 0
      // without a caller's buffer nothing waits
      ensures flush == Finish && hasPut && old(prevStatus) == Okay && !hasOut && (inNull ==> src == []) ==> st == Done || st == PutBufFailed
    {
      hide Inner, Framed, Handed, Answered, Complete, DeflateStream.OneLast, Checksum, Out, Shape, Window, Queue, Raw, Written, Carries, Refused, TakenBy, Valid, Summed;
      ValidAnswered();
      consumed := 0;
      outRoom := room;
      if hasPut == hasOut || prevStatus != Okay || (wantsToFinish && flush != Finish) || NullGiven(src, inNull, hasOut, outNull, room) {
        BadCall();
        return BadParam, 0;
      }
      wantsToFinish := wantsToFinish || flush == Finish;
      if outRemaining != 0 || finished {
        st := HandOn(hasOut);
        ValidAnswered();
        return st, 0;
      }
      st, consumed := TakeIn(src, hasOut, flush);
      ValidAnswered();
    }

    lemma ValidAnswered()
      requires Valid()
      ensures hasPut ==> delivered == TakenBy(accepts, puts)
      ensures prevStatus == PutBufFailed && hasPut ==> Refused(accepts, puts)
      ensures prevStatus == Okay || prevStatus == Done ==> !Refused(accepts, puts)
      ensures finished ==> ended
    {
      hide Inner, Handed, TakenBy;
      if !hasPut {
        NotCalled(prevStatus);
      }
    }

    method BadCall()
      requires Valid()
      modifies this`prevStatus
      ensures prevStatus == BadParam && Valid() && Summed()
    {
      hide Inner, Handed, TakenBy, Answered;
      AnsweredMeans(prevStatus);
      prevStatus := BadParam;
      NothingDue();
    }

    // More of the output that waits, and no input.
    method HandOn(hasOut: bool) returns (st: Status)
      requires Valid() && Summed() && prevStatus == Okay && (outRemaining != 0 || finished) && hasOut == !hasPut
      modifies this`delivered, this`outRoom, this`outRemaining, this`prevStatus, this`calls, this`puts
      ensures Valid() && Summed() && st == prevStatus && (st == Okay || st == Done)
      ensures old(delivered) <= delivered && puts == old(puts)
      ensures |delivered| + outRoom == |old(delivered)| + old(outRoom) && (outRemaining > 0 ==> outRoom == 0)
      ensures (st == Done <==> finished && outRemaining == 0) && (hasPut ==> st == Done)
      ensures st == Done ==> Complete() && DeflateStream.OneLast(sent)
    {
      hide Inner, Framed, Handed, Answered, Complete, DeflateStream.OneLast, Checksum, Out, Shape, Window, Queue, Raw, Written, Carries, Valid, Summed;
      if hasPut {
        ValidParts();
        NothingWaits();
      }
      st := GiveOut(hasOut, false);
    }

    // The end of every good call: what waits goes out as far as there is room.
    method GiveOut(hasOut: bool, ghost flushed: bool) returns (st: Status)
      requires Valid() && Summed() && prevStatus == Okay && hasOut == !hasPut
      requires flushed ==> blockIndex > 0 && w.bitsIn == 0 && laSize == 0 && lz.tokens == []
      modifies this`delivered, this`outRoom, this`outRemaining, this`prevStatus
      ensures Valid() && Summed() && st == prevStatus && (st == Done <==> finished && outRemaining == 0) && (st == Okay || st == Done)
      ensures outRemaining == old(outRemaining) - if hasOut then Min(old(outRoom), old(outRemaining)) else 0
      ensures old(delivered) <= delivered && |delivered| + outRoom == |old(delivered)| + old(outRoom)
      ensures !hasPut && outRemaining > 0 ==> outRoom == 0
      ensures hasPut ==> outRemaining == 0
      ensures (flushed || finished) && outRemaining == 0 ==> Complete() && (finished ==> DeflateStream.OneLast(sent))
    {
      hide Inner, Framed, Handed, Answered, Complete, DeflateStream.OneLast, Checksum, Out, Shape, Window, Queue, Raw, Written, Carries, Valid;
      ValidParts();
      prevStatus := FlushOutput(hasOut);
      HandedOn();
      if (flushed || finished) && outRemaining == 0 {
        AllComplete();
      }
      PartsValid();
      st := prevStatus;
    }

    // The rest of tdefl_compress when no output waits.
    method TakeIn(src: seq<byte>, hasOut: bool, flush: Flush) returns (st: Status, consumed: nat)
      requires Valid() && Summed() && outRemaining == 0 && !finished && prevStatus == Okay && hasOut == !hasPut
      modifies this`laPos, this`laSize, this`dictSize, this`savedLit, this`savedLen, this`savedDist, this`input, this`totalLz,
               this`dictPos, this`blocks, this`blockStart, this`sent, this`ended, this`delivered, this`outRoom, this`outRemaining, this`prevStatus, this`calls, this`puts,
               this`finished, this`adler, this`head, this`tail, this`blockIndex, lz, lz.buf, dict, next, hash, w
      ensures Valid() && Summed() && consumed <= |src| && input == old(input) + src[..consumed]
      ensures st == prevStatus && (st == Okay || st == Done || (st == PutBufFailed && hasPut && !finished))
      ensures old(delivered) <= delivered && (!hasPut ==> |delivered| + outRoom == |old(delivered)| + old(outRoom) && (outRemaining > 0 ==> outRoom == 0))
      ensures old(puts) <= puts
      ensures st != PutBufFailed ==> (outRemaining == 0 ==> consumed == |src|) && (hasPut ==> outRemaining == 0)
      ensures (st == Done <==> finished && outRemaining == 0) && (finished ==> flush == Finish && consumed == |src|)
      ensures flush != NoFlush && st != PutBufFailed && outRemaining == 0 ==> Complete() && (flush == Finish ==> st == Done && DeflateStream.OneLast(sent))
    {
      hide Inner, Framed, Handed, Answered, Complete, DeflateStream.OneLast, Checksum, Out, Shape, Window, Queue, Raw, Written, Carries;
      ghost var before := input;
      var ok, at := CompressNormal(src, flush);
      consumed := at;
      if !ok {
        NotSummed();
        return prevStatus, at;
      }
      AddToSum(src[..at], before);
      st := EndCall(flush, hasOut, at == |src|);
    }

    // The checksum goes on with the bytes taken in.
    method AddToSum(bytes: seq<byte>, ghost before: seq<byte>)
      requires Inner() && !ended && input == before + bytes
      requires flags.zlib || flags.computeAdler ==> adler == Checksum(1, before)
      modifies this`adler
      ensures Inner() && Summed()
    {
      hide Shape, Window, Queue, Raw, Written, Checksum;
      if flags.zlib || flags.computeAdler {
        ChecksumBoth(1, before, bytes);
        adler := Adler32(adler, bytes);
      }
    }

    // The end of tdefl_compress: a flush, if everything was taken in, and the output.
    method EndCall(flush: Flush, hasOut: bool, usedUp: bool) returns (st: Status)
      requires Valid() && Summed() && !finished && !ended && prevStatus == Okay && (outRemaining > 0 ==> outRoom == 0) && hasOut == !hasPut
      requires outRemaining == 0 ==> usedUp && (flush != NoFlush ==> laSize == 0)
      modifies this`dictSize, this`totalLz, this`dictPos, this`blocks, this`blockStart, this`sent, this`ended, this`delivered, this`outRoom, this`outRemaining,
               this`prevStatus, this`calls, this`puts, this`finished, this`head, this`tail, this`blockIndex, lz, lz.buf, next, hash, w
      ensures Valid() && Summed() && st == prevStatus && (st == Okay || st == Done || (st == PutBufFailed && hasPut && !finished))
      ensures st != PutBufFailed ==> (outRemaining == 0 ==> usedUp) && (hasPut ==> outRemaining == 0)
      ensures (st == Done <==> finished && outRemaining == 0) && (finished ==> flush == Finish && usedUp)
      ensures flush != NoFlush && st != PutBufFailed && outRemaining == 0 ==> Complete() && (flush == Finish ==> st == Done && DeflateStream.OneLast(sent))
      ensures old(delivered) <= delivered && (!hasPut ==> |delivered| + outRoom == |old(delivered)| + old(outRoom) && (outRemaining > 0 ==> outRoom == 0))
      ensures old(puts) <= puts
    {
      hide Inner, Framed, Handed, Answered, Complete, DeflateStream.OneLast, Checksum, Out, Shape, Window, Queue, Raw, Written, Carries, Valid;
      ghost var flushed := false;
      if flush != NoFlush && laSize == 0 && usedUp && outRemaining == 0 {
        var put := FlushAll(flush);
        if !put {
          NotSummed();
          return prevStatus;
        }
        flushed := true;
      }
      st := GiveOut(hasOut, flushed);
    }

    lemma ValidParts()
      requires Valid()
      ensures Inner() && Handed() && Answered(prevStatus) && (finished ==> ended && laSize == 0 && lz.tokens == []) && (prevStatus == Okay && !finished ==> !ended)
    {
      hide Inner, Handed, Answered;
    }

    lemma PartsValid()
      requires Inner() && Handed() && Answered(prevStatus) && (finished ==> ended && laSize == 0 && lz.tokens == []) && (prevStatus == Okay && !finished ==> !ended)
      ensures Valid()
    {
      hide Inner, Handed, Answered;
    }

    lemma AllHanded()
      requires Handed() && prevStatus == Okay && outRemaining == 0
      ensures delivered == Out()
    {
    }

    lemma NotSummed()
      requires prevStatus == PutBufFailed
      ensures Summed()
    {
    }

    lemma NothingDue()
      requires prevStatus == BadParam
      ensures Handed() && Summed()
    {
    }

    lemma NothingWaits()
      requires Handed() && prevStatus == Okay && hasPut
      ensures outRemaining == 0
    {
    }

    lemma HandedOn()
      requires outRemaining <= |Out()| && delivered == Out()[..|Out()| - outRemaining] && (hasPut ==> outRemaining == 0)
      ensures Handed()
    {
    }

    // What the caller has so far are the bits of whole blocks, and they expand to the input;
    // with the zlib flag they come in their frame.
    ghost predicate Complete()
      reads this`delivered, this`input, this`sent, this`ended
    {
      DeflateStream.GoodStream(sent) && ExpandBlocks(DeflateStream.BlocksOf(sent)) == Text(input) &&
      exists body: seq<byte>, pad: nat :: Carries(body, pad)
    }

    ghost predicate Carries(body: seq<byte>, pad: nat)
      reads this`delivered, this`input, this`sent, this`ended
    {
      DeflateStream.GoodStream(sent) && pad < 8 && BitsOf(body) == DeflateStream.StreamBits(sent) + Lsb(0, pad) &&
      delivered == (if flags.zlib then ZLIB_HEADER + body + (if ended then BigEndian(Checksum(1, input)) else []) else body)
    }

    lemma AllComplete()
      requires Inner() && Summed() && (prevStatus == Okay || prevStatus == Done)
      requires delivered == Out() && (blockIndex > 0 || ended) && (ended || w.bitsIn == 0) && laSize == 0 && lz.tokens == []
      ensures Complete() && (ended ==> DeflateStream.OneLast(sent))
    {
      hide Saved, Sent, DeflateStream.FormFits, DeflateStream.Aligned, DeflateStream.StreamBits, ExpandBlocks, Checksum, BigEndian;
      AllSent();
      assert Lsb(w.bitBuffer, 0) == [] && Lsb(0, 0) == [];
      assert BitsOf(w.out) == w.Stream();
      assert head + w.out + [] == head + w.out && [] + w.out == w.out;
      if ended {
        ghost var pad: nat :| pad < 8 && w.Stream() == DeflateStream.StreamBits(sent) + Lsb(0, pad);
        assert Carries(w.out, pad);
      } else {
        assert Carries(w.out, 0);
      }
    }

    // The end of a flush: the last block goes out, and a full flush forgets the dictionary.
    method FlushAll(flush: Flush) returns (put: bool)
      requires Valid() && flush != NoFlush && laSize == 0 && outRemaining == 0 && !finished && prevStatus == Okay
      modifies this`dictSize, this`totalLz, this`dictPos, this`blocks, this`blockStart, this`sent, this`ended, this`delivered, this`outRoom, this`outRemaining,
               this`prevStatus, this`calls, this`puts, this`finished, this`head, this`tail, this`blockIndex, lz, lz.buf, next, hash, w
      ensures Valid() && lz.tokens == [] && w.bitsIn == 0
      ensures !put ==> prevStatus == PutBufFailed && !finished && hasPut
      ensures put ==> prevStatus == Okay && blockIndex > 0 && (outRemaining > 0 ==> outRoom == 0) && finished == (flush == Finish)
      ensures old(delivered) <= delivered && (!hasPut ==> |delivered| + outRoom == |old(delivered)| + old(outRoom))
      ensures old(puts) <= puts
      // nothing behind a full flush refers back beyond it
      ensures put && flush == FullFlush ==> dictSize == 0 && (forall k :: 0 <= k < hash.Length ==> hash[k] == 0) && forall k :: 0 <= k < next.Length ==> next[k] == 0
      ensures flush != FullFlush ==> dictSize == old(dictSize) && hash[..] == old(hash[..]) && next[..] == old(next[..])
    {
      hide Shape, Window, Queue, Raw, Written, Framed, Handed, Answered;
      var n := FlushBlock(flush);
      if n < 0 {
        return false;
      }
      finished := flush == Finish;
      if flush == FullFlush {
        ForgetDictionary();
      }
      return true;
    }

    method ForgetDictionary()
      requires Inner() && totalLz == 0
      modifies this`dictSize, hash, next
      ensures Inner() && dictSize == 0
      ensures (forall k :: 0 <= k < hash.Length ==> hash[k] == 0) && forall k :: 0 <= k < next.Length ==> next[k] == 0
    {
      hide Shape, Queue, Written, Framed, Holds, AllStored;
      assert Arrays() by { ShapeArrays(); }
      ClearChains();
      dictSize := 0;
    }

    lemma ShapeArrays()
      requires Shape()
      ensures Arrays()
    {
    }

    method ClearChains()
      requires Arrays()
      modifies hash, next
      ensures forall k :: 0 <= k < hash.Length ==> hash[k] == 0
      ensures forall k :: 0 <= k < next.Length ==> next[k] == 0
    {
      forall k | 0 <= k < next.Length {
        next[k] := 0;
      }
      forall k | 0 <= k < hash.Length {
        hash[k] := 0;
      }
    }

    // With the lookahead used up and the code buffer empty, the blocks are the whole input.
    lemma AllSent()
      requires Queue() && laSize == 0 && lz.tokens == []
      ensures savedLen == 0 && ExpandBlocks(blocks) == Text(input)
    {
      NothingPending(input, Pos(), savedLit, savedLen, savedDist);
      SentLength(input, blocks, blockStart, lz.tokens, SentTo());
      assert input[..|input|] == input;
    }
  }

  lemma InOrder(a: seq<bool>, b: seq<bool>, c: seq<bool>)
    ensures (a + b) + c == a + (b + c)
  {
  }

  lemma StreamIs(w: Writer)
    requires w.Valid()
    ensures w.Stream() == BitsOf(w.out) + Lsb(w.bitBuffer, w.bitsIn) && w.bitsIn < 8 && w.bitBuffer < Pow2(w.bitsIn)
    ensures |Lsb(w.bitBuffer, w.bitsIn)| < 8
  {
  }

  // A bound on bits as one on bytes.
  lemma FewBytes(w: Writer, n: nat, start: nat)
    requires w.Valid() && |w.Stream()| <= n + 1 + 8 * (OUT_BUF_SIZE - 24) && n < 8 * start + 8
    ensures |w.out| < start + OUT_BUF_SIZE - 18
  {
    DeflateStream.OutLength(w);
  }

  // A match is never held back at the end of the input.
  lemma NothingPending(input: seq<byte>, pos: nat, lit: byte, len: nat, dist: nat)
    requires Saved(input, pos, lit, len, dist) && pos == |input|
    ensures len == 0
  {
  }
}
