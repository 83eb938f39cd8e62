// LZ77 tokens and what they expand to.

module LzSpec {

  import opened Ints

  const MIN_MATCH_LEN: nat := 3
  const MAX_MATCH_LEN: nat := 258
  const LZ_DICT_SIZE: nat := 32768

  datatype Token = Literal(b: byte) | Match(len: nat, dist: nat)

  predicate TokenOk(t: Token) {
    t.Match? ==> MIN_MATCH_LEN <= t.len <= MAX_MATCH_LEN && 1 <= t.dist <= LZ_DICT_SIZE
  }

  function Length(t: Token): nat {
    if t.Literal? then 1 else t.len
  }

  function TotalLength(ts: seq<Token>): nat {
    if ts == [] then 0 else TotalLength(ts[..|ts| - 1]) + Length(ts[|ts| - 1])
  }

  // Copy len bytes from dist bytes back, byte by byte: the copy may run into
  // bytes that it has itself produced.
  function CopyBack(s: seq<byte>, len: nat, dist: nat): (r: seq<byte>)
    requires 1 <= dist <= |s|
    ensures |r| == |s| + len
    decreases len
  {
    if len == 0 then s else CopyBack(s + [s[|s| - dist]], len - 1, dist)
  }

  // A token applied to the text produced so far; a distance that reaches before
  // the start of the text is an error.
  datatype Text = Bad | Text(s: seq<byte>)

  function Apply(x: Text, t: Token): Text {
    match (x, t)
    case (Bad, _) => Bad
    case (Text(s), Literal(b)) => Text(s + [b])
    case (Text(s), Match(len, dist)) => if 1 <= dist <= |s| then Text(CopyBack(s, len, dist)) else Bad
  }

  function Expand(x: Text, ts: seq<Token>): Text {
    if ts == [] then x else Apply(Expand(x, ts[..|ts| - 1]), ts[|ts| - 1])
  }

  lemma ExpandMore(x: Text, ts: seq<Token>, t: Token)
    ensures Expand(x, ts + [t]) == Apply(Expand(x, ts), t)
    ensures TotalLength(ts + [t]) == TotalLength(ts) + Length(t)
  {
    assert (ts + [t])[..|ts|] == ts;
  }

  lemma {:induction false} ExpandLength(x: Text, ts: seq<Token>)
    requires Expand(x, ts).Text?
    ensures x.Text? && |Expand(x, ts).s| == |x.s| + TotalLength(ts)
  {
    if ts != [] {
      ExpandLength(x, ts[..|ts| - 1]);
    }
  }

  predicate SameAs(text: seq<byte>, j: nat, dist: nat) {
    dist <= j < |text| && text[j] == text[j - dist]
  }

  // The len bytes of the text at p repeat those dist before.
  predicate TrueMatch(text: seq<byte>, p: nat, len: nat, dist: nat) {
    1 <= dist <= p && p + len <= |text| && forall j :: p <= j < p + len ==> SameAs(text, j, dist)
  }

  // Expanding a true match reproduces the text.
  lemma {:induction false} CopyIsText(text: seq<byte>, p: nat, len: nat, dist: nat)
    requires TrueMatch(text, p, len, dist)
    ensures CopyBack(text[..p], len, dist) == text[..p + len]
    decreases len
  {
    if len > 0 {
      assert SameAs(text, p, dist);
      assert text[..p] + [text[..p][p - dist]] == text[..p + 1];
      CopyIsText(text, p + 1, len - 1, dist);
    }
  }

  // A finished block: Huffman-coded tokens, or stored bytes.
  datatype Block = Coded(tokens: seq<Token>) | Stored(bytes: seq<byte>)

  function ApplyBlock(x: Text, b: Block): Text {
    match b
    case Coded(ts) => Expand(x, ts)
    case Stored(bytes) => if x.Bad? then Bad else Text(x.s + bytes)
  }

  function ExpandBlocks(bs: seq<Block>): Text {
    if bs == [] then Text([]) else ApplyBlock(ExpandBlocks(bs[..|bs| - 1]), bs[|bs| - 1])
  }

  lemma BlocksMore(bs: seq<Block>, b: Block)
    ensures ExpandBlocks(bs + [b]) == ApplyBlock(ExpandBlocks(bs), b)
  {
    assert (bs + [b])[..|bs|] == bs;
  }
}
