# DEFLATE, regular expressions, page ciphers and re-encryption of SQLite3 Multiple Ciphers

This project models the parts of SQLite3 Multiple Ciphers whose correctness is not to be seen from
any one function, and proves what they promise. `dafny verify dfyconfig.toml` checks all of it.

- **DEFLATE and zlib** (`LzSpec`, `LzChains`, `LzMatch`, `LzBuffer`, `LzCompressor`, `RadixSort`, `MinimumRedundancy`, `CodeCost`,
  `LengthLimit`, `HuffmanCode`, `HuffmanBuild`, `HuffmanTable`, `CodeLengths`, `Bits`, `Bitstream`, `Inflate`, `DeflateTokens`,
  `DeflateBlock`, `DeflateStream`, `InflateTokens`, `InflateHeader`, `InflateStream`, `InflateLaws`, `Adler`, `Zlib`, `Deflate`, `DeflateFormat`). The compressor of miniz as a
  class over its ring dictionary, hash chains, code buffer and bit buffer; the decompressor as loops over its bit buffer and two-level
  tables, followed on any input at all: its answers are characterised exactly, and it finishes properly exactly on the streams of the
  format. `Deflate` joins the two: inflating what the compressor put out gives the input back. On the way: the code lengths are optimal, the
  length limiter ends with a full code space, decoding tables agree with canonical codes, the match finder is right about the ring.
  `DeflateFormat` states the numbers of the format apart from the tables of both sides.
- **Regular expressions** (`RegexSpec`, `RegexSyntax`, `RegexProgram`, `RegexCompile`, `RegexMachine`, `RegexMeaning`, `RegexMatch`,
  `RegexPrefix`, `RegexStacked`, `RegexPairs`, `RegexSurface`, `Utf8`, `Regexp`). The one-pass compiler with its in-place insertions, the state-set
  simulator, and a denotational meaning; `Regexp.RegexpFunction` joins the three, and
  `RegexSurface` says what patterns mean as they are written.
- **Re-encryption** (`RekeyCodec`, `RekeyPager`, `Rekey`). The codec with its read and write cipher, a pager that is a file, a cache
  and a journal with every failure left open, and the whole of `sqlite3_rekey_v2` over it.
- **Ciphers and hashes** (`Poly1305`, `ChaCha20`, `ChaChaRounds`, `ChaChaPage`, `CipherStealing`, `Md5`, `HashSpec`, `HashContext`, `Pbkdf2`). Against
  RFC 8439, RFC 1321, RFC 2104 and RFC 8018, with the exact bounds up to which 32-bit lengths and counts keep to them.
- **Order statistics and the name index** (`CountedTree`, `NameIndex`). The mutable counted search tree behind mode, median and
  quartiles; the heap-sorted, binary-searched directory of a ZIP archive against the scan it stands for.

Bytes from the outside, key material, random nonces, allocation and input or output that may fail are parameters or free choices,
so that the theorems hold for all of them. The block cipher, the compression functions, the initial vectors per page and the ciphers of a
codec are arbitrary functions with the inverse or the sizes that the code relies on.

Where the code and what is written about it disagree, the model follows the code:

- The comment on mode 7 in `src/codecext.c:152-158` and the rollback at `src/codecext.c:592-596` suggest that a failed rekey restores the
  old file. The journal is indeed under the old key, but it is played back through the file layer, which encrypts with the write key
  (`src/sqlite3mc_vfs.c:879-930`), and the codec goes back to the old key only afterwards (`src/codecext.c:625-628`). `Rekey.Database.RolledBackOrNot`
  says exactly when the file is restored, and `Rekey.MixedKeys` is a failure that leaves a file of three pages which no single key opens.
- The syntax in `src/regexp.c:25-45` says `X*` for any X. A quantifier behind a quantifier takes its operand from the place of the last item
  before the insertion (`src/regexp.c:496`, `src/regexp.c:636`), so `^a**` does not match the empty text; `RegexPairs.StackedPairs` gives
  the pairs that are right. `^` binds the whole pattern and not the first alternative, and `$` is read only at the end.
- The same comment lists the characters that a backslash may quote without `$` and `^`, which the code takes as well (`src/regexp.c:420`);
  `RegexSurface.EscapeKnown` has them all.
- The search for the literal prefix is called a mere optimization (`src/regexp.c:712-719`). It is one exactly if no literal is U+FFFD.
- The decompressor accepts more than RFC 1951 defines: headers with 287 or 288 literal lengths, which the format of this model has as well, the two
  unused length symbols as copies of nothing, length 258 by symbol 284, and bits that no word of an incomplete code begins.
  `InflateStream.MalformedAccepted` is such an input; `InflateTokens.OddItem` and `Inflate.CompleteIsProper` say that with complete codes
  there are no others, and `InflateStream.StreamMeaning` that on everything else it answers as the format says.
- `sha256_update` and `sha512_update` add the new length to the waiting bytes in 32 bits (`src/sha2.c:380`); `HashContext.Context.Update` says what is
  lost when the sum wraps.
- The padding of the hashes and the output of PBKDF2 are those of the standards only up to the 32-bit bounds in `HashContext.PaddingExact`
  and `Pbkdf2.KeyIsWhole`.
- The aggregates read their 64-bit values back as 32-bit ones (`src/extensionfunctions.c:1508`, `src/extensionfunctions.c:1558`), so that an
  answer is exact only for values in that range.

## Model

| member | source | states |
|---|---|---|
| Deflate.RoundTrip | src/miniz.c:2006-2019 | Compressing any bytes with any flags (probes, greedy, RLE, filter, static, raw, zlib frame) into any callback: done exactly if the callback accepts every piece it is given, and then inflating what it took gives the bytes back; a refused piece is the only failure |
| Deflate.Inflated | src/miniz.c:2902-2909 | Whatever sequence of calls, flushes and output sizes brought a compressor to its end, what its caller holds inflates to the input of all those calls, raw or in the zlib frame |
| LzCompressor.Compressor.Compress | src/miniz.c:1886-1952 | Over any sequence of calls: bad parameters are refused exactly in the source's cases; PutBufFailed comes back exactly if the callback refuses a piece, and the caller has exactly what it took; a flush with no output waiting has sent the whole input, as whole blocks that expand to it; output waits only when all the room is used, and nothing is taken back; Done means a complete stream with exactly one last block, with the checksum of the whole input behind it when a zlib frame was asked for |
| LzCompressor.Compressor.constructor | src/miniz.c:1960-1994 | A new compressor is in the invariant of every call, whatever the memory of its chains held, and with the flag for it that of dictionary and hash |
| LzCompressor.Compressor.CompressNormal | src/miniz.c:1720-1863 | The parsing loop consumes a prefix of the input, keeps the invariant that tokens and blocks expand to what was consumed less a held-back byte, and stops early only for a refused put or waiting output |
| LzCompressor.Compressor.Fill | src/miniz.c:1729-1770 | The lookahead takes in exactly as many bytes as fit, the ring and its mirrored tail go on holding the text, every place enters the chain of its hash as soon as its three bytes are known, and only the overwritten part of the dictionary is given up |
| LzChains.ChainGoesBack | src/miniz.c:1738-1745 | With the places entered in order, the link of a place leads to the last place before it with the same three-byte hash, as long as its slot is not overwritten |
| LzChains.HeadIsLast | src/miniz.c:1738-1745 | A chain begins at the last place entered with its hash |
| LzCompressor.Compressor.BestMatch | src/miniz.c:1774-1804 | A match on offer for the current position is true in the text, fits the lookahead and can be said by the tokens; none is offered when raw blocks are forced |
| LzCompressor.Compressor.Decide | src/miniz.c:1805-1842 | The lazy parsing rule: a held-back match is sent unless the current one is longer, else its first byte goes as a literal; long, greedy and RLE matches go at once; tokens then cover exactly the bytes passed less a held-back one |
| LzCompressor.Compressor.WriteBlock | src/miniz.c:1267-1304 | One block on the bit stream that expands to the open block: stored only if its bytes are still in the ring, otherwise coded and then no longer than its bytes where these could be stored; own codes only from 48 bytes on, the fixed ones beyond that only on demand or where nothing else fits; after a rollback nothing of the first try is left; the output buffer never fills |
| LzCompressor.Compressor.FlushBlock | src/miniz.c:1243-1376 | A flushed block leaves an empty code buffer, a byte boundary for every flush that asks for one, the header before the first block, the checksum behind the last; a negative answer exactly if the callback refuses the piece, which then counts as not delivered, and otherwise every byte is with the caller or waits |
| LzCompressor.Compressor.FlushOutput | src/miniz.c:1865-1884 | What waits goes out as far as there is room, in order; Done exactly when the stream is finished and nothing waits |
| LzCompressor.Compressor.FlushAll | src/miniz.c:1937-1949 | A flush with an empty lookahead sends the open block; a full flush then forgets dictionary and chains, so that nothing behind it refers back beyond it, and no other flush touches them |
| Adler.Adler32 | src/miniz.c:40-66 | The checksum with sums reduced once in 5552 bytes equals the one that reduces at every byte, and no 32-bit sum overflows |
| Adler.ChecksumBoth | src/miniz.c:1935-1936 | The checksum carried on from call to call is that of the whole input |
| DeflateFormat.ChecksumWraps | src/miniz.c:40-66 | Both halves are reduced modulo 65521, and the sum of sums is the upper one |
| Adler.ChunkIsLongest | src/miniz.c:43-43 | n bytes can never bring the loop's unreduced sums beyond 32 bits, from reduced sums or any of 16 bits, exactly if n is at most 5552 |
| Zlib.InflateZlib | src/miniz.c:2420-2860 | For any bytes: starved, refused, out of room, a mismatch or done, exactly as header, blocks and the trailer behind the last byte of the blocks say |
| DeflateFormat.Headers | src/miniz.c:2426-2432 | A header is good exactly with deflate as its method, no preset dictionary and a multiple of 31 |
| Zlib.ZlibMeaning | src/miniz.c:2420-2860 | Done with a text, all read properly, exactly if the bytes are a good header, a stream that means the text, the rest of its byte and the checksum of the text, whatever follows |
| Zlib.CheckTrailer | src/miniz.c:2784-2858 | After the last block the padding goes, whole bytes read ahead go back to the input, and the next four bytes are compared with the checksum, or there are too few |
| LzMatch.FindMatch | src/miniz.c:1449-1491 | The match found is a true earlier occurrence within the dictionary, longer than the one known before, and at least as long as every other one that the chain reaches within the probes |
| LzMatch.Probe | src/miniz.c:1464-1470 | One chain step stops exactly at an empty or too distant entry and hits exactly when the two bytes at the end of the best match agree |
| LzBuffer.Buffer.RecordLiteral | src/miniz.c:1679-1690 | A literal is one more token in the flag-byte buffer |
| LzBuffer.Buffer.RecordMatch | src/miniz.c:1692-1718 | A match is one more token in the flag-byte buffer, with its flag in its place |
| LzBuffer.Buffer.Close | src/miniz.c:1258-1259 | With the last flags shifted into place the buffer is exactly the packed tokens |
| LzBuffer.ReadTokens | src/miniz.c:1186-1203 | The loop over a closed buffer meets exactly the recorded tokens, in order, and never reads past the end |
| LzBuffer.PackedIsLong | src/miniz.c:1679-1718 | A lower bound on the packed form of any token list, from which the static form's size follows |
| DeflateTokens.LengthRoundTrip | src/miniz.c:676-694 | For every match length the compressor's symbol and extra bits, read with the decompressor's base and extra tables, give the length back |
| DeflateTokens.DistanceRoundTrip | src/miniz.c:696-736 | For every distance from 1 to 32768 the small or large distance table's symbol and extra bits give the distance back |
| DeflateFormat.LengthTables | src/miniz.c:2393-2394 | The decompressor's length table is that of section 3.2.5 of RFC 1951: each symbol takes over where the one before it ends, from 3 up to the last, which is 258 alone |
| DeflateFormat.DistanceTables | src/miniz.c:2395-2396 | So is its distance table, from 1 to 32768 |
| DeflateTokens.CompressLzCodes | src/miniz.c:1186-1231 | The token buffer is put out as the words of its symbols, their extra bits and the end-of-block word, for any pair of codes in which the tokens can be said |
| InflateTokens.InflateBlock | src/miniz.c:2612-2780 | For any bits and any accepted pair of codes: output, bits left and status of the token loop are those of reading item by item, whichever of its loops does it |
| InflateTokens.ReadLiterals | src/miniz.c:2614-2694 | The two-symbols-a-turn loop and the careful one at the ends of input and output read the same literals up to the first other symbol |
| InflateTokens.TokensMeaning | src/miniz.c:2612-2780 | The token loop finishes properly with a text and certain bits left exactly if the bits before them are the words of tokens that expand to the text |
| InflateTokens.OddItem | src/miniz.c:2695-2717 | With complete codes, what is accepted outside the format is exactly the unused length symbols 286 and 287 and length 258 said by symbol 284 |
| InflateTokens.CopyMatch | src/miniz.c:2764-2779 | The three-bytes-a-turn copy equals the byte-by-byte copy that may run into its own output |
| Inflate.HuffDecode | src/miniz.c:2326-2389 | For any bits and any accepted code: the symbol is the one whose word the bits begin with and exactly its word is taken; bits without a word are symbol 0 and lose what led through the tree; it fails exactly if the bits left decide nothing |
| Inflate.CompleteIsProper | src/miniz.c:2539-2542 | A complete code has a word for any fifteen bits, so that only the codes of one word or none, which are accepted too, can be read without one |
| RadixSort.Sort | src/miniz.c:743-774 | The two-pass radix sort returns the symbols sorted by frequency, none lost, in one of the two buffers |
| RadixSort.Pass | src/miniz.c:756-772 | One pass is the stable distribution of the elements by one digit |
| MinimumRedundancy.CalculateMinimumRedundancy | src/miniz.c:777-830 | The three in-place passes turn sorted positive frequencies with a sum below 2^16 into lengths that do not grow with the frequency, fill the code space exactly, stay within 24, and cost no more than any prefix code |
| MinimumRedundancy.Pair | src/miniz.c:788-806 | The first pass builds a tree whose weights sum to a lower bound on the cost of every prefix code |
| MinimumRedundancy.Depths | src/miniz.c:807-809 | The second pass turns the links in place into the depths of the internal nodes |
| MinimumRedundancy.Hang | src/miniz.c:810-829 | The third pass gives every leaf the depth of its level, from the most frequent symbol down |
| MinimumRedundancy.Shallow | src/miniz.c:833-836 | Frequencies below 2^16 in sum cannot make a tree deeper than the 32 lengths the limiter has room for |
| CodeCost.Swap | src/miniz.c:777-830 | Exchange argument: giving the longer of two lengths to the rarer symbol keeps a code and never costs more |
| CodeCost.Siblings | src/miniz.c:777-830 | In some code that costs no more, the two rarest symbols have the same length |
| CodeCost.Merge | src/miniz.c:777-830 | If no code for the symbols with the two rarest merged costs less than c, none for all of them costs less than c plus those two frequencies |
| LengthLimit.EnforceMaxCodeSize | src/miniz.c:837-859 | For a full code with at most 2^limit words the loop ends, keeps the number of words and every count natural, and leaves a code space that is exactly full; counts within the limit stay as they are |
| HuffmanBuild.OptimizeTable | src/miniz.c:861-912 | For counted symbols: exactly the used ones get a length of at most the limit, the code space is full if there are two or more, the codes are the canonical words in reverse, and no prefix code for the counts takes fewer bits unless the limit cuts the lengths that are the cheapest without it |
| HuffmanBuild.StaticTable | src/miniz.c:867-871 | For given lengths the codes are their canonical words in reverse |
| HuffmanBuild.AssignLengths | src/miniz.c:891-895 | The shortest lengths go to the most frequent symbols and the counts of each length are kept |
| HuffmanBuild.AssignCodes | src/miniz.c:898-911 | The code-assigning loop gives every used symbol its canonical word, bit-reversed |
| HuffmanCode.PrefixFree | src/miniz.c:898-911 | Of canonical words for feasible lengths none begins another |
| HuffmanCode.CodeFits | src/miniz.c:898-911 | Every canonical code fits in its length and its word spells it |
| HuffmanCode.BranchesFit | src/miniz.c:2561-2581 | The branching points of an accepted code are no more than its symbols or the length of its only word, which bounds the decoding tree |
| HuffmanTable.Table.Build | src/miniz.c:2523-2582 | Lengths are accepted exactly if they are complete or those of one word; then both in-place tables hold exactly the canonical words, every index in bounds |
| HuffmanTable.Table.Decode | src/miniz.c:2374-2389 | Bits that begin with a symbol's word decode to that symbol and its length, through the lookup table or the tree; others decode to symbol 0 with the length of their path in the tree |
| HuffmanTable.FirstCodes | src/miniz.c:2532-2541 | The running total gives each length its first canonical code and the total of the code space |
| CodeLengths.Pack | src/miniz.c:932-1040 | The repeat codes 16, 17 and 18 mean the same list of lengths, are legal, and are never more than the lengths |
| CodeLengths.PackOne | src/miniz.c:1006-1032 | One turn of the packing loop: what is packed and what is still counted mean the lengths so far |
| DeflateBlock.WriteDynamicBlock | src/miniz.c:980-1065 | A block with codes of its own: header and tokens on the bit stream form a block from which the tokens can be read, and no length is sent that could be left out |
| DeflateBlock.LengthOrder | src/miniz.c:978-979 | The three-bit fields that the compressor sends are the lengths of symbols 16, 17, 18, 0, then 8 + j and 7 - j in turn |
| InflateHeader.ReadHeader | src/miniz.c:2505-2611 | For any bits: header, length code, packed lengths and both tables, or the failure that comes first |
| InflateHeader.SizesOrder | src/miniz.c:2512-2518 | The decompressor's own table puts three-bit fields back in that order: after n fields symbols 16, 17, 18 and 0 have the first four, 8 + j has field 4 + 2j and 7 - j field 5 + 2j as far as n goes, and the others have none |
| InflateHeader.HeaderMeaning | src/miniz.c:2505-2611 | Two codes are read properly, with certain bits left, exactly if the bits before them are a header with these codes |
| InflateHeader.ReadCodeLengths | src/miniz.c:2583-2607 | For any bits: the lengths that the entries stand for, refused if a repeat has nothing before it or the last run goes too far |
| DeflateFormat.RunsAre | src/miniz.c:2598-2605 | Symbol 16 with two bits repeats the last length three to six times, 17 with three bits is three to ten zeros, 18 with seven bits eleven to 138 |
| DeflateFormat.HeaderCounts | src/miniz.c:2507-2511 | A header begins with the numbers of literal lengths, distance lengths and length codes, less 257, 1 and 4, in 5, 5 and 4 bits |
| InflateStream.ReadDynamicBlock | src/miniz.c:2505-2780 | For any bits: header, tables and tokens together |
| DeflateStream.WriteStaticBlock | src/miniz.c:1067-1087 | A block with the fixed codes is the words of its tokens in those codes |
| DeflateFormat.FixedWords | src/miniz.c:2489-2504 | The fixed code words are those of the table in section 3.2.6 of RFC 1951, for all 288 symbols |
| DeflateFormat.FixedStream | src/miniz.c:2437-2782 | The bytes 4b 4c 84 01 00 are answered with ten letters a |
| DeflateStream.WriteStoredBlock | src/miniz.c:1280-1295 | A stored block is its type, the padding to a byte, length and complement, and the bytes |
| InflateStream.ReadStoredBlock | src/miniz.c:2441-2482 | For any bits: the rest of the byte goes, a wrong complement is refused, and the bytes come out of the bit buffer first and then in one piece, as far as input and room go |
| DeflateFormat.StoredAnswer | src/miniz.c:2441-2482 | A raw stream of one stored block, byte by byte: refused for a wrong complement, starved for missing bytes, out of room when that comes first, else its bytes and the rest of the input |
| InflateStream.ReadBlocks | src/miniz.c:2437-2782 | For any bits: output, bits left and status of the block loop are those of reading block by block up to the one that says it is the last |
| InflateStream.InflateRaw | src/miniz.c:2391-2861 | For any bytes: the answer of a call on a raw stream, and when it is done the input stands at the first byte behind the stream |
| InflateStream.StreamMeaning | src/miniz.c:2437-2782 | Finished properly with a text and certain bits left exactly if the bits before them are a stream of blocks that expands to the text; finished otherwise only on bits that are no stream of any text that fits |
| InflateLaws.MoreInput | src/miniz.c:2437-2782 | More bytes behind the input change no answer of the decompressor but the one that there are too few; a text stays, with more bits left |
| InflateLaws.MoreRoom | src/miniz.c:2437-2782 | More room changes no answer but the one that there is too little |
| InflateLaws.WholeStream | src/miniz.c:2437-2782 | A stream, whatever follows it, is answered by its text exactly if that fits and by a wish for room otherwise |
| InflateLaws.CutStream | src/miniz.c:2437-2782 | A stream that is cut anywhere is never accepted or refused: the answer is a wish for more input, or for room if the text does not fit |
| InflateStream.MalformedAccepted | src/miniz.c:2393-2394 | Four bytes that are no stream, with length symbol 286 in the fixed code, are accepted as one letter |
| DeflateStream.StaticLength | src/miniz.c:1067-1087 | With the fixed codes a block is at most 1.24 times its packed tokens, so the last resort always fits the output buffer |
| Bitstream.Writer.PutBits | src/miniz.c:914-930 | The stream grows by exactly the bits, lowest first, and fewer than eight stay in the buffer |
| Bitstream.Reader.GetBits | src/miniz.c:2290-2320 | It fails exactly if the input has too few bits; otherwise the number is the next bits and exactly they are gone |
| Bitstream.Reader.EndOfBlocks | src/miniz.c:2784-2793 | After the last block the bit buffer is empty and the input stands at the first byte behind it, whatever the padding was |
| Regexp.RegexpFunction | src/regexp.c:766-809 | For every pattern and NUL-free text: a bad pattern fails; a good one is refused only if its program is too long for the limit; otherwise the answer is the acceptance of its program, the relational reading of the pattern where no quantifier is stacked, and the denotational one where '$' is also last; a leading '^' anchors the whole pattern |
| Regexp.Compile | src/regexp.c:668-740 | The compiled code is that of the parsed pattern, safe to step through, and the prefix is the encoding of exactly the literals behind the leading any-star |
| Regexp.ExtractPrefix | src/regexp.c:712-738 | The prefix is the encoding of the program's first literals and fits its twelve bytes |
| Regexp.ReplacementMissed | src/regexp.c:217-228 | The pattern U+FFFD compiles to a program that accepts the text of one byte 0xff, but the prefix search does not find it there |
| RegexPrefix.Match | src/regexp.c:202-348 | The answer is acceptance of the text, or with a prefix acceptance from the first place where its first byte leads to the whole prefix |
| RegexPrefix.SkipInvisible | src/regexp.c:217-228 | On every NUL-free text, valid UTF-8 or not, the skip changes no answer unless a literal is U+FFFD, and on valid UTF-8 never |
| RegexPrefix.SkipExact | src/regexp.c:217-228 | For a program that accepts anything, the skip never shows on any text exactly if no literal of the prefix is U+FFFD |
| RegexPrefix.SkipShows | src/regexp.c:150-176 | If one is, every accepted text has a form that is still accepted but no longer found |
| RegexMatch.Simulate | src/regexp.c:230-348 | The state-set simulation accepts exactly if the program has an accepting path through the decoded text |
| RegexMatch.Step | src/regexp.c:251-337 | One instruction adds exactly its empty moves to the current set and its consuming moves to the next |
| RegexMatch.Sweep | src/regexp.c:242-339 | Working off the growing set reaches every state that empty moves reach and no other that matters |
| RegexMatch.ReStateSet.Add | src/regexp.c:140-145 | A state enters a set at most once, so that the set never overflows its array |
| RegexMachine.RunsSound | src/regexp.c:490-639 | Every accepting path through a fragment is a match of its expression and leaves at its end |
| RegexMachine.RunsComplete | src/regexp.c:490-639 | Every match of an expression is an accepting path through its fragment, loops with empty bodies included |
| RegexMachine.ProgramMeaning | src/regexp.c:468-489 | A program accepts from the start of the text exactly if its pattern has a match from there |
| RegexMachine.FloatingMeaning | src/regexp.c:691-695 | A pattern compiled behind the any-star may start anywhere |
| RegexSurface.PatternMeans | src/regexp.c:490-639 | For every pattern written out of plain and escaped characters, classes, groups, sequences, alternatives and quantifiers with decimal counts: the parser accepts it, and the expression it reads denotes, on every text, what the written form says in character ranges and repetition counts; a leading '^' anchors it |
| RegexSurface.AnswerIsOccurrence | src/regexp.c:766-809 | With '$' in last place, regexp() answers whether the text has a part that the written pattern means |
| RegexSurface.EscapeKnown | src/regexp.c:611-630 | Exactly fifteen marks and thirteen letters may stand behind a backslash by themselves; a backslash at the end stands for the end of the text |
| RegexSurface.TimesRead | src/regexp.c:543-582 | A written quantifier is refused exactly if its count is above half the limit, zero or the wrong way round |
| RegexSurface.Unbalanced | src/regexp.c:503-508 | An opened or closed parenthesis without its partner around any written pattern is refused |
| RegexSurface.ClassRefused | src/regexp.c:583-610 | A class without its bracket and the form [[: are refused |
| RegexCompile.ReadEscape | src/regexp.c:416-454 | For any pattern and place: hexadecimal escapes with enough digits in front of others, then the table of known characters, else an error that compilation carries on |
| RegexCompile.ReadAtom | src/regexp.c:509-639 | One atom becomes the one instruction of the parsed expression, or the error of an unknown escape |
| RegexMeaning.EndLastMeaning | src/regexp.c:340-344 | With '$' only in last place the matcher's reading of the end of the text is the denotational one |
| RegexMeaning.EndUnderPlusMisses | src/regexp.c:334-344 | One shape outside that: (X$)+ is never found, although it denotes matches |
| RegexSpec.ExpandMeans | src/regexp.c:543-582 | The expansion of X{m,n} denotes between m and n matches of X |
| RegexCompile.SubcompileRe | src/regexp.c:468-489 | Alternatives: the code put behind the old is that of the parsed expression, jumps nowhere outside itself, and is never longer than its bound even where the limit stops it |
| RegexCompile.SubcompileString | src/regexp.c:490-639 | Strings of items and quantifiers, also a quantifier behind a quantifier, whose operand starts where the last item's first instruction was before the insertion |
| RegexCompile.CompileQuantifier | src/regexp.c:519-582 | What each quantifier makes of the code behind its operand's start, or the error it gives |
| RegexCompile.CompileClass | src/regexp.c:583-610 | A character class becomes its item instructions behind a header that jumps over them |
| RegexCompile.CompileText | src/regexp.c:671-710 | Before the prefix is taken: the program of the parsed pattern with its final ACCEPT, or an error exactly where the parse has one or the limit is met |
| RegexProgram.ReCompiled.Insert | src/regexp.c:369-380 | Insertion shifts the arrays in place; a failed resize leaves the program as it was |
| RegexProgram.ReCompiled.Copy | src/regexp.c:391-396 | The copied range is appended unchanged |
| RegexProgram.ReCompiled.Resize | src/regexp.c:353-364 | Growing fails exactly above the limit and keeps the program |
| RegexPairs.StackedPairs | src/regexp.c:496-639 | For a character with two quantifiers on it, with or without '^', the answer is the denotational one on every text exactly if the pair is in the table Agrees |
| RegexStacked.TwiceTakes | src/regexp.c:496-639 | The code of such a pair is accepted exactly if the number of characters that its table entry names are there |
| RegexPairs.StackedParsed | src/regexp.c:496-639 | Such patterns are parsed, not refused |
| RegexPairs.StarStarMisses | src/regexp.c:519-534 | '^a**' is not found in the empty text, which it denotes; '^a?*' is always right |
| Utf8.DecodeEncoded | src/regexp.c:150-176 | Decoding inverts encoding from any character boundary on |
| Utf8.ShortReads | src/regexp.c:150-176 | Which one- and two-byte sequences are characters, and that every malformed byte is read as U+FFFD by itself |
| Utf8.ThreeByteReads | src/regexp.c:150-176 | Three-byte sequences, with U+FFFD for overlong ones and surrogates |
| Utf8.FourByteReads | src/regexp.c:150-176 | Four-byte sequences, with U+FFFD for overlong ones and beyond U+10FFFF |
| Poly1305.Poly1305 | src/chacha20poly1305.c:146-213 | For every message and key the tag buffer ends as the tag of section 2.5 of RFC 8439; every 32- and 64-bit step is without overflow |
| Poly1305.TagIsPolynomial | src/chacha20poly1305.c:146-213 | The tag is the polynomial of the blocks at the clamped key modulo 2^130-5, plus the second half of the key, modulo 2^128 |
| Poly1305.StandardTag | src/chacha20poly1305.c:146-213 | The example of section 2.5.2 of RFC 8439, with its accumulator after each block |
| Poly1305.ProcessBlock | src/chacha20poly1305.c:163-182 | One block: limbs left uncarried below still represent the product modulo the prime and stay within bounds |
| Poly1305.Finish | src/chacha20poly1305.c:197-213 | Two carries and one conditional subtraction reduce fully |
| ChaCha20.Chacha20Xor | src/chacha20poly1305.c:78-140 | In place and for any length, the buffer becomes the text with the block-counter keystream of section 2.4 of RFC 8439, the counter wrapping, and nothing outside the range changes |
| ChaCha20.TwiceIsNothing | src/chacha20poly1305.c:78-140 | Applying it again restores the text |
| ChaChaRounds.QuarterIs | src/chacha20poly1305.c:56-60 | A quarter round on any state, as a formula with rotations by 16, 12, 8 and 7 |
| ChaChaRounds.ColumnsAre | src/chacha20poly1305.c:63-67 | A column round mixes the four columns, each on its own |
| ChaChaRounds.DiagonalsAre | src/chacha20poly1305.c:68-72 | A diagonal round mixes the four diagonals |
| ChaChaRounds.StandardBlock | src/chacha20poly1305.c:78-140 | The block of section 2.3.2 of RFC 8439, through its state after every two rounds, word by word |
| ChaChaRounds.EncryptedBehind | src/chacha20poly1305.c:103-120 | What comes behind n whole blocks is encrypted as if it came first with a counter n ahead |
| ChaChaPage.EncryptPage | src/cipher_chacha20.c:186-259 | It succeeds exactly if the reserve fits, and the page in place becomes the specified page image; otherwise it is untouched |
| ChaChaPage.DecryptPage | src/cipher_chacha20.c:274-368 | With the check on, a page is accepted exactly if its tag is right; the error is that of the first page or of any other |
| ChaChaPage.PageRoundTrip | src/cipher_chacha20.c:186-368 | For every page number, nonce, key, legacy flag, plaintext header and accepted reserve, an encrypted page is genuine and reads back as its payload, the first page with the standard header |
| ChaChaPage.HeaderRestored | src/cipher_chacha20.c:342-361 | A first page with the standard header reads back whole |
| ChaChaPage.PageOneStart | src/cipher_chacha20.c:202-235 | The first page in the file begins with the salt and shows the bytes that must stay readable |
| ChaChaPage.PageBytes | src/cipher_chacha20.c:186-259 | Every byte of an encrypted page: salt, readable bytes, text under the second half of the page's one-time keys with the counter one on, nonce, and the tag of all before it under the first half |
| CipherStealing.EncryptCBC | src/aes_hardware.c:297-360 | For any length of at least a block, in place or not, the output is the CBC encryption with ciphertext stealing, and nothing behind it changes |
| CipherStealing.DecryptCBC | src/aes_hardware.c:365-451 | The same for decryption, in place or not, the stolen part first |
| CipherStealing.RoundTrip | src/aes_hardware.c:297-451 | Decryption undoes encryption for every block permutation with its inverse, every vector and every length of at least a block |
| CipherStealing.BlocksAre | src/aes_hardware.c:297-360 | Every block but a stolen one is the encryption of the text combined with the block before it, the first with the vector |
| CipherStealing.StolenAre | src/aes_hardware.c:330-360 | The last whole block goes to the end, cut to the fragment's length, and in its place stands the fragment, padded with zeros, combined with it and encrypted |
| Md5.Md5Context.Update | src/md5.c:223-255 | However a message is split into updates, context and counters say exactly the message so far |
| Md5.Md5Context.Final | src/md5.c:257-306 | The result is the compression iterated over the message padded as in sections 3.1 and 3.2 of RFC 1321 |
| Md5.LengthBytes | src/md5.c:228-231 | The 29-bit and 32-bit counters store the 64-bit bit count of the message |
| Md5.TailIs | src/md5.c:257-306 | The padding is one bit, zeros, and the number of bits in eight bytes, lowest first, up to whole blocks |
| HashContext.Context.Update | src/sha2.c:368-400 | However a message is split into updates, state, buffer and length say exactly the message so far; an update whose length wraps the 32-bit sum with the waiting bytes is lost, and with it exactly the bytes that the wrapped sum no longer counts |
| HashContext.Context.Final | src/sha2.c:403-439 | The digest is the compression iterated over the message with the code's 32-bit length padding, and is left in the state |
| HashContext.PaddingExact | src/sha2.c:403-439 | That padding is the standard's exactly for messages below 2^29 bytes |
| HashSpec.PaddingIs | src/sha2.c:403-439 | The standard padding is one bit, zeros, and the number of bits, highest byte first, up to whole blocks |
| Pbkdf2.HmacInit | src/fastpbkdf2.c:134-179 | For any password: the two contexts have compressed under 0x36 and 0x5c the padded password, or the padded hash of as much of a long one as 32 bits count |
| Pbkdf2.MdPad | src/fastpbkdf2.c:86-92 | The precomputed block ends in the padding for its message length |
| Pbkdf2.Function | src/fastpbkdf2.c:197-241 | For any salt: one raw compression per inner and outer hash and XOR on states give the block T_i of section 5.2 of RFC 8018, with HMAC over the code's hash |
| Pbkdf2.Pbkdf2 | src/fastpbkdf2.c:243-272 | For any password, salt and length: the output is filled with the blocks T_1, T_2, ... as far as the 32-bit block count reaches, and nothing behind changes |
| Pbkdf2.KeyIsWhole | src/fastpbkdf2.c:257-258 | Every byte is filled exactly if the length plus a digest less one fits 32 bits; it is then the derived key of the standard for messages below 2^29 bytes |
| Pbkdf2.BlocksAgree | src/fastpbkdf2.c:134-241 | Cut lengths, the hashed password and 32-bit paddings change no block of the standard as long as the password and the hashed messages stay below 2^29 bytes |
| HashSpec.HmacIs | src/fastpbkdf2.c:164-175 | HMAC with a key of at most a block is the digest of the key, zeros behind it, under 0x5c byte by byte, and of the digest of the same under 0x36 with the message |
| HashSpec.BlockIs | src/fastpbkdf2.c:197-241 | T_i is, byte by byte, the exclusive or of U_1 over salt and block number, U_2 over U_1, and so on |
| HashSpec.DerivedIs | src/fastpbkdf2.c:243-272 | The derived key has the length asked for, and byte j of block i + 1 is that of T_(i+1) |
| Rekey.Database.RekeyV2 | src/codecext.c:394-648 | Any call, over any failure point: it succeeds exactly if the page size stays, there is a kind of cipher for a new key, memory suffices, no operation on the files fails and every page but the lock page can be decrypted; then every such page is under the new key with its text unchanged, and the codec reads and writes with it; on failure the codec is back at the old key, and the file is as it was but for the pages played back, which are under the new key, or the journal left behind holds every page that may differ |
| Rekey.Database.Rewrite | src/codecext.c:561-596 | The transaction: begin, read and make writable page by page, commit or roll back; it succeeds exactly if no operation on the files fails and every page but the lock page can be decrypted; with the pager state at a rollback and the pages it puts back |
| Rekey.Database.RewritePages | src/codecext.c:575-584 | The page loop makes all pages but the lock page writable, exactly if nothing fails and each can be decrypted, or leaves a transaction to roll back |
| Rekey.Database.Leave | src/codecext.c:602-642 | The codec adopts the new key or goes back to the old one; without a cipher it is removed |
| Rekey.Database.Encrypt | src/codecext.c:456-508 | The branch for a plain database: it succeeds exactly if the page size stays, the kind of cipher is known, memory suffices and nothing fails |
| Rekey.Database.Decrypt | src/codecext.c:509-523 | The branch without a new key: it succeeds exactly if nothing fails and every page can be decrypted |
| Rekey.Database.Reencrypt | src/codecext.c:524-559 | The branch with a new key: it succeeds exactly if the page size stays, the kind of cipher is known, memory suffices, nothing fails and every page can be decrypted |
| Rekey.Database.RolledBackOrNot | src/codecext.c:592-633 | After a failure rolled back at once, the file is wholly under the old key exactly if every page played back reads alike under both keys; where the keys tell them apart, exactly if nothing had been written when the rollback began |
| Rekey.PlayedBackOrNot | src/sqlite3mc_vfs.c:879-930 | Played-back pages are under the new key, so the file is wholly under the old one exactly if each of them reads alike under both, for told-apart keys if there is none |
| Rekey.Database.RecoverLater | src/codecext.c:592-633 | A journal left behind by a failure is played back by the restored codec: wholly under the old key exactly if the call was not to decrypt a database, or the played pages read alike without a key |
| Rekey.Database.CanGoOn | src/codecext.c:513-513 | After a failed call the codec can be used again exactly if the call was not to decrypt, which has cleared the write cipher for good |
| Rekey.MixedKeys | src/codecext.c:592-633 | A reachable failure, on reading the third of three pages, after which two pages are under the new key and one under the old, the journal is gone and the codec is back at the old key: no key opens the database |
| RekeyPager.Pager.MakeWritable | src/sqlite3patched.c:65697-65745 | A page goes to the journal, under the read key, before it may change |
| RekeyPager.Pager.WriteOut | src/sqlite3patched.c:64135-64216 | A dirty page goes to the file under the write key, and no other page changes |
| RekeyPager.Pager.Get | src/sqlite3patched.c:65241-65343 | A page is in the cache exactly if nothing fails and it can be decrypted; the pager is in its error state exactly after a severe error while the cache made room, or for a page that cannot be decrypted |
| RekeyPager.Pager.Commit | src/sqlite3patched.c:66171-66446 | A commit succeeds exactly if no operation fails: every dirty page is written and synced before the journal is given up; otherwise the state says how far it came, the error state exactly for a severe error at the very end |
| RekeyPager.Pager.PlayBack | src/sqlite3patched.c:62524-62712 | Every journaled page goes back to the file under the key the codec writes with now, and is synced, exactly if no operation fails; on a failure the journal still holds what may differ |
| RekeyPager.Pager.Rollback | src/sqlite3patched.c:66474-66518 | In the error state, in which a failed decryption leaves the pager too, nothing is played back; otherwise the records that count, if the file was written to |
| RekeyPager.Pager.Recover | src/sqlite3patched.c:62524-62712 | The next reader plays the left journal back with the codec it has |
| RekeyCodec.Codec.Run | src/codecext.c:107-173 | Modes 0, 2 and 3 decrypt with the read key and zero what cannot be decrypted, mode 6 encrypts with the write key, mode 7 with the read key |
| RekeyCodec.Codec.SetupWriteCipher | src/cipher_common.c:276-304 | A new write cipher, the old one freed and the read cipher untouched, or an error that changes nothing |
| RekeyCodec.Codec.CopyReadToWrite | src/cipher_common.c:536-582 | The write side takes over the read key; the old object is reused exactly if its kind is the same, and freed otherwise |
| RekeyCodec.Codec.CopyWriteToRead | src/cipher_common.c:536-582 | The read side takes over the write key, likewise |
| CountedTree.NodeInsert | src/extensionfunctions.c:1930-1950 | Insertion in place keeps the search order and adds exactly one occurrence |
| CountedTree.ModeCtx.ModeStep | src/extensionfunctions.c:1455-1498 | After any steps the tree holds exactly the values fed in, with their counts |
| CountedTree.ModeCtx.ModeFinalize | src/extensionfunctions.c:1573-1588 | The mode, taken from its low 32 bits, exactly if one value is there more often than every other, else NULL |
| CountedTree.ModeIs | src/extensionfunctions.c:1503-1528 | The in-order scan keeps a value exactly when it is the unique mode |
| CountedTree.ModeCtx.QuartileFinalize | src/extensionfunctions.c:1593-1646 | Median and quartiles of the inputs in order: the value at the cut, or the mean of its two neighbours |
| CountedTree.MedianIs | src/extensionfunctions.c:1536-1568 | The weighted scan selects exactly the values on both sides of the cut, once when they are equal |
| CountedTree.QuartileSplits | src/extensionfunctions.c:1593-1646 | For 32-bit values, at most the quarters' share of the values lies below the answer and at most the rest above |
| NameIndex.Directory.SortByFilename | src/miniz.c:3452-3502 | The heap sort leaves every entry once, ordered by folded name |
| NameIndex.Directory.SiftDown | src/miniz.c:3469-3479 | Sinking restores the heap from the root on and permutes only the part below the end |
| NameIndex.Directory.FilenameLess | src/miniz.c:3423-3440 | The comparison is the lexicographic order of the folded names |
| NameIndex.LowerIs | src/miniz.c:3112-3112 | Two bytes fold to the same exactly if they are equal or one letter in its two cases |
| NameIndex.Directory.FilenameCompare | src/miniz.c:4256-4271 | Zero exactly for equal folded names; the sign is the order for names below 2^31 bytes |
| NameIndex.Directory.BinarySearch | src/miniz.c:4273-4311 | An entry is found exactly if one has the folded name, as far as 32 bits of length keep it |
| NameIndex.Directory.Locate | src/miniz.c:4322-4385 | Found exactly if some entry matches under the flags and the comment; the scan finds the first such entry; a name or comment too long for an entry is refused exactly in the scan |
| NameIndex.IndexAgrees | src/miniz.c:4333-4339 | Index and scan agree in every directory exactly for names below 2^32 bytes and those whose length modulo 2^32 is too long for an entry |

## Left out

- Deflate.RoundTrip: for builds without unaligned loads, where the fast parser of `src/miniz.c:1494-1677` and the 64-bit code writer of `src/miniz.c:1091-1184` are not compiled
- LzCompressor.Compressor.Compress: a block whose coded form ends in the last bytes of the output buffer is not followed into the drop of flush bits behind it; the 32-bit block counter does not wrap, as it would after 2^32 blocks of one stream
- LzCompressor.Compressor.constructor: the smaller tables of the low-memory build
- InflateStream.InflateRaw: the wrapping output window, suspension between calls, builds with a bit buffer of 64 bits, and the counts reported by a call that is not done
- Regexp.RegexpFunction: the case-insensitive variant, allocation failure, and the decoding of the pattern's own bytes, which is taken as a list of characters
- RegexPairs.StackedPairs: stacked quantifiers are compared with their meaning for a single character; for other operands the compiled code is exact but its language is not characterised
- RegexSurface.PatternMeans: quantifiers on quantified items, which are those of `RegexPairs`, and a lone backslash at the end of a pattern
- HuffmanBuild.OptimizeTable: what the lengths cost when the limit does cut them
- LzCompressor.Compressor.CompressNormal: when exactly the code buffer is flushed, and how much longer the matches are that the lazy rule finds
- RegexMeaning.EndUnderPlusMisses: one shape only; for which other places of '$' the two readings coincide is not stated
- ChaChaPage.EncryptPage: the key derivation and the salt handling around it, and the SQLCipher and AES page formats
- Poly1305.Poly1305: message and tag in one buffer
- CipherStealing.RoundTrip: the AES rounds and the generator of the vector; lengths between one byte and a block, which the pages never have
- Md5.Md5Context.Final: the 64 steps of the compression function, taken as an arbitrary function
- Pbkdf2.Pbkdf2: threads over the blocks; all three hashes are taken to keep their contexts like SHA-2, from which SHA-1 differs for pieces of 2^29 bytes and more, and the compression functions are arbitrary
- Rekey.Database.RekeyV2: databases in WAL mode, the VACUUM that changes the reserved bytes of pages, failures inside a cipher while it encrypts, and the change counter that a commit puts on the first page
- RekeyPager.Pager.Rollback: savepoints and the subjournal, and journals on devices with safe appends
- CountedTree.ModeCtx.QuartileFinalize: values that are not integers, and variance and deviation, which are floating point
- NameIndex.Directory.Locate: reading the directory itself and ZIP64 headers
- Reading and writing ZIP and PNG files, CSV, configuration pragmas, the other ciphers, random sources and file-system functions are not part of the model
