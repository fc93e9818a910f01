# Cardinal-semicolon: verified models of the kernel's algorithms

Cardinal-semicolon is a freestanding x86_64 kernel. Most of its code drives hardware, but several parts
are algorithms whose correctness is not visible from the code. This project models those parts in Dafny
and proves what they are for. Code that works in place is modelled by methods on arrays and objects,
proved against specification functions; protocols are modelled as state machines over their steps.

The Dafny files fall into five groups.

1. **DEFLATE** (`libs/miniz/miniz.c`, RFC 1951). The compressor's chain behind the match finder (buffer of
   literals and matches, symbol counts, radix sort, in-place minimum-redundancy code lengths, length limiter,
   canonical codes, run-length packing, block header, code body by the portable and by the 64-bit writer, choice
   between stored, static and dynamic blocks) and the decompressor's chain (64-bit bit buffer, block types,
   header, two-level lookup table and tree, slow and fast decoding loop, the three ways of copying a match,
   bytes put back at the end). They are joined by `DeflateStream.RoundTrip`: whatever literals and matches spell
   the data, and whatever the compressor chooses, decompression gives the data back and stops behind the last
   byte of the stream. For input that no compressor wrote, `BlockDecoder` and `StreamDecoder` say what any bits
   at all are read as. `DeflateStream.Inflate` reads them so, and stays within its buffer if and only if no match
   of length 0 in the input overruns it. Because the two chains share their tables, `DeflateStandard` states the
   wire format number by number as RFC 1951 does, and `DeflateExamples` decompresses streams given as bytes.
   `HuffmanOptimal` and `TableOptimal` show that the codes are as short as any. Adler-32 is in `Adler32`.
2. **Memory allocators.** The physical page allocator (`modules/SysPhysicalMemory`) with its ring deque,
   in-ring quicksort and compaction, and the kernel heap (`modules/SysMemory`). Both end in theorems over
   whole runs, and in methods that serve any sequence of requests by such a run: `PageRuns.RunConservesIff` and
   `PageRuns.ServeAll`, `HeapRuns.RequestsDisjoint`, `HeapRuns.HeadersClear` and `HeapRuns.ServeAll`. What
   compaction is for, that neighbouring pages are joined so that larger requests succeed, is `PageJoins`.
3. **Cryptography** (`libs/crypto`). AES-128 in cipher block chaining mode (FIPS 197, NIST SP 800-38A) and
   streaming SHA-256 (FIPS 180-4). Tables, steps and constants are proved against definitions that do not use
   them: the field of 256 elements by polynomials, the rotations bit by bit, the constants by roots of primes
   (`AesField`, `SBox`, `AesStandard`, `Sha256Standard`, `Sha256Constants`). `AesExample` and `Sha256Example`
   follow published vectors step by step.
4. **Indexes and caches** that have to agree with something simple: the symbol table, the list with a
   cursor, the key-value chain, the ring deque. The hash functions are arbitrary.
5. **The transmit ring** of the RTL8169 driver as a protocol between senders and the card. `TxAccounts` follows
   every packet from the call that passes it to the card.

Reading guide for the numbers: `nat` stands for the unsigned machine words of the code. Wrap-around is
written out where it can happen (16-bit weights in `HuffmanMerge.Join`, 16-bit symbol counts in `LzCodes`,
32-bit node count in `Heap`, 32-bit page counts and 64-bit byte counts in `PageCalls` and `PageAllocator`,
64-bit counts and the 32-bit index in `Sha256`, the 64-bit step back in `CursorList`), and proved absent where
it cannot (`Adler32.BlockFits`, `BitStream.PutHolds` for the compressor's bit buffer of 32 bits,
`BitStream.BufferFits` for those of 64 bits, `CanonicalCode.FirstCodeFits`, `LengthLimiter.TotalFits`, `LzCodes.LayoutFacts`,
`PageEntry.TotalFits`). Shifts in the DEFLATE files are the recursive `Shl`, `Shr` and `Mask` of `Bits`. Bytes
of AES are their eight bits. `bool` is an `int` in the kernel's headers (`common/inc/stdbool.h`, line 10), so the
header of a heap block takes 16 bytes and its payload begins right behind it.

## Where the code does less than it says

The model follows the code; each of these has an exact statement.

- The three-byte copy of the decompressor copies before it counts. A match whose length symbol is 286 or 287,
  which section 3.2.6 of RFC 1951 excludes but a table may hold, has length 0, passes the test for room and
  produces three bytes. Hence for all input the output may end up to three bytes behind the buffer, and it
  stays within if and only if no such match is taken, at an accepted distance, with fewer than three bytes left
  (`LzInflate.CopyMatch` for a copy, `LzDecoder.RunInside` for the body of a block, `StreamDecoder.ChainWithin` and
  `DeflateStream.Inflate` for a whole input). Tables without codes for the two symbols suffice
  (`StreamDecoder.ChainPlain`), and what a compressor sent never overruns (`DeflateStream.StreamBack`).
  `LzOverrun.ShortBuffer` decompresses a static block into a buffer of one byte and produces four.
- Compaction (`page_allocator.c`) zeroes the cell of a merged entry wherever it lies but always advances the
  head, so a merge behind a gap drops a live entry. `Compaction.CompactionConserves` gives the exact
  condition under which no page is lost or gained, `Compaction.MergeBehindGap` a concrete loss, and
  `PageRuns.RunConservesIff` carries the condition over whole runs. `PageRuns.LosesPage` is a run of an allocator
  that loses a page.
- Compaction joins neighbours until they would hold 2^20 pages, front to back, and never the last entry. A safe
  request of n pages is served if and only if some range joined so holds n pages (`PageJoins.ServedIff`). For up
  to 2^19 pages, n contiguous pages in entries before the last suffice (`PageJoins.ServesContiguous`); beyond, they
  need not: `PageJoins.HalfIsTight` refuses 2^19 + 1 pages while 2^20 contiguous ones are free.
- Compaction of an empty queue sorts and merges all cells of the ring and subtracts the merges from a count
  of 0: afterwards the queue is a queue if and only if nothing merged (`PageAllocator.Allocator.Compact`). Over
  zeroed memory nothing does (`PageCalls.CleanIdle`); `queue_init` takes memory as it comes, and
  `PageAllocator.StaleCompaction` compacts three leftover words to an entry count of -1.
- `malloc` says it aligns to 16 bytes; it rounds to 8. `Heap.EightTwice` gets the address 0x1028 from two
  requests of 8 bytes. All block addresses stay multiples of 16 over a run if and only if no call splits a block
  at a length that is not a multiple of 16 (`HeapNodes.UsedSixteen`, `HeapRuns.RunSixteen`); 8-byte alignment
  always holds (`HeapRuns.RunTiled`).
- `queue_full` compares the count with the size, which a ring that keeps one cell free never reaches:
  `RingQueue.Queue.Full`.
- `list_rot_prev` at the first element reaches the last one only if the length divides 2^64:
  `CursorList.RotPrevWraps`.
- `kvs_remove` never finds the entry right behind the head: `Kvs.Store.Remove`.
- `sha256_update` counts its bytes with a 32-bit index, so it ends if and only if it gets fewer than 2^32 of
  them: `Sha256.UpdateEnds`.
- A page request of more than 2^43 - 4096 bytes loses its high bits: `PageCalls.RequestFits`.

## Model

| member | source | states |
|---|---|---|
| CanonicalCode.TotalIsTwiceKraft | libs/miniz/miniz.c:2235-2240 | the running total of the table build is twice the Kraft sum, so comparing it with 65536 tests completeness |
| CanonicalCode.CodeFits | libs/miniz/miniz.c:2243-2249 | with Kraft sum at most 1 every canonical code fits its length, and owns the windows from its start on |
| CanonicalCode.PrefixFree | libs/miniz/miniz.c:783-795 | no canonical code is a prefix of another one, for every length vector with Kraft sum at most 1 |
| CanonicalCode.Covered | libs/miniz/miniz.c:2235-2249 | every window below the Kraft sum belongs to some symbol |
| CanonicalCode.CompleteIffCovering | libs/miniz/miniz.c:2240-2242 | the completeness test holds if and only if every 15-bit window begins with the code of some symbol |
| CanonicalCode.FirstCodeFits | libs/miniz/miniz.c:2234-2239 | over at most 2^14 symbols no first code reaches 2^32, so the 32-bit sums of both codecs never wrap |
| CanonicalCode.FewCodesFit | libs/miniz/miniz.c:2240-2242 | the one exception to the test, at most one used symbol, still has Kraft sum at most 1 |
| CodeLoops.CountLengths | libs/miniz/miniz.c:2232-2233 | the histogram holds the number of symbols of every length |
| CodeLoops.ReverseBits | libs/miniz/miniz.c:2248-2249 | the reversed code read from its low end is the code path, in both directions of the codec |
| InflateTrie.NodesOfCompleteCode | libs/miniz/miniz.c:2258-2274 | a complete code has fewer inner tree nodes than symbols |
| InflateTrie.CompleteIsRoomy | libs/miniz/miniz.c:2258-2274 | so no node of a complete code over at most 288 symbols leaves the 576-entry tree |
| InflateTrie.SingleIsRoomy | libs/miniz/miniz.c:2258-2274 | nor does the chain of a single long code |
| InflateTrie.GrowBuilt | libs/miniz/miniz.c:2266-2269 | making a tree node on the way to a code keeps every entered code decodable and every link right |
| InflateTrie.PutBuilt | libs/miniz/miniz.c:2273-2274 | writing the symbol at the end of its way completes it and disturbs no other |
| InflateTrie.FillBuilt | libs/miniz/miniz.c:2251-2255 | filling the lookup cells of a short code completes it and disturbs no other |
| InflateTable.HuffTable.Clear | libs/miniz/miniz.c:2230-2231 | both tables become the empty trie |
| InflateTable.NextCodes | libs/miniz/miniz.c:2234-2239 | the next-code table, computed in 32 bits, holds the first canonical code of every length; used symbols and total are exact |
| InflateTable.HuffTable.InsertShort | libs/miniz/miniz.c:2250-2257 | one more symbol with a code of at most 10 bits is decodable, all earlier ones stay so |
| InflateTable.HuffTable.EnterTree | libs/miniz/miniz.c:2258-2262 | the tree is entered at the node of the first ten bits, made if it was not there |
| InflateTable.HuffTable.Descend | libs/miniz/miniz.c:2263-2273 | the walk for a long code ends at the place of its path, creating nodes only inside the tree |
| InflateTable.HuffTable.InsertLong | libs/miniz/miniz.c:2258-2274 | one more symbol with a longer code is decodable, all earlier ones stay so |
| InflateTable.HuffTable.InsertAll | libs/miniz/miniz.c:2243-2275 | all symbols are entered |
| InflateTable.HuffTable.Build | libs/miniz/miniz.c:2228-2275 | for every length vector: accepted if and only if the code is complete or has at most one symbol, and then the tables decode it |
| InflateTable.DecodesOf | libs/miniz/miniz.c:2228-2275 | a window that begins with a code decodes, by the tables, to its symbol and length |
| InflateTable.DecodesNone | libs/miniz/miniz.c:2228-2275 | one that begins with no code decodes to symbol 0; no window takes more than 15 bits |
| InflateTable.DecodesMiss | libs/miniz/miniz.c:2100-2110 | such a window is given up after no bit if its first ten lead to no longer code, and otherwise where it leaves the tree |
| InflateTable.FoundWhole | libs/miniz/miniz.c:2051-2074 | a code found within the bits read so far is a whole code: no longer code agrees with those bits |
| InflateTable.HuffTable.DecodeWindow | libs/miniz/miniz.c:2100-2110 | lookup and tree walk give what the tables say about the window, and the walk ends |
| InflateTable.HuffTable.Peek | libs/miniz/miniz.c:2051-2074 | tells whether the bits read so far hold the whole next code, in both directions |
| InflateTable.HuffTable.Decode | libs/miniz/miniz.c:2100-2113 | the window decodes to exactly the symbol and code length it begins with; every window does when the code is complete; symbol 0 when no code matches |
| HuffmanMerge.TwoChildren | libs/miniz/miniz.c:689-703 | the two-queue merge gives every inner node exactly two children, for all weights and with 16-bit wrap-around |
| HuffmanMerge.TreeBalanced | libs/miniz/miniz.c:707-723 | on every level, leaves and inner nodes together are twice the inner nodes above |
| HuffmanMerge.TreeComplete | libs/miniz/miniz.c:681-724 | the leaf depths have Kraft sum exactly 1 |
| MinRedundancy.JoinInPlace | libs/miniz/miniz.c:689-703 | the first pass leaves the parent of every inner node, never reading an overwritten weight |
| MinRedundancy.ParentsToDepths | libs/miniz/miniz.c:704-706 | the second pass turns parents into depths |
| MinRedundancy.DepthsToLengths | libs/miniz/miniz.c:707-723 | the third pass overwrites them with non-increasing leaf depths, each as often as in the tree |
| MinRedundancy.CalculateMinimumRedundancy | libs/miniz/miniz.c:681-724 | for every array: each weight is replaced by the depth of its leaf in the two-queue tree, non-increasing, and 1 for a single symbol; for positive weights in increasing order that sum to less than 2^16 no prefix code spends fewer bits |
| HuffmanDepth.Climbs | libs/miniz/miniz.c:692-703 | every merge keeps the total weight, and a node of height h weighs at least the Fibonacci number of h + 2 |
| HuffmanDepth.DepthBound | libs/miniz/miniz.c:771-772 | for counts that sum to less than 2^16 no code is longer than 22 bits, so the 33-entry histogram is not overrun |
| HuffmanOptimal.JoinShortens | libs/miniz/miniz.c:689-703 | any prefix code becomes one for the weights with the two lightest joined, shorter by at least their sum |
| HuffmanOptimal.LowerBound | libs/miniz/miniz.c:689-703 | however far joining has got, no prefix code for what is left costs less than the joins to come |
| HuffmanOptimal.TreeCost | libs/miniz/miniz.c:704-723 | the bits that the tree spends are the sum of its inner weights |
| HuffmanOptimal.TreeOptimal | libs/miniz/miniz.c:681-724 | so no prefix code for the weights spends fewer bits than the two-queue tree |
| HuffmanOptimal.DepthsDescend | libs/miniz/miniz.c:707-723 | the depths of the leaves never increase with the weights, whatever the weights |
| LengthLimiter.FoldLong | libs/miniz/miniz.c:735-736 | all codes beyond the limit are counted at the limit |
| LengthLimiter.SumUp | libs/miniz/miniz.c:737-738 | the 32-bit total is the Kraft sum on the scale of the limit, modulo 2^32 |
| LengthLimiter.TotalFits | libs/miniz/miniz.c:732-738 | that sum is below 2^32 for every histogram the limiter gets, so the total is exact |
| LengthLimiter.SplitOne | libs/miniz/miniz.c:740-747 | one round keeps the number of codes, keeps all counts non-negative and lowers the Kraft sum by one unit |
| LengthLimiter.EnforceMaxCodeSize | libs/miniz/miniz.c:730-749 | ends with the same number of codes, none beyond the limit, Kraft sum exactly 1; changes nothing when no code was too long |
| RadixSort.Histograms | libs/miniz/miniz.c:655-659 | both byte histograms count the symbols |
| RadixSort.Offsets | libs/miniz/miniz.c:664-668 | the offset of a byte value is the number of symbols with a smaller one |
| RadixSort.Distribute | libs/miniz/miniz.c:669-670 | one pass is the stable concatenation of the 256 buckets |
| RadixSort.Sort | libs/miniz/miniz.c:651-678 | a permutation ordered by count and, among equal counts, by symbol; also when the high pass is skipped |
| DeflateTable.CollectUsed | libs/miniz/miniz.c:762-766 | exactly the symbols with a non-zero count, in symbol order |
| DeflateTable.LimitedHistogram | libs/miniz/miniz.c:769-774 | a complete histogram within the limit for any sorted counts; that of the tree itself if the tree is within the limit |
| DeflateTable.AssignSizes | libs/miniz/miniz.c:778-780 | the lengths are handed out from the most frequent symbol on, shortest first, and used up exactly |
| DeflateTable.PickedIsTree | libs/miniz/miniz.c:768-780 | if the tree is within the limit, every symbol gets the depth of its own leaf |
| DeflateTable.MoreOftenShorter | libs/miniz/miniz.c:768-780 | a more frequent symbol never has a longer code |
| DeflateTable.SmallSumShallow | libs/miniz/miniz.c:771-772 | counts that sum to less than 2^16 never make a code too long for the 33-entry histogram |
| DeflateTable.StartCodes | libs/miniz/miniz.c:783-785 | the compressor's first codes, computed in 32 bits, are those the decompressor computes |
| DeflateTable.AssignCodes | libs/miniz/miniz.c:787-795 | every used symbol gets its canonical code with the bits reversed |
| DeflateTable.OptimizeTable | libs/miniz/miniz.c:751-796 | used symbols and only they get a length within the limit; two or more form a complete code, which passes the decompressor's test, and have the depths of their leaves if the tree is within the limit; codes are the canonical ones |
| TableOptimal.CostSorted | libs/miniz/miniz.c:768-780 | a code spends as many bits in the order of the counts as in the order of the symbols |
| TableOptimal.FitsSorted | libs/miniz/miniz.c:768-780 | prefix codes stay prefix codes in the order of the counts |
| TableOptimal.TableIsOptimal | libs/miniz/miniz.c:751-796 | for counts that sum to less than 2^16 and whose tree is within the limit, no prefix code for the used symbols spends fewer bits than the table |
| CodeLengthRle.Packer.FlushRepeats | libs/miniz/miniz.c:816-834 | a pending run of repeats becomes tokens that stand for exactly that run |
| CodeLengthRle.Packer.FlushZeros | libs/miniz/miniz.c:836-860 | a pending run of zeros becomes tokens that stand for exactly that run |
| CodeLengthRle.Pack | libs/miniz/miniz.c:885-912 | for every sequence of lengths: the packed bytes expand to it again, are never longer, and the token counts are exact |
| CodeLengthRle.NoLeadingRepeat | libs/miniz/miniz.c:2284-2286 | tokens that expand never start with a repeat, so the decompressor's rejection is never met |
| CodeLengthRle.ExpandPrefix | libs/miniz/miniz.c:2277-2292 | the expansion of a prefix is a strictly growing prefix of the expansion |
| CodeLengthRle.Store | libs/miniz/miniz.c:2280-2291 | one token is applied in place and never writes beyond the 457-entry array |
| BitStream.BitWriter.Put | libs/miniz/miniz.c:798-814 | appends exactly the given bits, low bit first, whatever is pending in the bit buffer, which stays within 32 bits; whole bytes leave it, and are dropped once the output is full |
| BitStream.PutHolds | libs/miniz/miniz.c:804-805 | up to 16 bits above at most 7 pending ones fit the 32-bit buffer without overflow |
| BitStream.BitWriter.Fits | libs/miniz/miniz.c:1084-1084 | the test for room is true exactly when all bits written so far are in the output |
| BitStream.BitWriter.Align | libs/miniz/miniz.c:1153-1155 | pads to a whole byte with zero bits, if it is not one |
| BitStream.BitReader.NeedByte | libs/miniz/miniz.c:2004-2022 | one more byte enters the bit buffer above the bits there, without overflow of 64 bits, and the bits ahead stay the same; fails exactly at the end of the input |
| BitStream.BitReader.NeedWord | libs/miniz/miniz.c:2315-2319 | four bytes enter at once and the bits ahead stay the same; at most 61 bits are ever in use |
| BitStream.AheadWord | libs/miniz/miniz.c:2316-2318 | a little-endian word of input is its four bytes one after the other |
| BitStream.BitReader.GetBits | libs/miniz/miniz.c:2034-2045 | fills the buffer byte by byte and takes exactly the next bits of the stream; fails exactly when too few are left |
| BitStream.BitReader.SkipBits | libs/miniz/miniz.c:2023-2033 | drops exactly the next bits |
| BitStream.BitReader.SkipToByte | libs/miniz/miniz.c:2162-2162 | drops the rest of the current byte, wherever the buffer stands |
| BitStream.BitReader.PutBack | libs/miniz/miniz.c:2443-2448 | the bytes read ahead go back, so that the input continues right behind the last byte used |
| SymbolStream.PutSymbol | libs/miniz/miniz.c:929-935 | appends the code path of the symbol |
| SymbolStream.FillBuffer | libs/miniz/miniz.c:2087-2099 | afterwards the next code is in the bit buffer, also when only a few bits are left; fails only if the bits end before a symbol can be read |
| SymbolStream.EnoughWindow | libs/miniz/miniz.c:2047-2050 | with the bits read so far the zero-padded window begins with just the code that the stream begins with |
| SymbolStream.TakeSymbol | libs/miniz/miniz.c:2327-2337 | with enough bits in the buffer the table gives the symbol whose code comes next, or symbol 0 for bits without a code, and consumes just its bits |
| SymbolStream.GetSymbol | libs/miniz/miniz.c:2082-2114 | for all bits: that symbol with just its bits consumed, up to the last bit of the input; fails exactly if the bits end before one can be read |
| SymbolStream.TakesOnce | libs/miniz/miniz.c:2082-2114 | for all bits there is only one symbol to read and one rest to leave |
| LzTables.LengthBack | libs/miniz/miniz.c:591-607 | for all 256 lengths the decompressor's base and extra bits give back the length that the compressor's tables encode |
| LzTables.DistanceBack | libs/miniz/miniz.c:609-645 | the same for all 32768 distances, small and large |
| DeflateStandard.LengthSymbols | libs/miniz/miniz.c:2117-2118 | first length and extra bits of every length symbol, as section 3.2.5 of RFC 1951 lists them |
| DeflateStandard.DistanceSymbols | libs/miniz/miniz.c:2119-2120 | first distance and extra bits of every distance symbol, as section 3.2.5 of RFC 1951 lists them |
| DeflateStandard.LengthInRange | libs/miniz/miniz.c:591-607 | for all lengths the compressor sends the symbol in whose range the length lies, with its extra bits; 258 has a symbol of its own |
| DeflateStandard.DistanceInRange | libs/miniz/miniz.c:609-645 | the same for all distances |
| LzCodes.PackedAppend | libs/miniz/miniz.c:1466-1475 | a byte of flags precedes every eight codes, however the buffer grew |
| LzCodes.Recorded | libs/miniz/miniz.c:1466-1503 | storing a code and shifting in its flag extends the packed codes by it, in an open group and when it is the eighth |
| LzCodes.CountedSums | libs/miniz/miniz.c:1474-1502 | the literal counts sum to the number of codes, the distance counts to no more |
| LzCodes.LayoutFacts | libs/miniz/miniz.c:1466-1503 | n codes take more than n + n/8 bytes, so the 16-bit counts of a full buffer cannot wrap |
| LzCodes.LzBuffer.Reset | libs/miniz/miniz.c:1177-1182 | an empty block, whatever the first byte of the buffer held |
| LzCodes.LzBuffer.RecordLiteral | libs/miniz/miniz.c:1466-1475 | the literal is appended to the recorded codes and counted; two bytes of room are enough |
| LzCodes.LzBuffer.RecordMatch | libs/miniz/miniz.c:1477-1503 | the match is appended and both its symbols are counted; four bytes of room are enough, and so the eight left at a flush test hold a literal and a match |
| LzCodes.LzBuffer.Close | libs/miniz/miniz.c:1110-1111 | the used part of the buffer is the packed form of all codes recorded, without a trailing flags byte |
| LzStream.UnreadCode | libs/miniz/miniz.c:1054-1077 | the lowest flag, above the marker bit, tells matches from literals all through a group |
| LzStream.PutMatch | libs/miniz/miniz.c:1057-1074 | length and distance symbols with their extra bits |
| LzStream.PutBody | libs/miniz/miniz.c:1048-1085 | for every packed buffer: the codes in order and the end-of-block symbol; tells exactly whether the output holds them |
| LzWide.BytesMove | libs/miniz/miniz.c:1024-1027 | storing the word and keeping what is above its whole bytes is sending the bytes one by one |
| LzWide.WordWriter.Put | libs/miniz/miniz.c:970-974 | collects the given bits; there is room for them within 64 bits |
| LzWide.WordWriter.Store | libs/miniz/miniz.c:1021-1027 | the bits collected and those stored are the bits written; fewer than 8 stay |
| LzWide.PutMatchWide | libs/miniz/miniz.c:981-1000 | length and distance symbols with their extra bits, at most 48 in all |
| LzWide.PutRound | libs/miniz/miniz.c:981-1019 | a match, or up to three literals in a row, as the flags say |
| LzWide.PutBodyWide | libs/miniz/miniz.c:961-1046 | the 64-bit writer sends the same bits as the portable one, and succeeds exactly when they fit |
| LzExpand.CopiedRepeats | libs/miniz/miniz.c:2396-2436 | every byte of a copy equals the one a distance before it, overlapping or not |
| LzExpand.SpelledExpands | libs/miniz/miniz.c:2300-2437 | codes that spell data, each match a true repeat in it, expand to that data, or stop for room exactly when it does not fit |
| LzExpand.ExpandedSpells | libs/miniz/miniz.c:2300-2437 | conversely, codes spell what they expand to |
| LzExpand.SpellsSplit | libs/miniz/miniz.c:2300-2439 | codes cut into two parts spell the data cut in two |
| LzDecoder.LengthIs | libs/miniz/miniz.c:2372-2378 | a decoded length is 0 or from 3 to 258, and 0 exactly for the length symbols 286 and 287 |
| LzDecoder.StepInside | libs/miniz/miniz.c:2302-2436 | one decoded item passes the end of the buffer, by at most three bytes, if and only if it is a copy of length 0 with fewer than three bytes left |
| LzDecoder.RunInside | libs/miniz/miniz.c:2300-2437 | for all bits: decoding never gets further than three bytes past the end, and stays within if and only if no such item is met |
| LzDecoder.PlainInside | libs/miniz/miniz.c:2300-2437 | a table without codes for 286 and 287 keeps all decoding within the buffer |
| LzDecoder.SendsMatch | libs/miniz/miniz.c:2372-2387 | reading a match that was sent gives back its length and distance |
| LzDecoder.TakenOnly | libs/miniz/miniz.c:2302-2387 | on codes that were sent, what is read is the item that comes next, and just its bits are consumed |
| LzDecoder.TakenOnce | libs/miniz/miniz.c:2302-2387 | for all bits there is only one item to read and one rest to leave |
| LzDecoder.RunFollows | libs/miniz/miniz.c:2300-2437 | on codes that were sent, every state of decoding is that of expanding them one by one |
| LzInflate.CopyBytes | libs/miniz/miniz.c:2396-2403 | the byte-wise copy, up to the end of the buffer, and whether it fits |
| LzInflate.CopyWord | libs/miniz/miniz.c:2409-2410 | a 32-bit load and store is four single copies at a distance of four or more |
| LzInflate.CopyWide | libs/miniz/miniz.c:2406-2422 | copying eight bytes at a time is the byte-wise copy for matches that do not overlap themselves |
| LzInflate.CopyThrees | libs/miniz/miniz.c:2424-2436 | copying three bytes at a time is the byte-wise copy, also when source and target overlap, of never less than three bytes |
| LzInflate.CopyMatch | libs/miniz/miniz.c:2389-2436 | any match, by whichever of the three ways; the copy stays within the buffer if and only if it is not of length 0 with fewer than three bytes left |
| LzInflate.GetDistance | libs/miniz/miniz.c:2380-2387 | symbol and extra bits give the distance; fails exactly when the bits end before |
| LzInflate.GetMatch | libs/miniz/miniz.c:2372-2387 | length and distance are those of the item that comes next, and nothing after it is consumed; fails exactly when no item can be read |
| LzInflate.GetOne | libs/miniz/miniz.c:2303-2310 | a turn at the ends of the buffers decodes and writes one literal, or finds another symbol, or stops for room |
| LzInflate.GetTwo | libs/miniz/miniz.c:2311-2367 | a turn of the fast loop is two such turns from one refill of the bit buffer, and never stops for room |
| LzInflate.GetLiterals | libs/miniz/miniz.c:2302-2368 | literals up to the next symbol that is none |
| LzInflate.FinishItem | libs/miniz/miniz.c:2369-2436 | the end of the block, or one match; a distance beyond the output fails |
| LzInflate.GetBody | libs/miniz/miniz.c:2300-2437 | for all bits: what is in the buffer and left of the input is a run of the decoder, no byte three or more behind the end is touched |
| LzInflate.BodyExpands | libs/miniz/miniz.c:2300-2437 | on codes that were sent it ends done, failed or out of room exactly as they demand, with exactly their bytes |
| LzInflate.BodyInside | libs/miniz/miniz.c:2396-2436 | the exact condition for staying within the buffer, for the whole body |
| LzInflate.BodyOnce | libs/miniz/miniz.c:2300-2437 | the bits decide which items of a body are read, where it ends and how |
| LzOverrun.ShortRun | libs/miniz/miniz.c:2396-2436 | in a buffer of one byte a literal and a copy of length 0 produce four bytes, in every prefix code that has them |
| LzOverrun.ShortChain | libs/miniz/miniz.c:2158-2449 | however a static block with them is read, it is one block with four bytes, and the input overflows the buffer |
| LzOverrun.ShortBuffer | libs/miniz/miniz.c:2158-2449 | the decompressor does so on the bytes of a static block: done, with four bytes in a buffer of one |
| StaticCode.StaticSizes | libs/miniz/miniz.c:942-951 | both codecs set the same lengths; `DeflateStandard.StaticCodes` and `DeflateStandard.StaticDistances` say in numbers which |
| DeflateStandard.FirstCodeZero | libs/miniz/miniz.c:2234-2249 | the first of the canonical codes is all zeros, as section 3.2.2 of RFC 1951 demands |
| DeflateStandard.NextCode | libs/miniz/miniz.c:2234-2249 | each canonical code is the one before it plus one, with a zero appended for every bit it is longer |
| DeflateStandard.StaticCodes | libs/miniz/miniz.c:2203-2210 | length and code of all 288 literal symbols in numbers: the four ranges of section 3.2.6 of RFC 1951 |
| DeflateStandard.StaticDistances | libs/miniz/miniz.c:2202-2202 | the 32 distance symbols are five-bit numbers |
| StaticCode.StaticComplete | libs/miniz/miniz.c:2197-2211 | both static codes are complete, so the decompressor accepts them |
| StaticCode.StaticTable | libs/miniz/miniz.c:754-795 | the static branch of the table builder makes the canonical codes of the given lengths |
| DynamicHeader.Trim | libs/miniz/miniz.c:874-879 | only unused symbols are cut off, and never below the minimum |
| DynamicHeader.SentSizes | libs/miniz/miniz.c:921-924 | the code lengths that are not sent, in the header's order, are all zero |
| DynamicHeader.WriteHeader | libs/miniz/miniz.c:864-936 | the bits written are a header for the trimmed lengths, with a code under which every token can be sent |
| DynamicHeader.GetCounts | libs/miniz/miniz.c:2212-2215 | for all bits: the three counts, failing exactly when fewer than 14 bits are left |
| DynamicHeader.GetSizes | libs/miniz/miniz.c:2216-2221 | for all bits: the lengths in the order of the header, failing exactly when the bits end before; `DeflateStandard.SizesPlaces` says in numbers which bits hold which length |
| DeflateStandard.SizesPlaces | libs/miniz/miniz.c:2121-2121 | place by place, which three bits hold the length of which code-length symbol, and that those not sent are zero |
| DynamicHeader.CountsBack | libs/miniz/miniz.c:2212-2215 | counts that were sent are read back |
| DynamicHeader.SizesBack | libs/miniz/miniz.c:2216-2221 | a code-length code that was sent is read back |
| DynamicBlock.GetToken | libs/miniz/miniz.c:2279-2289 | for all bits: the token that comes next with its extra bits; fails exactly when there is none or it repeats nothing |
| DeflateStandard.TokenMeaning | libs/miniz/miniz.c:2279-2291 | what each code-length symbol stands for and how many extra bits it has, as in section 3.2.7 of RFC 1951 |
| DynamicBlock.GetLengths | libs/miniz/miniz.c:2277-2295 | for all bits: the code lengths that the tokens expand to, failing exactly when they do not end at the announced number; what it accepts is the expansion of the tokens it read |
| DynamicBlock.LengthsBack | libs/miniz/miniz.c:2277-2295 | packed lengths that were sent are read back and nothing after them is consumed |
| DynamicBlock.ReadHeader | libs/miniz/miniz.c:2212-2298 | for all bits: accepts exactly those that are a header, with the code lengths they say |
| DynamicBlock.HeaderBack | libs/miniz/miniz.c:2212-2298 | any header the compressor can write is read back exactly |
| DynamicBlock.AcceptedTrimmed | libs/miniz/miniz.c:2240-2242 | cutting off unused symbols keeps a table acceptable |
| DynamicBlock.BodyTrimmed | libs/miniz/miniz.c:874-879 | and leaves the code of every symbol sent the same |
| Blocks.SpelledEffect | libs/miniz/miniz.c:2161-2437 | a stored, static or dynamic block that stands for data produces it, or stops for room exactly when it does not fit |
| BlockWriter.BlockCounts | libs/miniz/miniz.c:865-870 | the counts of any recorded block suit both tables |
| BlockWriter.BlockTables | libs/miniz/miniz.c:865-870 | both tables have a code for everything the block sends, and none for symbols not in use |
| BlockWriter.BlockSent | libs/miniz/miniz.c:874-879 | lengths without their trailing zeros describe the same block |
| BlockWriter.PutDynamic | libs/miniz/miniz.c:864-936 | a valid dynamic block with the recorded codes; succeeds exactly when it fits |
| BlockWriter.PutStatic | libs/miniz/miniz.c:938-957 | the same for a static block |
| BlockWriter.StaticFits | libs/miniz/miniz.h:804-819 | whatever the code buffer can hold fits the output as a static block, which is what the ratio of the two sizes is for |
| BlockWriter.PutStored | libs/miniz/miniz.c:1133-1142 | a valid stored block of the bytes, which begin at a whole byte |
| BlockWriter.FlushBlock | libs/miniz/miniz.c:1096-1149 | for any recorded codes and flags: one block that stands for the same bytes, also when it is sent again because it did not fit or did not shrink; all of it is in the output |
| BlockDecoder.BytesPrefix | libs/miniz/miniz.c:2188-2192 | bits that begin with whole bytes are those bytes and the rest |
| BlockDecoder.BlockInside | libs/miniz/miniz.c:2158-2438 | for all bits: a block of any type ends at most three bytes past the buffer, and within it if and only if it began there and no item of its body overruns it |
| BlockDecoder.BlockOnce | libs/miniz/miniz.c:2158-2438 | the bits decide the result of a block, the number of its bytes, the bits it uses and whether it overruns the buffer |
| BlockDecoder.BlockPlain | libs/miniz/miniz.c:2158-2438 | a block whose table has no codes for 286 and 287 stays within the buffer |
| BlockDecoder.StoredBack | libs/miniz/miniz.c:2161-2193 | a stored block gives its bytes, or stops for room exactly when they do not fit |
| BlockDecoder.TablesBack | libs/miniz/miniz.c:2197-2299 | fixed or transmitted lengths: those of any valid block are read back, and its codes are next in the input |
| BlockDecoder.BlockBack | libs/miniz/miniz.c:2158-2438 | any valid block of the three types is read as what it stands for |
| StreamDecoder.ChainOnce | libs/miniz/miniz.c:2158-2439 | the bits decide how block after block is read |
| StreamDecoder.ChainWithin | libs/miniz/miniz.c:2158-2439 | for all bits and buffers: the output ends at most three bytes past the buffer, and within it if and only if no match of length 0 in the input overruns it |
| StreamDecoder.ChainPlain | libs/miniz/miniz.c:2158-2439 | input whose tables have no codes for 286 and 287 never leaves the buffer |
| StreamDecoder.ResultOnce | libs/miniz/miniz.c:2158-2439 | result, size of the output and bits used do not depend on what the buffer held before |
| BlockReader.GetKind | libs/miniz/miniz.c:2159-2160 | mark and type of the block, failing exactly when fewer than three bits are left |
| BlockReader.CopyBuffered | libs/miniz/miniz.c:2172-2179 | the bytes of a stored block that were read ahead are taken from the bit buffer |
| BlockReader.MoveInput | libs/miniz/miniz.c:2180-2193 | the others are moved from the input, in pieces; ends done, out of room or out of input exactly when it is |
| BlockReader.ReadStored | libs/miniz/miniz.c:2161-2193 | for all bits: refuses a wrong length exactly, otherwise copies as many bytes as are wanted, are there and have room, and says which it was |
| BlockReader.Inflater.BuildTables | libs/miniz/miniz.c:2228-2242 | accepts exactly complete codes and codes of at most one symbol |
| BlockReader.Inflater.ReadTables | libs/miniz/miniz.c:2197-2299 | for all bits: the tables of the fixed lengths or of those in the header; fails exactly when the bits are no header or a code is refused |
| BlockReader.Inflater.ReadBlock | libs/miniz/miniz.c:2158-2438 | for all bits: the block is read as they say, from the output before it to the output after it |
| DeflateStream.SpelledStream | libs/miniz/miniz.c:2158-2439 | blocks that stand for consecutive parts of data produce the data, or stop for room exactly when it does not fit |
| DeflateStream.AlignedBoth | libs/miniz/miniz.c:1134-1136 | the bytes of stored blocks begin at whole bytes, counted from either end of the stream |
| DeflateStream.Flush | libs/miniz/miniz.c:1096-1155 | the bytes handed on and the bits pending are the block behind the bits pending before; nothing is pending behind the last one |
| DeflateStream.Deflate | libs/miniz/miniz.c:1576-1616 | for all codes that spell the data, all choices of block ends, block types and writer: bytes of a stream of valid blocks that stand for the data, only the last one marked |
| DeflateStream.Inflate | libs/miniz/miniz.c:2158-2449 | for all input: ends, having read block after block as the bits say, each behind the one before, up to the last one or the first failure; stays within the buffer if and only if the input does not overflow it, and is never more than three bytes past it; the bytes used are those up to the end of the last block (the numbers of the format are in `DeflateStandard`, whole streams in `DeflateExamples.InflateExamples`) |
| DeflateStream.StreamBack | libs/miniz/miniz.c:2158-2449 | a stream of valid blocks gives what they stand for, uses just its own bytes and never overflows |
| DeflateStream.FollowedBy | libs/miniz/miniz.c:2441-2449 | whatever bytes follow, the blocks of the stream are read the same |
| DeflateStream.RoundTrip | libs/miniz/miniz.c:2158-2449 | for all data, codes that spell it, choices of the compressor, buffer sizes and bytes behind the stream: the data comes back and just the bytes sent are used, or decompression stops for room exactly when it does not fit; the buffer is never left |
| DeflateExamples.OneLiteral | libs/miniz/miniz.c:2197-2211 | the bytes 4b 04 00 are a static block with the literal 97, then six zero bits |
| DeflateExamples.LettersAndMatch | libs/miniz/miniz.c:2300-2437 | nine bytes of a static block with six literals and a match of length 12 at distance 6 |
| DeflateExamples.OneStored | libs/miniz/miniz.c:2161-2193 | six bytes of a stored block with one byte |
| DeflateExamples.OneDynamic | libs/miniz/miniz.c:2212-2298 | thirteen bytes of a dynamic block with one literal: counts, code-length code, packed lengths and codes |
| DeflateExamples.InflateExamples | libs/miniz/miniz.c:2158-2449 | the decompressor gives for each of these streams exactly its data, and uses exactly its bytes |
| Adler32.BlockFits | libs/miniz/miniz.c:45-57 | over 5552 bytes the unreduced sums stay below 2^32, from any 16-bit start |
| Adler32.LongerBlockOverflows | libs/miniz/miniz.c:41-41 | over 5553 bytes they can reach 2^32, so the bound is tight |
| Adler32.DeferredModulo | libs/miniz/miniz.c:57-57 | reducing once per block equals reducing after every byte |
| Adler32.ChecksumConcat | libs/miniz/miniz.c:39-62 | the checksum of a concatenation continues the checksum of the first part |
| Adler32.AddBlock | libs/miniz/miniz.c:45-56 | the unrolled loop adds the exact block sums without overflow |
| Adler32.Compute | libs/miniz/miniz.c:39-62 | equals the definition of section 2.2 of RFC 1950 from every 32-bit start, also when the first block is empty; 1 for no buffer |
| Adler32.ClosedForm | libs/miniz/miniz.c:39-62 | from 1, the low half is 1 plus the bytes and the high half n plus byte i taken n - i times, both modulo 65521 |
| Ring.CellsApart | modules/SysPhysicalMemory/src/page_allocator.c:60-62 | indices less than a ring apart address different cells, so the exclusive-or swap never meets itself |
| Ring.WholeRotated | common/src/queue.c:66-71 | advancing the head rotates the ring |
| PageSort.XorCancel | modules/SysPhysicalMemory/src/page_allocator.c:60-62 | three exclusive-ors exchange two values |
| PageSort.Swap | modules/SysPhysicalMemory/src/page_allocator.c:60-62 | exactly two places of the window are exchanged |
| PageSort.Scan | modules/SysPhysicalMemory/src/page_allocator.c:50-55 | both scans stop inside the window, at entries on the wrong side of the pivot |
| PageSort.Partition | modules/SysPhysicalMemory/src/page_allocator.c:43-64 | for every window, wrapping or not: a permutation divided at the returned place, cells outside untouched |
| PageSort.Quicksort | modules/SysPhysicalMemory/src/page_allocator.c:65-78 | terminates with a permutation of the window ordered by packed address, cells outside untouched |
| RingQueue.Queue.constructor | common/src/queue.c:12-28 | an empty queue over the given memory |
| RingQueue.Queue.EntCnt | common/src/queue.c:47-53 | the number of elements of the abstract sequence |
| RingQueue.Queue.Full | common/src/queue.c:55-58 | never reports full, in any reachable state |
| RingQueue.FullTest | common/src/queue.c:66-66 | the index comparison holds if and only if size - 1 entries are held |
| RingQueue.Queue.TryEnqueue | common/src/queue.c:60-74 | appends at the back of the sequence; fails exactly with size - 1 entries and then changes nothing |
| RingQueue.Queue.TryEnqueueFront | common/src/queue.c:76-96 | prepends at the front, around the end of the ring too; fails exactly with size - 1 entries |
| RingQueue.Queue.TryDequeue | common/src/queue.c:98-114 | takes the front element and clears its cell; fails exactly when empty |
| RingQueue.Queue.Peek | common/src/queue.c:116-127 | the front element, or nothing exactly when empty |
| PageEntry.BuildFields | modules/SysPhysicalMemory/src/page_allocator.c:25-30 | address and page count survive packing for addresses below 2^56 and up to 2^20 pages |
| PageEntry.TotalFits | modules/SysPhysicalMemory/src/page_allocator.c:132-132 | disjoint ranges below 2^56 hold at most 2^44 pages, so the byte count cannot wrap |
| Compaction.PassTimes | modules/SysPhysicalMemory/src/page_allocator.c:88-102 | the merging pass keeps every page and leaves one zero word, which reads as page 0, per merge |
| Compaction.KeptIff | modules/SysPhysicalMemory/src/page_allocator.c:95-100 | for any entries: the queue keeps its pages if and only if all words dropped from its front are zero |
| Compaction.CompactionConserves | modules/SysPhysicalMemory/src/page_allocator.c:88-102 | for sorted disjoint entries: pages are conserved if and only if the merges are one run at the front, up to the exact exception for a lone page 0 |
| Compaction.CompactionLoses | modules/SysPhysicalMemory/src/page_allocator.c:88-102 | otherwise a page of the queue, other than page 0, is lost |
| Compaction.ConservesOnce | modules/SysPhysicalMemory/src/page_allocator.c:178-222 | once a compaction has conserved the pages, a second one changes nothing |
| Compaction.MergeBehindGap | modules/SysPhysicalMemory/src/page_allocator.c:95-100 | on pages 1, 3, 4 and 9 compaction loses page 1 and invents page 0 |
| Compaction.LeadingOnce | modules/SysPhysicalMemory/src/page_allocator.c:88-102 | after a run of merges at the front the queue is sorted, and a second compaction changes nothing |
| RingCompaction.MergePair | modules/SysPhysicalMemory/src/page_allocator.c:89-101 | one loop round merges exactly the adjacent pairs that fit, in the ring; `PageJoins.JoinedUp` says in page numbers which these are |
| RingCompaction.MergePass | modules/SysPhysicalMemory/src/page_allocator.c:88-102 | the loop computes the merging pass of the window and advances head and count by the number of merges |
| PageAllocator.Allocator.constructor | modules/SysPhysicalMemory/src/page_allocator.c:240-244 | over zeroed memory the allocator starts sound |
| PageAllocator.Allocator.Compact | modules/SysPhysicalMemory/src/page_allocator.c:80-103 | what remains is the merging pass over a sorted permutation of the entries; on an empty queue all cells are sorted, the count drops by the number of merges, and the queue stays valid if and only if there are none; what is joined is `PageJoins.JoinedUp` |
| PageJoins.JoinedUp | modules/SysPhysicalMemory/src/page_allocator.c:88-102 | after a compaction that keeps the pages, no entry but the last two ends where the next one starts, unless both together hold 2^20 pages or more |
| PageJoins.KeptFills | modules/SysPhysicalMemory/src/page_allocator.c:88-102 | after it, some entry holds n pages if and only if some range of the sorted entries, joined from its front while below 2^20 pages, does |
| PageAllocator.Allocator.InsertQueue | modules/SysPhysicalMemory/src/page_allocator.c:105-112 | appends at once if there is room, otherwise after compaction, and panics exactly when that merged nothing |
| PageAllocator.Allocator.InsertQueueFront | modules/SysPhysicalMemory/src/page_allocator.c:114-121 | the same at the front |
| PageAllocator.Allocator.Probe | modules/SysPhysicalMemory/src/page_allocator.c:181-219 | one entry is split with the rest put back in front, or moved to the end; neither panic is reachable |
| PageAllocator.Allocator.Search | modules/SysPhysicalMemory/src/page_allocator.c:179-220 | finds the first large enough entry if there is one; a fruitless rotation restores the queue |
| PageAllocator.Allocator.Attempt | modules/SysPhysicalMemory/src/page_allocator.c:178-222 | one search with its compaction keeps all pages, or hands out exactly the requested ones |
| PageAllocator.Allocator.Alloc | modules/SysPhysicalMemory/src/page_allocator.c:158-225 | for every 64-bit size: never panics, and serves from the first large enough entry, of the queue or else of a compaction of it, or fails when neither has one; for safe calls success takes exactly the requested pages, failure keeps all pages, and it succeeds if and only if a joined range of the queue is large enough; the byte count follows modulo 2^64 |
| PageJoins.ServedIff | modules/SysPhysicalMemory/src/page_allocator.c:158-225 | a safe request is served if and only if some joined range of the sorted queue holds so many pages |
| PageJoins.ServedFits | modules/SysPhysicalMemory/src/page_allocator.c:158-225 | the same, whichever of the sorted orders the code makes |
| PageJoins.ContiguousFills | modules/SysPhysicalMemory/src/page_allocator.c:88-102 | contiguous entries before the last are joined to all their pages, or to n of them, for n up to 2^19 |
| PageJoins.ServesContiguous | modules/SysPhysicalMemory/src/page_allocator.c:158-225 | a safe request of up to 2^19 pages is served if so many contiguous pages lie in entries before the last |
| PageJoins.HalfIsTight | modules/SysPhysicalMemory/src/page_allocator.c:93-95 | 2^19 + 1 pages are refused while 2^20 contiguous ones lie in two entries before the last |
| PageAllocator.Allocator.FreeChunk | modules/SysPhysicalMemory/src/page_allocator.c:146-154 | one entry of up to 2^20 pages is queued |
| PageAllocator.Allocator.Free | modules/SysPhysicalMemory/src/page_allocator.c:123-156 | for all 64-bit arguments: misaligned ones panic and change nothing, others queue their entries one after the other; a safe free adds exactly the freed pages |
| PageCalls.RequestFits | modules/SysPhysicalMemory/src/page_allocator.c:174-175 | the 32-bit page count is right if and only if the request is at most 2^43 - 4096 bytes |
| PageCalls.CleanIdle | modules/SysPhysicalMemory/src/page_allocator.c:81-84 | over cleared memory an empty queue has nothing to merge |
| PageCalls.GentleCompaction | modules/SysPhysicalMemory/src/page_allocator.c:88-102 | on a queue, a compaction that meets the condition keeps every page, and another one changes nothing |
| PageCalls.AllocKeeps | modules/SysPhysicalMemory/src/page_allocator.c:158-225 | any outcome the code allows for a safe request hands out exactly the requested pages, or keeps all pages with none large enough |
| PageCalls.AllocLoses | modules/SysPhysicalMemory/src/page_allocator.c:158-225 | any outcome of any other request loses a queued page: it is neither queued nor handed out afterwards |
| PageCalls.FreeKeeps | modules/SysPhysicalMemory/src/page_allocator.c:123-156 | any outcome for a safe free succeeds and adds exactly the freed pages |
| PageCalls.FreeLoses | modules/SysPhysicalMemory/src/page_allocator.c:123-156 | any outcome of any other free, short of a panic, loses a page that was queued or freed |
| PageAllocator.StaleCompaction | modules/SysPhysicalMemory/src/page_allocator.c:81-84 | compacting an empty queue over three leftover words leaves the entry count at -1 |
| PageRuns.OwnedNotQueued | modules/SysPhysicalMemory/src/page_allocator.c:123-156 | memory that callers hold, or that was never donated, is in no queue entry |
| PageRuns.CallConserves | modules/SysPhysicalMemory/src/page_allocator.c:123-225 | one call keeps queued and outstanding pages a partition of the donated ones; an allocation gives exactly the requested pages, none outstanding; a refusal means that no entry is large enough |
| PageRuns.CallConservesIff | modules/SysPhysicalMemory/src/page_allocator.c:123-225 | a call in range by an owner keeps that partition if and only if each compaction it makes meets the condition |
| PageRuns.RunConserves | modules/SysPhysicalMemory/src/page_allocator.c:80-225 | over every run whose compactions meet the condition: entries and outstanding allocations are disjoint, their union is the donated memory, no page is handed out twice, and free_mem is 4096 times the queued pages |
| PageRuns.RunConservesIff | modules/SysPhysicalMemory/src/page_allocator.c:80-225 | over every run: that holds at each point of it if and only if each compaction on the way meets the exact condition |
| PageRuns.Serve | modules/SysPhysicalMemory/src/page_allocator.c:123-225 | any call in range by an owner does what the runs describe, safe or not, or panics in a free that finds no room; a safe one keeps the partition |
| PageRuns.ServeAll | modules/SysPhysicalMemory/src/page_allocator.c:80-225 | serving any sequence of safe requests on a fresh allocator is such a run, from the first call to the last |
| PageRuns.LosesPage | modules/SysPhysicalMemory/src/page_allocator.c:80-156 | five pages freed into a queue of four: page 1 is then neither outstanding nor queued |
| PageRuns.ServesJoined | modules/SysPhysicalMemory/src/page_allocator.c:80-225 | pages 3, 4, 5, 6 and 9 freed one by one into a fresh allocator: a request of four pages gets those from page 3 on |
| HeapNodes.AllocSizeFits | modules/SysMemory/src/allocator.c:61-63 | the page request is the least whole number of pages that holds the block and its header |
| HeapNodes.GrownTiled | modules/SysMemory/src/allocator.c:65-86 | a block over fresh pages extends the tiling by exactly those pages |
| HeapNodes.UsedTiled | modules/SysMemory/src/allocator.c:88-112 | splitting a block keeps the regions aligned, disjoint and covering the same bytes |
| HeapNodes.UsedSixteen | modules/SysMemory/src/allocator.c:88-112 | a block list aligned to 16 bytes stays so if and only if the block is not split or the wanted length is a multiple of 16 |
| HeapNodes.Apart | modules/SysMemory/src/allocator.c:17-23 | in a tiling the regions of two blocks do not overlap |
| Heap.KernelHeap.FindBest | modules/SysMemory/src/allocator.c:38-54 | the smallest free block that fits, the first among equals, or none exactly when none fits |
| Heap.KernelHeap.Grow | modules/SysMemory/src/allocator.c:57-86 | the new block is linked behind the root |
| Heap.KernelHeap.Take | modules/SysMemory/src/allocator.c:88-113 | the block is cut to size when more than a header is left over, and marked used |
| Heap.KernelHeap.Malloc | modules/SysMemory/src/allocator.c:28-118 | served from the best fit; new pages are taken only if nothing fits; the list of blocks stays a tiling of the pages obtained |
| Heap.KernelHeap.Free | modules/SysMemory/src/allocator.c:135-162 | exactly one block becomes free; freeing a free block panics and changes nothing |
| Heap.EightTwice | modules/SysMemory/src/allocator.c:28-36 | two requests of 8 bytes on a fresh heap return 0x1010 and 0x1028, which is not a multiple of 16 |
| HeapRuns.MallocGives | modules/SysMemory/src/allocator.c:28-118 | the caller gets a block of at least the wanted size that was not in use, and all blocks in use stay |
| HeapRuns.MallocCuts | modules/SysMemory/src/allocator.c:28-118 | a call takes the smallest free block that is large enough, or the fewest new pages exactly if there is none; from it a block is cut with the wanted length, the rest becoming a free block if more than a header is left |
| HeapRuns.FreeGives | modules/SysMemory/src/allocator.c:135-162 | all other blocks in use stay |
| HeapRuns.RunTiled | modules/SysMemory/src/allocator.c:28-162 | in every reachable state the regions are 8-byte aligned, disjoint and tile exactly the pages obtained |
| HeapRuns.LiveUntilFreed | modules/SysMemory/src/allocator.c:28-162 | over every run a block in use keeps its address and length until it is freed |
| HeapRuns.RequestsDisjoint | modules/SysMemory/src/allocator.c:28-162 | over every run two requests that are both in use have disjoint payloads |
| HeapRuns.HeadersClear | modules/SysMemory/src/allocator.c:92-109 | over every run no header lies in a payload in use |
| HeapRuns.RunSixteen | modules/SysMemory/src/allocator.c:28-118 | over every run all blocks are 16-byte aligned if and only if no call splits at a length that is not a multiple of 16, and then so is every pointer returned |
| HeapRuns.Serve | modules/SysMemory/src/allocator.c:28-162 | a call on the heap is a step of such a run |
| HeapRuns.ServeAll | modules/SysMemory/src/allocator.c:28-162 | serving any sequence of requests on a fresh heap is such a run, from the first call to the last |
| GaloisField.MultiplyXor | libs/crypto/aes.c:361-365 | multiplication by a constant is linear |
| GaloisField.MixedByTotal | libs/crypto/aes.c:335-340 | the shared-sum form of the code is the matrix product of section 5.1.3 of FIPS 197 |
| GaloisField.MixRoundTrip | libs/crypto/aes.c:331-391 | the inverse mixing matrix undoes the mixing matrix |
| AesField.XTimeIs | libs/crypto/aes.c:326-327 | the shift of the code is multiplication by x in the field of section 4.2 of FIPS 197, defined by polynomials modulo x^8 + x^4 + x^3 + x + 1 |
| AesField.MultiplyIs | libs/crypto/aes.c:361-365 | the multiplication of the code, by constants of up to five bits, is the product in that field |
| AesField.AffineIs | libs/crypto/aes.c:99-125 | bit by bit, the map of equation 5.1 of FIPS 197 |
| SBox.SubByteIs | libs/crypto/aes.c:99-125 | for all 256 bytes the table holds that map of the inverse in the field, and of zero for zero |
| SBox.SubRoundTrip | libs/crypto/aes.c:99-149 | the inverse table undoes the table for all 256 bytes |
| AesRounds.BlockRoundTrips | libs/crypto/aes.c:276-429 | each round step is undone by its inverse |
| AesStandard.SubIs | libs/crypto/aes.c:287-294 | in every row and column, the map of section 5.1.1 of FIPS 197, and its inverse |
| AesStandard.ShiftIs | libs/crypto/aes.c:299-324 | row r of column c comes from column c + r, and goes back |
| AesStandard.TripleIs | libs/crypto/aes.c:335-350 | the sum of a byte and its double is its product with 3 |
| AesStandard.MixIs | libs/crypto/aes.c:331-350 | every byte of a mixed column is the row of 02, 03, 01, 01 times the column, with products in the field |
| AesStandard.InvMixIs | libs/crypto/aes.c:373-391 | every byte of an unmixed column is the row of 0e, 0b, 0d, 09 times the column |
| AesStandard.RconIs | libs/crypto/aes.c:154-156 | round constant i is x^(i-1) in the field |
| AesRounds.Halfway | libs/crypto/aes.c:432-476 | after every round of decryption the block is what it was at that point of encryption |
| AesRounds.CipherRoundTrip | libs/crypto/aes.c:432-476 | decryption undoes encryption for every block and every round-key array |
| AesState.AddRoundKey | libs/crypto/aes.c:276-283 | the state in place becomes the sum with the round key |
| AesState.SubBytes | libs/crypto/aes.c:287-294 | every byte is substituted once, by the map of `AesStandard.SubIs` |
| AesState.InvSubBytes | libs/crypto/aes.c:395-402 | every byte is substituted back once, which undoes that map |
| AesState.ShiftRows | libs/crypto/aes.c:299-324 | row r moves r columns to the left |
| AesState.InvShiftRows | libs/crypto/aes.c:404-429 | row r moves r columns to the right |
| AesState.MixColumns | libs/crypto/aes.c:331-350 | every column is mixed in place |
| AesState.InvMixColumns | libs/crypto/aes.c:373-391 | every column is unmixed in place |
| AesState.Cipher | libs/crypto/aes.c:432-453 | the state becomes the encrypted block: ten rounds of the steps of `AesStandard`, as `AesExample.Vector` follows them |
| AesState.InvCipher | libs/crypto/aes.c:455-476 | the state becomes the decrypted block |
| AesCbc.KeyExpansion | libs/crypto/aes.c:208-272 | all 44 words of the schedule satisfy the recurrence of section 5.2 of FIPS 197, with the substitution of `SBox.SubByteIs` and the constants of `AesStandard.RconIs` |
| AesExample.VectorKeys | libs/crypto/aes.c:20-21 | the eleven round keys of the key of the test vector, for any schedule that satisfies the recurrence |
| AesExample.Vector | libs/crypto/aes.c:14-24 | under that schedule the plain block 6bc1bee2...7393172a becomes 3ad77bb4...2466ef97 |
| AesCbc.CbcRoundTrip | libs/crypto/aes.c:523-589 | for every key schedule, mask and message, chained decryption of the chained encryption is the message |
| AesCbc.CbcAt | libs/crypto/aes.c:529-582 | each block is masked by the cipher block before it and the first one by the vector, in both directions, as section 6.2 of NIST SP 800-38A states |
| AesCbc.EncryptSplit | libs/crypto/aes.c:529-548 | chained encryption of a concatenation continues with the last block as the mask |
| AesCbc.DecryptSplit | libs/crypto/aes.c:563-582 | the same for decryption |
| AesCbc.Aes.XorWithIv | libs/crypto/aes.c:514-521 | one block of the buffer is masked in place, the rest untouched |
| AesCbc.Aes.EncryptBlock | libs/crypto/aes.c:539-548 | input and output blocks, the next mask and everything left alone |
| AesCbc.Aes.DecryptBlock | libs/crypto/aes.c:574-582 | output block, the next mask and everything left alone |
| AesCbc.Aes.Prepare | libs/crypto/aes.c:529-537 | without a key the schedule stays, without a vector the chain goes on |
| AesCbc.Aes.EncryptBuffer | libs/crypto/aes.c:523-555 | the output is the chained encryption of the input, block by block as in `AesCbc.CbcAt`, and the mask is left for a following call |
| AesCbc.Aes.DecryptBuffer | libs/crypto/aes.c:557-589 | the output is the chained decryption of the input, and the mask is left for a following call |
| AesCbc.RoundTrip | libs/crypto/aes.c:523-589 | encrypting a buffer and decrypting the result gives back every byte |
| AesCbc.EncryptInTwo | libs/crypto/aes.c:523-555 | encrypting a buffer in two calls, the second without key and vector, gives the bytes of one call on the whole |
| AesCbc.DecryptInTwo | libs/crypto/aes.c:557-589 | the same for decryption |
| Sha256Block.Schedule | libs/crypto/sha256.c:52-56 | all 64 words of the message schedule |
| Sha256Block.Transform | libs/crypto/sha256.c:49-88 | the state becomes the compression of state and block of section 6.2.2 of FIPS 180-4; its functions and constants are those of the standard by `Sha256Standard` and `Sha256Constants.ConstantsAre` |
| Sha256Standard.BigSums | libs/crypto/sha256.c:28-29 | bit by bit, the two sums of three rotations of section 4.1.2 of FIPS 180-4 |
| Sha256Standard.SmallSums | libs/crypto/sha256.c:30-31 | bit by bit, the two sums of two rotations and a shift |
| Sha256Standard.Choices | libs/crypto/sha256.c:26-27 | bit by bit, the choice between two words and the majority of three |
| Sha256Standard.ToWordIs | libs/crypto/sha256.c:52-53 | a word of the block is the number its four bytes write, most significant first |
| Sha256Constants.SievedIsPrime | libs/crypto/sha256.c:34-46 | numbers below 324 are prime if and only if no smaller prime up to 17 divides them |
| Sha256Constants.PrimesAre | libs/crypto/sha256.c:34-46 | the table of primes that the constants are roots of lists the first 64, without a gap |
| Sha256Constants.ConstantsAre | libs/crypto/sha256.c:34-46 | each of the 64 constants is the first 32 bits of the fraction of the cube root of its prime |
| Sha256Constants.SquareRoots | libs/crypto/sha256.c:93-100 | each initial word is the first 32 bits of the fraction of the square root of one of the first eight primes |
| Sha256Example.Compressed | libs/crypto/sha256.c:49-88 | compression of the one block of the message "abc", round by round |
| Sha256.BigEndianValue | libs/crypto/sha256.c:137-144 | the length bytes, read most significant first, are the length |
| Sha256.PaddingMeets | libs/crypto/sha256.c:122-144 | the padding is the byte 0x80, zero bytes only, and the length in bits that ends a block, as section 5.1.1 of FIPS 180-4 demands |
| Sha256.Context.constructor | libs/crypto/sha256.c:90-101 | the context of the empty message |
| Sha256.Context.UpdateByte | libs/crypto/sha256.c:107-113 | one byte more, whether or not it completes a block |
| Sha256.Context.Update | libs/crypto/sha256.c:103-115 | the context of the message with the bytes appended |
| Sha256.UpdateEnds | libs/crypto/sha256.c:104-106 | the loop with its 32-bit index ends if and only if there are fewer than 2^32 bytes |
| Sha256.Context.Pad | libs/crypto/sha256.c:122-130 | the mark and zeros behind the rest of the message, as `Sha256.PaddingMeets` demands |
| Sha256.Context.PutLength | libs/crypto/sha256.c:137-144 | the eight length bytes, and nothing else |
| Sha256.LastBlocks | libs/crypto/sha256.c:122-145 | the one or two last blocks are the padded rest, in both residue cases |
| Sha256.Context.Final | libs/crypto/sha256.c:117-160 | the digest of the padded message |
| Sha256.Output | libs/crypto/sha256.c:150-159 | each word most significant byte first |
| Sha256Standard.DigestIs | libs/crypto/sha256.c:150-159 | four bytes of the digest write a word of the state, most significant first |
| Sha256.HashParts | libs/crypto/sha256.c:90-160 | however the message is split into updates, the digest is that of the concatenation; `Sha256Example.Abc` gives it for "abc" |
| Sha256Example.Abc | libs/crypto/sha256.c:90-160 | the digest of "abc" is ba7816bf...f20015ad |
| SymbolDb.ResolveRule | kernel/src/symbol_db.c:148-161 | the rule: nothing without a definition, the first strong definition if there is one, otherwise the last one |
| SymbolDb.AddAgrees | kernel/src/symbol_db.c:117-167 | storing a definition in either slot keeps every name, of every hash, resolving by the rule |
| SymbolDb.RefusedOnly | kernel/src/symbol_db.c:195-232 | a definition that no slot takes has both its places among those of earlier names, and does not follow a weak definition |
| SymbolDb.SourcedNext | kernel/src/symbol_db.c:117-167 | storing a definition keeps every slot a place of the name in it, and of one that was added |
| SymbolDb.SymbolTable.AddEntry | kernel/src/symbol_db.c:117-167 | only an empty slot or a weak definition of the same name is overwritten |
| SymbolDb.SymbolTable.Add | kernel/src/symbol_db.c:195-232 | panics exactly when the table is full or neither slot takes the symbol; below 65413 symbols that is only if both places of its name are places of names added before, and never for the successor of a weak definition; a slot's name never changes |
| SymbolDb.SymbolTable.FindFunc | kernel/src/symbol_db.c:234-282 | returns what the rule gives for the definitions added so far |
| SymbolDb.SymbolTable.EntryMatch | kernel/src/symbol_db.c:169-193 | the slot's symbol exactly when it has the name |
| SymbolDb.SymbolTable.FindMatch | kernel/src/symbol_db.c:284-313 | the same result, with a panic exactly for an unknown name in a non-empty table |
| TxRing.InitialInv | drivers/rtl8169/src/driver.c:155-161 | the ring as set up satisfies the invariant |
| TxRing.NicKeeps | drivers/rtl8169/src/driver.c:86-90 | the card's step keeps it, and there is a packet to send |
| TxRing.CopyKeeps | drivers/rtl8169/src/driver.c:93-93 | copying byte by byte keeps it |
| TxRing.SetOwnKeeps | drivers/rtl8169/src/driver.c:96-99 | handing over the descriptor keeps it and submits the complete packet |
| TxRing.StepKeeps | drivers/rtl8169/src/driver.c:76-104 | every step of every sender and of the card keeps it |
| TxRing.OwnedWindow | drivers/rtl8169/src/driver.c:99-100 | the card owns exactly the descriptors from its cursor up to the driver's index |
| TxRing.NoOwnedWrite | drivers/rtl8169/src/driver.c:93-99 | no buffer or length that the card owns is ever written |
| TxRing.FullRingMoves | drivers/rtl8169/src/driver.c:86-90 | while a sender waits for a descriptor the card has something to send |
| TxRing.RunSends | drivers/rtl8169/src/driver.c:76-104 | in every interleaving the packets sent are a prefix of those submitted, in order and unchanged; that these are the packets of the calls is `TxAccounts.RunDelivers` |
| TxAccounts.StepAccounts | drivers/rtl8169/src/driver.c:76-104 | one step adds what it calls with to the packets waiting, in hand or submitted, and loses none |
| TxAccounts.RunAccounts | drivers/rtl8169/src/driver.c:76-104 | in every interleaving and for every packet: waiting, in hand and submitted it is as often as it was called with, from the calls alone |
| TxAccounts.RunDelivers | drivers/rtl8169/src/driver.c:76-104 | so each packet is sent whole and no more often than it was called with, at most 1024 are on their way, and a call not sent yet is waiting, in hand or in the ring |
| TxAccounts.AllSent | drivers/rtl8169/src/driver.c:76-104 | in an idle ring every packet has been sent exactly as often as it was called with |
| TxAccounts.FullIs | drivers/rtl8169/src/driver.c:86-90 | between two packets the driver finds its descriptor taken if and only if 1024 packets are on their way |
| CursorList.List.constructor | common/src/list.c:11-21 | the empty list |
| CursorList.List.Append | common/src/list.c:23-47 | appends to the sequence and keeps the cursor; without memory it fails and changes nothing |
| CursorList.List.Seek | common/src/list.c:142-152 | the cursor walks to any index from wherever it is |
| CursorList.List.At | common/src/list.c:112-156 | the element at the index whatever the cursor, or nothing beyond the end |
| CursorList.Bypass | common/src/list.c:85-89 | the neighbours of a node are linked to each other, all other links stay |
| CursorList.List.Unlink | common/src/list.c:83-101 | the node at the cursor leaves the sequence |
| CursorList.List.Remove | common/src/list.c:56-102 | removes the element at the index and resets the cursor; does nothing beyond the end |
| CursorList.List.Fini | common/src/list.c:104-110 | terminates with the empty list |
| CursorList.List.RotNext | common/src/list.c:158-166 | the cyclically next element |
| CursorList.List.RotPrev | common/src/list.c:168-176 | the previous element, and from the first one the element at 2^64 - 1 modulo the length |
| CursorList.RotPrevWraps | common/src/list.c:174-174 | that is the last element if and only if the length divides 2^64; with three elements it is the first |
| CursorList.List.RotateAll | common/src/list.c:158-166 | as many rotations as elements visit each exactly once and return to the start |
| Kvs.FindsOwn | libs/kvs/kvs.c:230-253 | the search for an added key ends at its own entry and at no other, for every hash |
| Kvs.MatchRule | libs/kvs/kvs.c:230-253 | keys match exactly if their hashes do and their characters, as far as both go; different keys of one length never match |
| Kvs.ClipRule | libs/kvs/kvs.h:32-32 | two keys are stored as one exactly if they are equal or agree in 228 characters |
| Kvs.AddKeepsOthers | libs/kvs/kvs.c:67-92 | every added key stays findable with its own entry when another one is added |
| Kvs.Store.constructor | libs/kvs/kvs.c:25-38 | an empty chain whose head never matches, whatever its memory held |
| Kvs.Store.Find | libs/kvs/kvs.c:230-253 | the first matching entry, or not-found exactly when none matches; a stored key is found with what the map of the chain holds for it |
| Kvs.Store.Add | libs/kvs/kvs.c:67-92 | refuses exactly the keys that match, otherwise puts the entry first, which adds it to the map of the chain; entries never match each other |
| Kvs.Store.Get | libs/kvs/kvs.c:128-140 | the value that the map of the chain holds under the entry's key, and only under the type it was added with |
| Kvs.Store.Fetch | libs/kvs/kvs.c:128-140 | looking a stored key up and reading it gives what was last stored under it, from anywhere in the chain |
| Kvs.Store.AddAll | libs/kvs/kvs.c:67-92 | over any sequence of adds every accepted key keeps its value and type, and so does everything stored before |
| Kvs.Store.Set | libs/kvs/kvs.c:188-197 | changes that one value in the map, only under the same type |
| Kvs.Store.Remove | libs/kvs/kvs.c:267-287 | removes an entry, and its key from the map, if and only if it is in the chain and not right behind the head |

## Left out

- The match finder, which picks the literals and matches: any choice that spells the data is covered.
- Zlib wrappers, sync and full flushes, the suspend and resume coroutine, output that wraps around, and the PNG and ZIP parts of miniz.
- The variants of the decoding loop and of the stored words for machines without 64-bit registers or unaligned access.
- DeflateStream.Flush: sync and full flushes, which put an empty stored block behind it, are not modelled.
- DeflateStream.Deflate: the codes, the block ends and whether the bytes of a block are still in the dictionary come from the match finder and are parameters; the dictionary itself is not modelled.
- DeflateStream.Inflate: the input is given as a whole.
- TableOptimal.TableIsOptimal: optimality once the limiter has to shorten codes is not claimed; its heuristic need not find the best limited code.
- DeflateTable.OptimizeTable: requires counts whose tree is not deeper than 32, because the code indexes its 33-entry histogram without a test; counts that sum to less than 2^16 are such (`DeflateTable.SmallSumShallow`), and those of a block are (`BlockWriter.BlockCounts`).
- LengthLimiter.EnforceMaxCodeSize: the histogram is required to be complete with at least two codes and to fit the limit, as the code needs for its loop to end; the compressor always meets this (`DeflateTable.LimitedHistogram`).
- The 32-bit flag of page allocation: flags are cleared on entry, so its branch is dead. Domains and colours are ignored by the code as well.
- PageRuns.ServeAll: runs in which a compaction loses a page are served call by call (`PageRuns.Serve`), because an empty queue over leftover words, which they can lead to, is outside of `PageAllocator.Allocator.Alloc`.
- PageAllocator.Allocator.Attempt: a queue that is empty over leftover words is excluded, because compacting it leaves no queue (`PageAllocator.Allocator.Compact`).
- PageAllocator.Allocator.Alloc: the same. Conservation is stated where the compactions of the call meet the exact condition; elsewhere a page is lost (`PageCalls.AllocLoses`).
- PageAllocator.Allocator.Free: conservation is stated for ranges below 2^56, beyond which an entry cannot hold the address, and where the compactions of the call meet the exact condition; elsewhere a page is lost (`PageCalls.FreeLoses`).
- PageSort.Partition: the sum of the window indices is required to be below 2^31, where the signed 32-bit sum of the code is defined.
- PageSort.Quicksort: window indices are required to be below 2^30, which gives that for every part. A comment promises recursion into the smaller part while the code recurses into the larger one; sorting does not depend on it, and no stack bound is claimed.
- Start-up of the page allocator from the memory map, and the registry it reads.
- A failing page allocation or mapping inside `malloc`: the code does not check for it. `base` stands for the address the mapping returns.
- Heap.KernelHeap.Grow: the fresh pages are required to be aligned to 8 bytes and outside all owned ones, as mapping gives them, and the block length to fit the 32-bit length field.
- Heap.KernelHeap.Malloc: requests whose block length does not fit the 32-bit length field are outside the model.
- The interrupt disabling around `malloc` and `free`, and `mem_compact`, which is empty.
- Null pointers passed to the queue, list and key-value functions, and a failing allocation in `queue_init`.
- AesCbc.Aes.Prepare: the mask is kept as a value, where the code keeps the caller's pointer.
- AesCbc.Aes.EncryptBlock: the cipher works on a separate 16-byte state that is copied to the output instead of on the output itself, and the mask is a copy of the output block instead of a pointer to it.
- AesCbc.Aes.DecryptBlock: the same, with a copy of the input block as the mask.
- AesCbc.Aes.EncryptBuffer: lengths that are not multiples of 16 are left out; for them the code rounds up and reaches beyond the buffers.
- AesCbc.Aes.DecryptBuffer: the same, and input and output have to be different buffers.
- Sha256.Context.Update: at most 2^32 - 1 bytes per call, because the code does not end on more (`Sha256.UpdateEnds`).
- Sha256.HashParts: the same for each part.
- AES in electronic codebook mode, and key sizes other than 128 bits.
- HMAC, the module verifier, the ELF loaders, the registry, all other drivers and the receive path of the RTL8169.
- The ELF tables behind the symbol table: a symbol is its name, its binding and an identity. Memory behind stored pointers is taken to stay as it was.
- TxRing: the card is assumed to walk the ring in order, to send what a descriptor it owns holds and to clear ownership; memory accesses take effect in program order.
- Fairness of the transmit lock.
- CursorList.List.Remove: freed memory is not modelled; removed nodes are merely no longer part of the list.
- Kvs.Store.Add: entries are taken to come from zeroed memory, because the copied key is not terminated by the code.
- Kvs.Store.Remove: the recursive deletion of child chains is not modelled, nor are the lock flags of entries.
