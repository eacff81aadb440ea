# Verified models of gzip, lzop, dpkg and two drawing and monitoring routines

This project models the algorithmic core of five source files in Dafny and proves what they
are for.

* `busybox/archival/gzip.c` is a complete DEFLATE compressor.  The model keeps its stages and its
  state: the sliding window with hash chains, lazy matching, token buffers, Huffman trees built
  in a heap and repaired to a length limit, run-length coded tree headers, the choice between
  stored, static and dynamic blocks, and the 32-bit bit accumulator in front of an output buffer.
  The module `Inflate` is a reference decoder written from RFC 1951 alone.  The main theorem
  (`GzipFile.Zip`) says that this decoder turns the compressor's output back into its input, for
  every input and every way in which reads deliver it.  That it compresses is stated on input and
  tokens alone (`LazyChoice.LazyTokens`): where a token starts, a repetition that the search can
  find is taken or given up for a longer one at the next position.
* `busybox/archival/lzop.c`: the in-place LZO1X stream optimiser preserves what a stream decodes to,
  and its effect is exactly that of a walk over the decoder's instructions which removes matches of
  three shapes (`LzoWalk`); the Adler-32 checksum with deferred reduction is the one of RFC 1950.
* `busybox/archival/dpkg.c`: Debian version ordering is a total preorder that agrees with comparing
  parsed versions and puts tildes, letters and numbers where Debian's policy wants them, the three hash tables keep every entry reachable, and the dependency walk over
  flattened edges, which searches these tables, agrees with the clauses they came from.
* `nuklear_rawfb.h`: an integer line is the set of nearest pixels, clipped.
* `cad_rescue_gui.c`: the process monitor's two history tables and its streaming ranking.

Code that works in place is modelled by classes and arrays whose methods are proved against
specification functions; the properties of those functions are lemmas.

## How the modules fit together

| modules | part |
|---|---|
| `Arith`, `Bits` | powers, sums and C operators on numbers; bit strings |
| `Inflate`, `Canonical` | the reference decoder; canonical codes |
| `RollingHash`, `HashChains`, `FileReader`, `SlidingWindow`, `MatchSearch`, `LazyChoice`, `LazyMatching`, `LazyLaws` | LZ77 stage |
| `Tokens`, `TokenBuffer`, `MatchCodes`, `BlockData`, `TokenCosts` | tokens, their buffers, bits and costs |
| `TreeHeap`, `HuffmanCost`, `HuffmanTree`, `TreeSums`, `TreeDepths`, `BitLengths`, `CodeSpace`, `LengthLimit`, `TreeLengths`, `CodeTables`, `TreeBuilder` | Huffman codes |
| `RunLengths`, `TreeSender`, `DynamicHeader`, `FixedCodes`, `BlockCodec`, `BlockTrees`, `BlockWriter` | headers and blocks |
| `BitWriter`, `GzipFile` | output and the whole file |
| `LzoFormat`, `LzoWalk`, `LzoRewrite`, `LzoInvariant`, `LzoProgress`, `LzoOptimize`, `Adler32` | lzop |
| `VersionOrder`, `VersionCompare`, `VersionLaws`, `DoubleHashing`, `NameTable`, `PackageTable`, `StatusTable`, `Dependencies`, `DependencyCheck` | dpkg |
| `StrokeLine` | lines |
| `TopList`, `ProcessHistory`, `ProcessScan` | process monitor |

## Where comments and code disagree

The model follows the code.

* gzip.c:1350 says that a forced code is 0 or 1.  It is 2 exactly when code 1 is the only one that
  occurs (`TreeBuilder.TwoForced`), and the costs stay exact (`TreeBuilder.CostsPaid`).
* gzip.c:736 asserts that there is lookahead enough in the window.  Every call of
  `MatchSearch.LongestMatch` satisfies this until the end of the file has been seen.  From then on
  the model does not rely on the assertion: its window has MIN_LOOKAHEAD more bytes with arbitrary
  contents, and the clip at gzip.c:1840 makes the match that is sent correct.
* dpkg.c:95 says that a package is stored more than once if its versions differ.  The code at
  dpkg.c:1003-1014 can also store a package beside an equal one (`PackageTable.StoredTwice`), and
  `PackageTable.Packages.AddProvided` says exactly when it does not.
* cad_rescue_gui.c:3085-3086 says that processes beyond the full history table are shown with 0
  percent.  `ProcessScan.OneTooMany` shows one with 100 percent, and `ProcessScan.BeyondTable` says
  exactly when 0 is shown.

## Model

| member | source | states |
|---|---|---|
| GzipFile.Zip | busybox/archival/gzip.c:2064-2101 | The file written is a gzip file (section 2.3 of RFC 1952): fixed header, blocks that the reference decoder of RFC 1951 turns into exactly the delivered input, checksum and length; everything is delivered unless a read fails. It takes at most four bytes for each token and 24 more, and the tokens are those of the lazy choice. For every input and every way the reads chop it. |
| GzipFile.StartBlocks | busybox/archival/gzip.c:2068-2083 | The first eight header bytes have been sent and the block state describes an empty block. |
| GzipFile.StartWindow | busybox/archival/gzip.c:2083-2094 | After lm_init and the last header bytes the state is the one from which deflate runs: window filled, nothing recorded, ten bytes sent. |
| GzipFile.WriteTrailer | busybox/archival/gzip.c:2098-2102 | The complement of the checksum over all delivered bytes and the number of bytes modulo 2^32, least significant byte first, end the file. |
| LazyMatching.Deflate | busybox/archival/gzip.c:1810-1912 | Across lazy matching, window slides, block ends and the pending literal at the end, the blocks sent decode to exactly the bytes the reader delivered; the last block is marked and padded to a byte. The tokens obey LazyTokens, a law on input and tokens alone, and take at most 32 bits each. |
| LazyMatching.DeflateStep | busybox/archival/gzip.c:1819-1907 | One round keeps: sent blocks decode to the input before the block, recorded tokens expand to the input up to the (possibly pending) position, a pending match is a repetition in the input, and all tokens and the pending match are chosen by the rules. |
| LazyMatching.Search | busybox/archival/gzip.c:1823-1850 | A match that is kept, also after the clip to the lookahead and the TOO_FAR rule, is maximal in the input, and no findable repetition is longer. |
| LazyMatching.FindMatch | busybox/archival/gzip.c:1825-1850 | A match longer than the previous one is real, goes on as far as it can, and is not three bytes from afar. While the previous one is shorter than max_lazy_match, nothing that agrees in more bytes is findable (near enough, fewer strings of its hash in between than are looked at, up to nice_match); otherwise there is no match. |
| LazyMatching.FindableInWindow | busybox/archival/gzip.c:1825-1850 | What is findable in the input is in the window, has the same hash and lies within the limit of longest_match, also after slides. |
| LazyMatching.TakeMatch | busybox/archival/gzip.c:1854-1878 | The waiting match that is not beaten is the next token; all tokens so far are chosen by the rules. |
| LazyMatching.LeaveMatch | busybox/archival/gzip.c:1879-1896 | A waiting match is only given up for a longer one, or where there was none; all tokens so far are chosen by the rules. |
| LazyMatching.Refill | busybox/archival/gzip.c:1899-1906 | More input changes nothing that has been recorded, nor what was findable. |
| LazyChoice.MatchTold | busybox/archival/gzip.c:1851-1878 | A best match that is not beaten at the next position becomes a token, and no findable repetition there is longer when it is short. |
| LazyChoice.LiteralTold | busybox/archival/gzip.c:1879-1890 | A literal in place of a best match is followed by a longer one. |
| LazyChoice.FindableMore | busybox/archival/gzip.c:1899-1906 | What is findable does not depend on input further ahead than MIN_LOOKAHEAD. |
| LazyLaws.LazyTokensExpand | busybox/archival/gzip.c:1810-1912 | Tokens that obey the law expand to the input. |
| LazyLaws.FindableTaken | busybox/archival/gzip.c:1786-1794 | Wherever a token starts, a findable repetition of k bytes is taken: after j literals comes a match of at least k + j bytes. |
| LazyLaws.RunIsShort | busybox/archival/gzip.c:1810-1912 | n equal bytes are sent as at most n / 258 + 5 tokens. |
| LazyLaws.AbcTokens | busybox/archival/gzip.c:1810-1912 | abcabcabc is sent as four literals and a match of length 5 at distance 3. |
| LazyMatching.EmitMatch | busybox/archival/gzip.c:1854-1873 | The tokens now expand to the input up to the end of the match, and all strings up to there are in the hash chains. |
| LazyMatching.AdoptMatch | busybox/archival/gzip.c:1854-1878 | The same, followed through a block boundary. |
| LazyMatching.AdoptLiteral | busybox/archival/gzip.c:1879-1890 | A truncated or missing match leaves one literal, and the tokens expand to one byte more. |
| LazyMatching.FlushTo | busybox/archival/gzip.c:1788-1795 | Ending a block turns "tokens expand to the input" into "bits decode to the input". |
| LazyMatching.LastBlock | busybox/archival/gzip.c:1908-1912 | The pending literal and the block marked as last complete the input. |
| LazyMatching.CopyRepeats | busybox/archival/gzip.c:1855-1856 | Copying byte by byte at a distance reproduces a repetition, also when source and target overlap. |
| LazyMatching.MatchInInput | busybox/archival/gzip.c:1833-1841 | A match between places of the window is a repetition in the input, whatever has slid out of the window. |
| MatchSearch.LongestMatch | busybox/archival/gzip.c:710-784 | A length above prev_length is a byte-for-byte match at a distance of at most MAX_DIST that could not go on, the closest of its length; otherwise match_start is unchanged. Unless nice_match stopped the search, which it does at once, no string seen on the chain matches longer, and the walk ended because the chain did or the budget (a quarter after a good match) was used up. Every call satisfies the assertion at line 736 until the end of the file has been seen. |
| MatchSearch.NoneMissed | busybox/archival/gzip.c:778-781 | Every string with the same hash within the limit is seen, unless as many nearer ones as are allowed were. |
| MatchSearch.SeenCounted | busybox/archival/gzip.c:738-781 | Each string seen is another one with the same hash, so a crowded chain is the only reason to miss one. |
| MatchSearch.CompareMatch | busybox/archival/gzip.c:752-770 | The comparison in groups of eight stops at the first difference or at 258 bytes; byte 2 is equal without being compared. |
| MatchSearch.TryMatch | busybox/archival/gzip.c:738-779 | The quick test on the last two bytes never loses a longer match. |
| RollingHash.ThirdByte | busybox/archival/gzip.c:752-757 | Equal hash keys and equal first two bytes force the third byte to be equal. |
| RollingHash.RollForward | busybox/archival/gzip.c:1768-1774 | The running key is the hash of the last three bytes, whatever came before. |
| HashChains.InsertStep | busybox/archival/gzip.c:1803-1808 | Inserting a string keeps all chains: every head is the youngest string with its hash, and every link points to the youngest older one. |
| HashChains.SlideStep | busybox/archival/gzip.c:661-677 | Moving the upper half of the window down keeps all chains, with every head and link still on the youngest string; what left the window becomes 0. |
| HashChains.ChainsKept | busybox/archival/gzip.c:681-688 | New input behind the inserted strings leaves the chains alone. |
| SlidingWindow.Window.Slide | busybox/archival/gzip.c:655-679 | The slide keeps the window a copy of the input, the chains, the distance to match_start, and the place of the block start. |
| SlidingWindow.Window.FillWindow | busybox/archival/gzip.c:641-689 | At least one byte is read or eofile is set; window, chains and position in the input are kept. |
| SlidingWindow.Window.FillWindowIfNeeded | busybox/archival/gzip.c:691-695 | Enough lookahead, or the end of the input; the loop ends because the rest of the input shrinks. |
| SlidingWindow.Window.LmInit | busybox/archival/gzip.c:1927-1960 | The window is filled and the running key is ready for the first string. |
| SlidingWindow.Window.InsertString | busybox/archival/gzip.c:1803-1808 | The old head of the chain is a candidate, and it is the most recently inserted string with the same hash; it is 0 only if there is none. |
| FileReader.Reader.Read | busybox/archival/gzip.c:522-535 | A read takes any non-empty prefix of what is left, or reports the end or an error; checksum and size follow the delivered bytes. |
| FileReader.ChecksumConcat | busybox/archival/gzip.c:512-515 | The checksum of a concatenation continues where the first part ended, for any byte step. |
| BlockWriter.BlockState.FlushBlock | busybox/archival/gzip.c:1680-1766 | The decoder reads the block back: it turns the output so far into the output with the tokens expanded, and stops where the block ends. The bits sent are those of BlockBits for the trees of this block, at most 31 for each token and 40 more; the state is ready for the next block. |
| BlockWriter.BlockReads | busybox/archival/gzip.c:1713-1753 | Stored, static or dynamic: whichever encoding is chosen, the decoder reads the same block. |
| BlockWriter.BlockIsShort | busybox/archival/gzip.c:1702-1745 | The choice is good: in bytes a block takes at most two more than the better of the static and the dynamic encoding, and at most six more than its data while that is still in the window. |
| BlockWriter.BlockBound | busybox/archival/gzip.c:1702-1753 | A block takes at most 31 bits for each token and 40 more. |
| BlockWriter.StoredFits | busybox/archival/gzip.c:1730-1741 | A block is only stored when its length fits the 16-bit field, so LEN never truncates. |
| BlockWriter.BlockState.SendBlock | busybox/archival/gzip.c:1730-1753 | The bits sent are exactly those of the chosen encoding. |
| BlockWriter.BlockState.PrepareTrees | busybox/archival/gzip.c:1685-1700 | The trees can encode the block, and opt_len and static_len equal exactly the bits of the dynamic and the static encoding after the block type. |
| BlockWriter.BlockState.CtTally | busybox/archival/gzip.c:1573-1625 | The token is recorded and counted; the result is true exactly when the buffer is full or the compression estimate says so. |
| BlockWriter.BlockState.EstimateLength | busybox/archival/gzip.c:1602-1611 | The estimate is 8 bits a token plus five and the extra bits for every distance. |
| BlockWriter.BlockState.InitBlock | busybox/archival/gzip.c:1095-1112 | An empty block, in which only the end symbol is counted. |
| BlockWriter.BlockState.CtInit | busybox/archival/gzip.c:2016-2057 | The static trees stand in their tables and the first block is empty. |
| BlockTrees.BuildSymbolTrees | busybox/archival/gzip.c:1687-1695 | Both codes can send every token, and the lengths added up are exactly the bits of the data. |
| BlockTrees.BuildBlTree | busybox/archival/gzip.c:1511-1538 | The code for the code lengths can send both trees; opt_len grows by exactly the bits of the header; at least four lengths are sent. |
| BlockTrees.TreesHeld | busybox/archival/gzip.c:1685-1704 | Data and header costs add up to the exact length of the dynamic block. |
| BlockCodec.ReadStaticBack | busybox/archival/gzip.c:1743-1746 | A static block decodes to the expansion of its tokens. |
| BlockCodec.ReadDynamicBack | busybox/archival/gzip.c:1747-1751 | A dynamic block, with codes sent in its header, decodes to the expansion of its tokens. |
| BlockCodec.ReadStoredBack | busybox/archival/gzip.c:1730-1741 | A stored block decodes to its bytes: padding, LEN and its complement agree with section 3.2.4 of RFC 1951. |
| BlockData.CompressBlock | busybox/archival/gzip.c:1630-1673 | The flags, literals, lengths and distances unpacked from flag_buf, l_buf and d_buf are the recorded tokens; their bits and the end symbol are sent. |
| BlockData.SendToken | busybox/archival/gzip.c:1641-1669 | One token: code, extra length bits, distance code and extra distance bits. |
| Tokens.ReadDataBack | busybox/archival/gzip.c:1630-1673 | Decoding the bits of the tokens and the end symbol gives their expansion, for any prefix codes that cover them. |
| Tokens.MatchFields | busybox/archival/gzip.c:1650-1667 | Symbols of a match are in range and the rest of length and distance fits the extra bits of section 3.2.5 of RFC 1951. |
| TokenCosts.DataCost | busybox/archival/gzip.c:1161-1203 | Frequencies times code lengths plus extra bits add up to the bits of the data and the end symbol. |
| TokenCosts.StaticBound | busybox/archival/gzip.c:1730-1741 | No token takes more than 31 bits with the fixed codes. |
| TokenBuffer.Buffer.Add | busybox/archival/gzip.c:1575-1600 | The buffers hold the tokens recorded before and the new one; flags of a full group are written out. |
| TokenBuffer.Buffer.SaveFlags | busybox/archival/gzip.c:1685 | The flags of the last, unfinished group are saved and the buffer is unchanged otherwise. |
| MatchCodes.InitLengths | busybox/archival/gzip.c:1983-1996 | length_code and base_length give every length its symbol of RFC 1951, and length 258 the code without extra bits. |
| MatchCodes.InitDists | busybox/archival/gzip.c:1998-2014 | dist_code and base_dist give every distance up to 32768 its symbol, across the two halves of the table. |
| FixedCodes.InitStaticTrees | busybox/archival/gzip.c:2016-2054 | The static tables hold the fixed codes of section 3.2.6 of RFC 1951. |
| FixedCodes.FixedDistBits | busybox/archival/gzip.c:2050-2054 | Thirty distance codes of five bits serve a decoder that knows thirty-two. |
| DynamicHeader.ReadCodesBack | busybox/archival/gzip.c:1545-1567 | The decoder reads both codes back from the header. |
| DynamicHeader.SendAllTrees | busybox/archival/gzip.c:1545-1567 | The bits sent are counts, the lengths of the length code in their order, and both packed trees. |
| DynamicHeader.LastBlIndex | busybox/archival/gzip.c:1525-1532 | Nothing but zero lengths is left out, and at least four are sent. |
| DynamicHeader.PlainLengthSent | busybox/archival/gzip.c:1424-1429 | A non-zero length is sent plainly somewhere, not only as a repetition. |
| TreeSender.ScanTree | busybox/archival/gzip.c:1402-1448 | Each symbol is counted exactly as often as the packed lengths contain it; only the guard behind the tree changes. |
| TreeSender.SendTree | busybox/archival/gzip.c:1454-1505 | The codes and arguments sent are those of the packed lengths that scan_tree counted. |
| TreeSender.CountRun | busybox/archival/gzip.c:1424-1434 | The count of one run. |
| TreeSender.SendRun | busybox/archival/gzip.c:1473-1491 | The symbols of one run; repeat counts fit their fields. |
| RunLengths.PackedUnpacks | busybox/archival/gzip.c:1454-1505 | The symbols unpack (section 3.2.7 of RFC 1951) to exactly the lengths, after any lengths read before. |
| RunLengths.ReadSyms | busybox/archival/gzip.c:1454-1505 | The decoder reads the lengths from the bits of the symbols. |
| TreeBuilder.BuildTree | busybox/archival/gzip.c:1312-1394 | A complete, length-limited canonical code for the forced frequencies; not cheaper than any tree can be, and optimal when no code has the maximal length; opt_len and static_len grow by exactly the cost of the original frequencies, although up to two codes are forced. |
| TreeBuilder.ForceTwo | busybox/archival/gzip.c:1337-1351 | At least two codes, and exactly which symbols are forced: 0 and 1 if none occurs; after a single symbol the next one if that is 1 or 2 and otherwise 0. Both lengths are reduced by what the forced codes will cost. |
| TreeBuilder.TwoForced | busybox/archival/gzip.c:1342-1351 | Symbol 2 is forced if and only if symbol 1 is the only one that occurs. |
| TreeBuilder.TwoForcedAt | busybox/archival/gzip.c:1342-1351 | Such frequencies: only symbol 1 occurs, and 2 is forced. |
| TreeBuilder.CostsPaid | busybox/archival/gzip.c:1342-1351 | Forced codes pay for themselves, also when 2 is forced. |
| TreeBuilder.CollectLeaves | busybox/archival/gzip.c:1325-1335 | The heap holds exactly the symbols that occur. |
| TreeDepths.MergedTreeIsOptimal | busybox/archival/gzip.c:1357-1385 | Before the limit applies, frequency times depth over the merged tree is what greedy merging costs, and no full binary tree with the same weights has less. |
| TreeDepths.LabelIsDepth | busybox/archival/gzip.c:1172-1190 | The first pass labels every node with its depth, clipped to the limit. |
| HuffmanCost.GreedyIsLeast | busybox/archival/gzip.c:1360-1383 | No code lengths that exactly fill the code space cost less than greedy merging. |
| HuffmanCost.TreeCostAtLeastGreedy | busybox/archival/gzip.c:1360-1383 | The same for every full binary tree. |
| HuffmanTree.MergeAll | busybox/archival/gzip.c:1354-1385 | The merges leave the tree in the upper heap: root first, sons in pairs, fathers before sons, each pointing to its father, with total weight equal to greedy merging. |
| HuffmanTree.PqRemove | busybox/archival/gzip.c:1305-1310 | The removed node has least frequency, and the rest is a heap again. |
| HuffmanTree.GreedyMerge | busybox/archival/gzip.c:1364-1382 | Merging two least nodes is one step of greedy merging, whichever of equals are taken. |
| TreeHeap.PqDownHeap | busybox/archival/gzip.c:1127-1149 | The heap order holds from the given slot on, and the slots are a rearrangement of what they held. |
| TreeHeap.RootIsLeast | busybox/archival/gzip.c:1127-1149 | The root of an ordered heap is least. |
| TreeLengths.GenBitlen | busybox/archival/gzip.c:1161-1244 | A complete code of at most max_length bits for exactly the symbols that occur; bl_count counts the final lengths; both costs are exact; depths that fit are kept and are optimal; a result without a code of maximal length is optimal, too. |
| TreeLengths.Rescan | busybox/archival/gzip.c:1224-1242 | The rescan hands out the counted lengths to all leaves, never runs off the heap, and corrects opt_len. |
| TreeLengths.AllLeaves | busybox/archival/gzip.c:1229-1242 | There are as many listed leaves as codes to hand out. |
| BitLengths.FirstPass | busybox/archival/gzip.c:1169-1203 | Labels, counts, overflow and costs after the first pass. |
| CodeSpace.OverfullBy | busybox/archival/gzip.c:1177-1204 | After the first pass the code space is overfull by half the number of clipped nodes, which is even. |
| CodeSpace.CodesAtLimit | busybox/archival/gzip.c:1210-1222 | More codes have the maximal length than half the clipped nodes, so the repair never runs out of them. |
| LengthLimit.MakeRoom | busybox/archival/gzip.c:1210-1222 | The repair loop ends with the code space exactly full. |
| LengthLimit.ShorterExists | busybox/archival/gzip.c:1212-1214 | While the code space is overfull the inner search finds a shorter code. |
| LengthLimit.RepairStep | busybox/archival/gzip.c:1211-1221 | One step of the repair takes exactly one unit off the excess. |
| CodeTables.GenCodes | busybox/archival/gzip.c:1254-1288 | Every code is the canonical code of section 3.2.2 of RFC 1951, reversed for sending; lengths are unchanged. |
| CodeTables.FirstCodes | busybox/archival/gzip.c:1265-1267 | next_code holds the smallest code of every length. |
| CodeTables.BiReverse | busybox/archival/gzip.c:581-591 | Sent least significant bit first, the result is the code most significant bit first. |
| Canonical.PrefixFree | busybox/archival/gzip.c:1254-1288 | No code is the beginning of another. |
| Canonical.CodeFits | busybox/archival/gzip.c:1254-1288 | Every code fits its length. |
| Canonical.DecodeCode | busybox/archival/gzip.c:1254-1288 | Greedy decoding at the code of a symbol yields the symbol and stops behind the code. |
| Canonical.StartsDisjoint | busybox/archival/gzip.c:1254-1288 | Codes of different symbols cover disjoint parts of the code space. |
| BitWriter.Writer.SendBits | busybox/archival/gzip.c:541-574 | The bits are appended to everything sent before (written bytes, buffered bytes, accumulator), least significant first. |
| BitWriter.Writer.BiWindup | busybox/archival/gzip.c:596-609 | Zero bits fill up the last byte; the accumulator is empty. |
| BitWriter.Writer.CopyBlock | busybox/archival/gzip.c:615-631 | Padding, the length and its complement in 16 bits each, and the bytes are appended. |
| BitWriter.Writer.Put8 | busybox/archival/gzip.c:437-442 | One byte is appended; a full buffer is written out. |
| BitWriter.Writer.Put16 | busybox/archival/gzip.c:445-481 | Two bytes are appended, whether or not the buffer fills up between them. |
| BitWriter.Writer.Put32 | busybox/archival/gzip.c:484-499 | Four bytes are appended, least significant first. |
| BitWriter.Writer.FlushOutbuf | busybox/archival/gzip.c:425-432 | The buffered bytes move to the file, in order. |
| BitWriter.AccumulatorFits | busybox/archival/gzip.c:552-556 | Or-ing in a shifted value appends its bits. |
| BitWriter.AccumulatorSpills | busybox/archival/gzip.c:558-571 | The 32 bits sent and the rest kept are together the old bits and the new ones. |
| LzoOptimize.Optimizer.Optimize | busybox/archival/lzop.c:144-393 | For every stream that decodes, with or without an end marker: the rewritten stream decodes to the same output with the same bytes left, which is also the output produced on the way, and the status says whether bytes are left or the marker is missing. The instructions that the decoder then takes are exactly those that Walk makes of the original ones. The length of the stream does not change. |
| LzoWalk.WalkCounts | busybox/archival/lzop.c:200-347 | The instructions of the result stand for all original ones: each match given to the literals of another saves one, each that joins two runs saves two. |
| LzoWalk.NothingLeft | busybox/archival/lzop.c:200-347 | In the result no match of the first shape is left, and one of the other two only directly in front of a run that has become longer on the way. |
| LzoWalk.LeftBehind | busybox/archival/lzop.c:232-256 | Such a match: its literals go to the following run, and the optimiser does not go back to it. |
| LzoProgress.TwoRunsJoin | busybox/archival/lzop.c:276-292 | A stream with two runs of four literals and a match between them: the result is one run of eleven. |
| LzoProgress.ShapesMeet | busybox/archival/lzop.c:217-347 | The tests on bytes and counters are the three shapes of instructions in front of, at and behind the match. |
| LzoProgress.WalkLeaves | busybox/archival/lzop.c:359-379 | A match that meets no test is left alone by the walk as well. |
| LzoProgress.LiteralsWalked | busybox/archival/lzop.c:221-231 | The first rewriting is the step of the walk. |
| LzoProgress.ToRunWalked | busybox/archival/lzop.c:232-256 | The second rewriting is the step of the walk. |
| LzoProgress.JoinWalked | busybox/archival/lzop.c:276-292 | The third rewriting is the step of the walk. |
| LzoOptimize.Optimizer.Match | busybox/archival/lzop.c:211-364 | Each match turns the buffer into exactly what Rewritten says for its head and its neighbours, and both the decoding and the walk over the instructions go on; the end marker leaves the buffer alone and ends the walk. |
| LzoOptimize.Optimizer.AsLiterals | busybox/archival/lzop.c:326-334 | A match becomes literals of the match in front. |
| LzoOptimize.Optimizer.IntoRun | busybox/archival/lzop.c:232-256 | A match and the literals in front of it join the following run, with the literals moved by one byte. |
| LzoOptimize.Optimizer.BetweenRuns | busybox/archival/lzop.c:276-292 | A three-byte match joins the two runs around it. |
| LzoOptimize.Optimizer.CopyInto | busybox/archival/lzop.c:113-136 | copy2 and copy3 write what the match stands for, also at distances 1 and 2. |
| LzoOptimize.Optimizer.ReadLength | busybox/archival/lzop.c:294-314 | Continued lengths are read as the format defines them. |
| LzoInvariant.InvDecodes | busybox/archival/lzop.c:144-393 | At every instruction the whole rewritten buffer still decodes to the output of the original stream. |
| LzoInvariant.LiteralsInv | busybox/archival/lzop.c:221-231 | The first rewriting keeps the invariant. |
| LzoInvariant.ToRunInv | busybox/archival/lzop.c:232-256 | The second rewriting keeps the invariant. |
| LzoInvariant.JoinInv | busybox/archival/lzop.c:276-292 | The third rewriting keeps the invariant. |
| LzoInvariant.PlainInv | busybox/archival/lzop.c:359-379 | A match that is copied and left alone keeps the invariant. |
| LzoRewrite.ToRun | busybox/archival/lzop.c:239-250 | Byte for byte: the three in-place steps yield the previous match without literals and one longer run, in the same number of bytes. |
| LzoFormat.MatchSteps | busybox/archival/lzop.c:261-320 | A head means the same match whatever follows and whatever number of literals is set in it. |
| LzoFormat.CopiedBytes | busybox/archival/lzop.c:113-136 | The bytes of overlapping copies. |
| Adler32.LzoAdler32 | busybox/archival/lzop.c:509-536 | The Adler-32 of section 8.2 of RFC 1950, for every length; without a buffer the result is 1. |
| Adler32.EqualBytes | busybox/archival/lzop.c:509-536 | The sum of n equal bytes as a formula. |
| Adler32.KnownSums | busybox/archival/lzop.c:509-536 | Two known sums, which differ by the order of the bytes. |
| Adler32.Chunk | busybox/archival/lzop.c:526-531 | Within 5552 bytes the sums stay below 2^32. |
| Adler32.ChecksumConcat | busybox/archival/lzop.c:509-536 | Checksumming one part after the other equals checksumming the concatenation. |
| VersionCompare.VersionComparePart | busybox/archival/dpkg.c:240-277 | The pointers walking over the strings decide as the comparison of the parsed lists of text and number does (section 5.6.12 of the Debian Policy Manual). |
| VersionCompare.Round | busybox/archival/dpkg.c:245-275 | One round decides rightly or leaves a comparison of the rests. |
| VersionCompare.CompareText | busybox/archival/dpkg.c:248-255 | The first inner loop compares the runs of non-digits, with a tilde before the end and letters before the rest. |
| VersionCompare.CompareNumbers | busybox/archival/dpkg.c:257-274 | Numbers of any length are compared by value, leading zeros or not. |
| VersionCompare.VersionCompareStrings | busybox/archival/dpkg.c:283-334 | Epochs, upstream versions and revisions are split and compared in this order. |
| VersionCompare.VersionsPreordered | busybox/archival/dpkg.c:283-334 | Comparison is antisymmetric in sign, reflexive and transitive: a total preorder. |
| VersionCompare.TestVersion | busybox/archival/dpkg.c:336-354 | The operator is applied to the comparison of the versions. |
| VersionCompare.OperatorsConsistent | busybox/archival/dpkg.c:336-354 | The operators agree with each other, with their mirror images, and chain. |
| VersionLaws.CharacterOrder | busybox/archival/dpkg.c:229-237 | A tilde sorts before the end, the end like a digit, digits before letters, letters before everything else; letters and other characters in code order. |
| VersionLaws.TildeFirst | busybox/archival/dpkg.c:229-255 | A version continued by a tilde is earlier than the version. |
| VersionLaws.TextLater | busybox/archival/dpkg.c:229-255 | A version continued by a letter, or by any other character but a digit or a tilde, is later than the version. |
| VersionLaws.LettersFirst | busybox/archival/dpkg.c:229-255 | Continued by a letter a version is earlier than continued by a character that is no letter, digit or tilde. |
| VersionLaws.FirstDifference | busybox/archival/dpkg.c:240-277 | Behind a common beginning the first characters that differ in order decide. |
| VersionLaws.SmallerNumber | busybox/archival/dpkg.c:257-274 | In the same place the smaller number is earlier. |
| VersionLaws.VersionParts | busybox/archival/dpkg.c:283-334 | Where epoch, upstream version and revision are cut. |
| VersionLaws.WhatDecides | busybox/archival/dpkg.c:283-334 | A smaller epoch decides, then the upstream version, then the revision. |
| VersionLaws.OperatorsMean | busybox/archival/dpkg.c:336-354 | Operators 1 to 5 are equal, less, less or equal, more, more or equal; 6 always holds and nothing else does. |
| VersionLaws.EpochIsLess | busybox/archival/dpkg.c:283-354 | A smaller epoch is VER_LESS whatever follows. |
| VersionLaws.NumberIsLess | busybox/archival/dpkg.c:283-354 | A smaller number in the same place is VER_LESS and not VER_MORE_EQUAL. |
| VersionLaws.CandidateIsLess | busybox/archival/dpkg.c:229-354 | A version continued by a tilde is VER_LESS than the version. |
| VersionOrder.CompareUnfolds | busybox/archival/dpkg.c:240-277 | The comparison of two version strings is the comparison of their first parts and then of the rests. |
| DoubleHashing.ProbeReaches | busybox/archival/dpkg.c:194-204 | With a prime size the probe sequence reaches every slot. |
| DoubleHashing.ProbeOnce | busybox/archival/dpkg.c:194-204 | No slot is looked at twice before all have been. |
| DoubleHashing.NamePrime | busybox/archival/dpkg.c:88 | 16381 is prime. |
| DoubleHashing.PackagePrime | busybox/archival/dpkg.c:98 | 10007 is prime. |
| DoubleHashing.StatusPrime | busybox/archival/dpkg.c:116 | 8191 is prime. |
| NameTable.MakeHash | busybox/archival/dpkg.c:169-186 | Start and decrement are functions of the string; the decrement is never 0 nor the size. |
| NameTable.FindKey | busybox/archival/dpkg.c:189-204 | The search ends at the string, also in a full table, or at a free slot that shows its absence. |
| NameTable.SearchEnds | busybox/archival/dpkg.c:189-227 | Each of the three searches ends if and only if some slot is free or holds what is searched for. |
| NameTable.ShiftFits | busybox/archival/dpkg.c:178-183 | For ASCII strings the shifted sum fits an int. |
| NameTable.ShiftOverflows | busybox/archival/dpkg.c:178-183 | For other characters it need not: 131 at place 13. |
| NameTable.StoreKeeps | busybox/archival/dpkg.c:205-206 | Storing at the end of the way keeps every stored key reachable. |
| NameTable.Names.Search | busybox/archival/dpkg.c:189-206 | Interning: the result holds the string, stored strings never move, and equal strings get equal indices. |
| PackageTable.SearchPackage | busybox/archival/dpkg.c:356-377 | The result meets name and version condition, or is free and no package does. |
| PackageTable.MeetsByNumber | busybox/archival/dpkg.c:356-377 | A package with a smaller number in its version does not meet VER_MORE_EQUAL nor VER_EQUAL, and meets VER_LESS and VER_ANY. |
| PackageTable.Packages.Store | busybox/archival/dpkg.c:681-688 | A new package replaces one with its name and an equal version, or takes the free slot of its way; all others stay reachable and none is stored twice. |
| PackageTable.Packages.Find | busybox/archival/dpkg.c:356-377 | A stored package is found again under its name and version, in the only slot that can hold it. |
| PackageTable.Packages.AddProvided | busybox/archival/dpkg.c:1003-1014 | A provided package gets a node only if none meets the condition; uniqueness of name and version is kept if and only if one meets it or no stored package is equal. |
| PackageTable.FreshTwins | busybox/archival/dpkg.c:1008-1014 | Filling a free slot keeps packages unique if and only if the new one has no equal. |
| PackageTable.TwinsMeet | busybox/archival/dpkg.c:1004-1008 | An equal package meets the condition exactly for the operators ANY, EQUAL, LESS_EQUAL and MORE_EQUAL. |
| PackageTable.StoredTwice | busybox/archival/dpkg.c:1003-1014 | A run in which uniqueness is lost: a stored package provides its own name and version with a strict comparison. |
| PackageTable.TwinsKept | busybox/archival/dpkg.c:685-687 | Replacing by equal version keeps packages unique, because equality of versions is transitive. |
| StatusTable.Statuses.Search | busybox/archival/dpkg.c:211-227 | The status of the package with this name, in the only slot that can hold it, or a free slot that shows that there is none. |
| StatusTable.Statuses.Store | busybox/archival/dpkg.c:787-790 | The new status replaces that of the same name or takes the free slot of its way; every other status stays reachable. |
| StatusTable.Statuses.Index | busybox/archival/dpkg.c:772-791 | One paragraph of the status file keeps both tables sound and linked. |
| StatusTable.IndexKept | busybox/archival/dpkg.c:685-687 | Replacing a package in the package table keeps every status reachable, because names are kept. |
| Dependencies.AddSplitDependencies | busybox/archival/dpkg.c:438-518 | Fields become clauses laid out as an OR edge with the number of its alternatives, or single edges. |
| DependencyCheck.CheckDependencies | busybox/archival/dpkg.c:1065-1176 | On the tables of packages and statuses: all packages whose status asks for installation pass exactly when all their clauses hold; otherwise the first one that fails is reported. |
| DependencyCheck.CheckPackage | busybox/archival/dpkg.c:1096-1174 | The walk with its counter and index skip passes exactly when every clause has a satisfied alternative or provider; the edges are never reported corrupt. |
| DependencyCheck.CheckEdge | busybox/archival/dpkg.c:1113-1147 | The package that the search finds, or any provider of the name, has the status that the kind of dependency asks for. |
| DependencyCheck.FindPackage | busybox/archival/dpkg.c:1113 | The package used is the one where search_package_hashtable stops. |
| DependencyCheck.SearchForProvides | busybox/archival/dpkg.c:395-408 | The next provider behind a place, with none skipped. |
| DependencyCheck.PackageSatisfies | busybox/archival/dpkg.c:963-978 | A pre-dependency needs the state "installed", a dependency the wish "install", of the status found by name; without a status neither holds. |
| DependencyCheck.StatusDecides | busybox/archival/dpkg.c:963-978 | With the only status "want flag state" kind 1 is satisfied if and only if state is "installed", kind 3 if and only if want is "install", no other kind. |
| DependencyCheck.KindsChecked | busybox/archival/dpkg.c:1096-1174 | Clauses of the kinds 1 and 3 hold when an alternative is satisfied; all others hold always. |
| DependencyCheck.StatusWord | busybox/archival/dpkg.c:692-712 | The word of the only status that the package can have. |
| DependencyCheck.GetStatus | busybox/archival/dpkg.c:692-712 | The word with the given number. |
| DependencyCheck.WordsApart | busybox/archival/dpkg.c:714-739 | A status written as three words gives each of them back. |
| StrokeLine.Canvas.Stroke | nuklear_rawfb.h:237-305 | Exactly the pixels of the line inside the scissor rectangle get the colour: one per step on the driving axis, nearest to the ideal line, ties in step direction. Horizontal lines are half-open. |
| StrokeLine.Canvas.StrokeX | nuklear_rawfb.h:282-292 | The loop driven by x, which ends at x1. |
| StrokeLine.Canvas.StrokeY | nuklear_rawfb.h:293-304 | The loop driven by y, which ends at y1. |
| StrokeLine.Canvas.SetPixel | nuklear_rawfb.h:111-130 | One pixel, only inside the scissor rectangle. |
| StrokeLine.Canvas.LineHorizontal | nuklear_rawfb.h:132-163 | The run is filled in pieces, completely and no further. |
| StrokeLine.FractionStep | nuklear_rawfb.h:284-290 | The fraction keeps the pixel nearest to the ideal line. |
| StrokeLine.LineEnds | nuklear_rawfb.h:237-305 | A line that is not horizontal includes both of its ends. |
| StrokeLine.HorizontalLine | nuklear_rawfb.h:250-267 | A horizontal line contains its left end and not its right one. |
| StrokeLine.NearestInColumn | nuklear_rawfb.h:282-292 | On a line driven by x no other pixel of a column is nearer to the ideal line; a tie is decided in the direction of the step. |
| StrokeLine.NearestInRow | nuklear_rawfb.h:293-304 | On a line driven by y no other pixel of a row is nearer; a tie is decided in the direction of the step. |
| StrokeLine.NoGaps | nuklear_rawfb.h:237-305 | Every column, or every row, between the ends has a pixel. |
| ProcessScan.ScanProcesses | cad_rescue_gui.c:2957-3141 | One scan of any number of distinct processes: each is compared with what the previous scan stored for it or 0; the times of those that fit into the table are stored; each ranking is the first fifteen of the stable descending sort of the processes that take part. |
| ProcessScan.NothingToShow | cad_rescue_gui.c:3064-3067 | The first scan and a counter that has gone back show 0. |
| ProcessScan.FullLoad | cad_rescue_gui.c:3064-3071 | A process that uses all cores all the time shows 100. |
| ProcessScan.ListedAre | cad_rescue_gui.c:3088-3110 | Who takes part in which ranking, and with which value. |
| ProcessScan.BeyondTable | cad_rescue_gui.c:3051-3086 | A process beyond the 16384th is not stored; at the next scan it is shown with 0 percent if and only if the quotient as an int is smaller in magnitude than the number of cores. The comment at 3085-3086 promises 0 percent always. |
| ProcessScan.OneTooMany | cad_rescue_gui.c:3051-3086 | A scan that shows it: 16385 idle processes, the last of which is shown with 100 percent a second later. |
| ProcessHistory.History.BeginScan | cad_rescue_gui.c:2969-2975 | The tables change roles and the new current one is empty. |
| ProcessHistory.History.Lookup | cad_rescue_gui.c:3051-3062 | The time that the previous scan stored, or 0, also in a full table. |
| ProcessHistory.History.Record | cad_rescue_gui.c:3074-3084 | The time is stored while there is room, and dropped without harm when there is none. |
| ProcessHistory.NotThere | cad_rescue_gui.c:3055-3062 | A way that ends in a free slot or comes round shows that the process is absent. |
| ProcessHistory.FreeSlot | cad_rescue_gui.c:3077-3080 | With fewer than 16384 entries a slot is free. |
| TopList.Rank | cad_rescue_gui.c:3098-3110 | The ranking after one more process; negative values are never ranked. |
| TopList.SortedIsStable | cad_rescue_gui.c:3098-3141 | Insertion is a stable descending sort. |
| TopList.RankedAre | cad_rescue_gui.c:3098-3110 | Exactly the processes with a value that is not negative are ranked. |
| TopList.TakeInsert | cad_rescue_gui.c:3105-3108 | What has fallen off the end never comes back. |

## Left out

gzip:

- Configurations other than the default one: CONFIG_GZIP_FAST above 0, compression levels, 16-bit accumulators, 64K-limited machines.
- CRC-32: the step is an uninterpreted function on 32-bit numbers, so the trailer is proved to hold the folded step and not a particular polynomial.
- `prev` and `head` share one allocation in gzip.c; here they are two arrays. The fields of `struct globals` are fields of the classes that use them.
- opt_len and static_len are mathematical integers (they dip below 0 while codes are forced); depth is a natural number without its 8-bit wrap; frequencies are shown to fit 16 bits and so are not wrapped.
- Reads report an error by a flag of the reader; a failed read ends the input as in gzip.c.
- BlockWriter.BlockIsShort: compares sizes in whole bytes, as the code does, and so allows two bytes of rounding.
- LazyMatching.FindMatch: a repetition counts as findable at a distance below MAX_DIST, up to nice_match bytes, and with three bytes only if it does not end the input; a match at distance MAX_DIST itself is looked at by the code or not, depending on where the window stands.
- LazyLaws.FindableTaken: counts on 32 strings of a hash chain, which every search looks at; that a search looks at 128 after a short match is stated by FindMatch.
- HuffmanCost.GreedyIsLeast: optimality is against all codes without a length limit; that the repaired lengths of an overflowing tree are optimal among limited codes is not claimed.

lzop:

- LzoOptimize.Optimizer.Optimize: requires a stream that is well-formed, with an end marker or without one behind its last match. lzo1x_optimize looks at the byte behind a match without literals; behind a stream without an end marker that byte counts as 0. The output is a sequence that grows, so the test for room in the output (`op <= op_end`) is not modelled.
- The LZO1Y variant, the compressors, the header and the checksums other than Adler-32.
- Adler32.LzoAdler32: sums are mathematical integers; Chunk shows that they stay below 2^32.

dpkg:

- NameTable.MakeHash: characters count as 0 to 255, shifts do not overflow and `unsigned long` has 64 bits. For characters of 128 and above the code's shift of an `int` can overflow (`NameTable.ShiftOverflows`) and its result depends on the sign of `char`; where `unsigned long` has 32 bits, sums wrap earlier.
- VersionCompare.VersionComparePart: strings are ASCII, as the arguments of `isdigit` and `isalpha` must be.
- VersionCompare.VersionCompareStrings: strings stand for their indices in the name table; an epoch that overflows `int` is reduced modulo 2^32.
- DependencyCheck.CheckDependencies: requires a free slot in both hash tables, so that every search ends. The edges of a package stand beside the table of packages. Conflicts are not checked, and an unsatisfied dependency is reported by the number of the package instead of a message.
- Dependencies.AddSplitDependencies: starts from fields and alternatives that are already cut out of the line; splitting with `strtok_r` and the version operators are not modelled.
- Setting a word of a status, package scripts, files and status-file rewriting.

Drawing and monitoring:

- StrokeLine.Canvas.Stroke: pixels are cells of a matrix instead of bytes with a pitch; scissor fields are integers; coordinates do not wrap at 16 bits. Other shapes of the file use floating point.
- ProcessScan.ScanProcesses: takes the numbers read from /proc as given, with every process listed once and none numbered 0.
- The cache of user names, the user interface, and everything that calls the kernel.

Other archive formats of the repository (tar, cpio, ar, unzip, rpm, bzip2) are not modelled: their parsers would add easier members only.
