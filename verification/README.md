# DMSDOS: codecs, sector allocator and checkers, modelled in Dafny

DMSDOS reads and writes compressed volume files of DOS: DoubleSpace, DriveSpace and Stacker. This
project models its two cores and proves what they are for.

**The codecs.** Four pairs of a compressor and a hand-written decompressor: SQ, DS/JM, SD3 and SD4.
Streams are `seq<bool>`, tokens are a datatype, and each decoder is first given as a total function
(`Decode`, `Decode4`) of the input and the old contents of the buffer. The methods that follow the C code, with
their bit buffers, hash tables, heaps and tables filled in place, are proved against these functions. The
results are round trips for every input, with any contents of the hash tables (for SD3, where a byte
comparison is left out, the chain invariant that makes this sound is proved), and whatever follows the
compressed data in its last sector. The Huffman builder is proved to end, to give a complete code with lengths up
to 15, and to be optimal: no code takes fewer bits for the counts used. Where a compressor may refuse, the contract says
exactly when: its ghost results are the tokens and code tables it chose, and it gives up only if their stream does not fit.

**The allocator.** BITFAT, MDFAT and FAT, the search for free sectors under every strategy, fragmented
allocation, freeing and replacing, writing and reading of whole clusters, the LRU cache of table sectors,
and the checkers. The invariant is that clusters share no sectors and every sector used is marked. Every operation
keeps it, including those that fail; `simple_check` establishes it up to the exact condition of
`SoundValid`; and reading after writing gives back the cluster and leaves all others as they were.
`VolumeOnDisk` ties the sequences the allocator works on to the bytes of the three tables on one disk. The checkers are exact: which
codes they return, what they may change, and that they leave a healthy table alone. Stacker clusters are followed from entry
to data: which sectors are visited, in which order, and what is read.

## How to read it

- `Bits`, `LsbStream`, `MsbStream`, `Sd4Stream`, `Lz`, `LzTokens`, `Reverse`, `Canonical`: bit streams, copies,
  tokens, canonical codes.
- `HuffmanHeap`, `HuffmanCost`, `HuffmanTree`, `HuffmanBuild`, `HuffmanWalk`, `HuffmanShortest`, `HuffmanCode`: the
  builder shared by SQ and SD4.
- `Sq*`, `Sd4*`, `Sd3*`, `Ds*`, `StacCodec`, `ClusterCodec`: the formats and their dispatchers. In each, the
  modules named Format, Header and Stream hold the specification, the others follow the code.
- `SectorMap`, `FragList`, `VolumeState`, `VolumeAlloc`, `ClusterSpec`, `ClusterIo`: allocator and clusters.
- `TableCache`, `Tables`, `MdfatTables`, `MdfatLayout`, `BitfatTables`, `VolumeOnDisk`: the tables on disk.
- `StacWalk`, `StacIo`: walking over the sectors of a Stacker cluster, and reading it.
- `VolumeCheck`, `FatCheck`: the checkers.

## Where the code departs from the obvious

The model does what the code does; these are the places where that is not what one would expect.

- A failed replace restores BITFAT but leaves the MDFAT entry zeroed if the cluster was in use
  (src/dblspace_alloc.c:64 with 669-677). `Volume.Replace` says so.
- Lists of up to `s_sectperclust`+1 fragments are written (src/dblspace_alloc.c:466, 546), but freed, read and checked
  only up to `s_sectperclust` (87; src/dblspace_dec.c:472-473; src/dblspace_chk.c:459-460). `FragmentedReads` has the exact
  condition, `FreedOwned` what is not given back.
- In a compressed fragmented cluster the data are copied over the list (src/dblspace_compr.c:418-422), so that it can never
  be read again: `PackedFragmentFails`, and `Holds` in the contract of `WriteCluster`.
- Forward searches of the whole area never start at `dataend-size+1` (src/dblspace_alloc.c:187, 275, 308, 337): `Found`.
- After a repair `s_free_sectors` is the number from before the repair (src/dblspace_chk.c:567-600): `SimpleCheck`.
- `simple_check` limits the number of fragments but does not add up their counts: `SoundNotValid` is a volume it
  accepts that breaks the invariant, `SoundValid` the exact condition.
- `sd4_complz` may write a run of no characters (0xF0), which makes `sd4_comp` give up (src/dstacker_compr.c:413-415, 759).
- A Stacker entry that is a sector or more too long for its cluster is accepted by `stac_cwalk_init`, and the walk then gives out more
  bytes than announced: the exact condition is in `WalkCluster`.
- The check for contact in `sq_comp` comes after the next byte has been read (src/dblspace_methsq.c:1434-1435), so an end mark that has been
  overwritten is not noticed there; `WriteData` proves that then the length returned is greater than lout.
- An entry of the FAT that is 1 is made an end of chain, but an entry that closes a loop and one that shares its successor may be
  the same: which of two crossing chains is cut depends on the order (src/dmsdosfsck.c:97-109, 148-168). `CrosslinksCut` has the exact condition.

## Modelling decisions

- Numbers are unbounded; bit buffers are proved to stay within 32 bits. `|` on them is modelled bit by bit (`Or`) or, where the
  bits are disjoint, as the addition that is proved equal to it. The table swap_bits_xlat stands for byte reversal.
- A missing last byte of an input of odd length counts as zero, as do bytes behind the input of the SD3 reader. Uninitialised memory and
  uninitialised bit buffers are parameters (`garbage`, `mem`, `rest`); so are addresses where hash tables are indexed by them, and the time.
- The triple unrolled loops of the Huffman readers are one loop.
- Panics of the allocator are proved unreachable. Answers of the user of dmsdosfsck are nondeterministic.

## Model

| member | source | states |
|---|---|---|
| SqCompress.SqComp | src/dblspace_methsq.c:1219-1488 | For every input, level, address and earlier content of the buffer: if 0 < n <= lout, the n bytes, whatever follows them, decode to exactly the input for every output buffer large enough, and n is the size of the stream. Otherwise the input is empty, lout is below 0x20, the intermediate code of a front part of the input is longer than lout-0x20, or the finished stream ends behind lout or, before some item of the intermediate code, comes within 0x20 bytes of it |
| SqCompress.RoundTrip | src/dblspace_methsq.c:446-1488 | `sq_comp` followed by `sq_dec` on the n bytes returned gives the input length and the input bytes |
| SqDecompress.SqDec | src/dblspace_methsq.c:446-705 | For all input bytes, well-formed or not, the decoder (tables, fast and long codes, buffer cuts, errors) returns exactly what `SqHeader.Decode` says about the bits |
| SqStream.StreamDecodes | src/dblspace_methsq.c:446-705 | Any stream laid out with complete codes and run-length-coded lengths decodes to what its tokens produce, whatever follows and whatever the buffer held |
| Sd4Compress.Sd4Comp | src/dstacker_compr.c:615-844 | A non-zero n is the size of the stream; the n bytes, whatever follows them, start with the word 0x81 and `Decode4` restores the input in every buffer at least as long. 0 comes only from an empty input, lout below 0x20, intermediate code of a front part longer than lout-0x20, or, for the finished code, from an item or the end mark closer than 0x20 bytes, a character of a long run that reaches the next item, or an empty run |
| Sd4Decompress.Sd4Decomp | src/dstacker_dec.c:584-759 | For all inputs the decoder does what `Sd4Header.Decode4` says, including the comparison with the last code when the buffer is full |
| Sd4Header.StreamDecodes4 | src/dstacker_dec.c:584-759 | Every planned stream (helper code, run-coded lengths, tokens, end symbol) decodes to the data of its tokens |
| Sd3Compress.Sd3Comp | src/dstacker_compr.c:897-1029 | A non-empty output has the size of its stream, passes the xor check and restores the input, whatever follows it; before each token with more than two bytes to come there was room. Nothing is returned only for an empty input, lout below 0x20, or when the words of tokens that stand for a front part, with more than two bytes to come, go beyond lout-0x10 |
| Sd3Decompress.Sd3Decomp | src/dstacker_dec.c:239-345 | For all inputs the byte-wise reader and the loop compute `Sd3Format.Decode` |
| Sd3Format.StreamDecodes | src/dstacker_dec.c:239-345 | A stream with end token and matching checksum byte behind it decodes to the data of its tokens |
| StacCodec.StacCompress | src/dstacker_compr.c:1056-1076 | Input padded to whole sectors with zeros; a positive result is the size of the stream, saves at least one sector, and `stac_decompress` restores the padded input whatever follows it in the sector; 0 only if the compressor ran out of room or its stream does not save a sector; -1 exactly for unknown methods |
| StacCodec.NotAnotherFormat | src/dstacker_dec.c:763-783 | No SD3 output starts with the word 0x0081 or 0x5344, so it is never routed to SD4 or DS |
| StacCodec.Sd3Routed | src/dstacker_dec.c:763-783 | An SD3 output is routed to `sd3_decomp` and restored |
| StacCodec.Sd4Routed | src/dstacker_dec.c:763-783 | An SD4 output is routed to `sd4_decomp` and restored |
| StacCodec.StacDecompress | src/dstacker_dec.c:763-783 | The dispatch on the first word, for all inputs of at least two bytes |
| DsCompress.CompressCluster | src/dblspace_compr.c:224-372 | DS and JM: the tokens stand for the data up to the first 512-byte mark at which their stream no longer fits. -1 exactly if that stream is longer than (size-1)*512 bytes; otherwise the tokens are those of the whole cluster, k is the exact number of sectors of their stream, and the k sectors decode to the cluster whatever the buffer and the hash tables held |
| DsDecompress.Decompress | src/dblspace_dec.c:259-377 | For all inputs `ds_dec` and `jm_dec` compute `DsFormat.Decode`: the same bytes, the same error codes |
| DsFormat.DecodeTokens | src/dblspace_dec.c:259-377 | Tokens written with their markers decode to the data they produce |
| ClusterCodec.DblCompress | src/dblspace_compr.c:224-372 | The method dispatch: 1 to size-1 sectors that stand for the cluster, exactly as many as the stream needs, or -1. For DS and JM -1 exactly if the stream leaves no sector free; for SQ only if it leaves none free, meets its intermediate code, or that code is too long; -1 for every other method |
| ClusterCodec.DblDecompress | src/dblspace_dec.c:382-445 | The dispatch on the first four bytes agrees with `Expand` for all inputs |
| HuffmanCode.SqHuffman | src/dblspace_methsq.c:785-893 | Halving and building end for all counts; every counted symbol gets a length from 1 to 15, the code is complete (Kraft sum exactly 1), the histogram is right, the counts used are the given ones halved some number of times, and no code takes fewer bits for them; a length above 7 among fewer than 55 symbols needs a count above 1 |
| HuffmanCode.Sd4Huffman | src/dstacker_compr.c:508-611 | The same for SD4, where the lengths replace the counts; with two counted symbols no uncounted one gets a length |
| HuffmanHeap.Hsort1 | src/dblspace_methsq.c:753-783 | Sifting makes the slots from cl on a heap and only rearranges them |
| HuffmanBuild.Round | src/dblspace_methsq.c:823-847 | One round joins the two lightest subtrees; the heap, the stored nodes, the partition of the symbols and the cost bound are kept |
| HuffmanBuild.BuildTree | src/dblspace_methsq.c:791-849 | The loop `redo_reduced` terminates, because halving lowers the sum of the counts as long as a tree can be too deep |
| HuffmanBuild.DeepHasCount | src/dblspace_methsq.c:836-842 | A tree so high that the Fibonacci number of its height exceeds the number of symbols has a count above 1, so that halving has something to lower |
| HuffmanShortest.TableShortest | src/dblspace_methsq.c:785-893 | The table of lengths taken from the finished tree needs no more bits for the counts used than any table of lengths that satisfies the inequality of Kraft |
| HuffmanShortest.PathCost | src/dblspace_methsq.c:851-890 | With path lengths as code lengths the data take as many bits as the inner nodes weigh |
| HuffmanTree.FibsJoin | src/dblspace_methsq.c:823-847 | Joining keeps the bound: a subtree of height h weighs at least Fib(h) |
| HuffmanTree.JoinForest | src/dblspace_methsq.c:823-847 | Joining the two lightest keeps the forest a partition in which none is lighter than a child of another and which no code beats |
| HuffmanCost.Merge | src/dblspace_methsq.c:823-847 | Any code for given weights leads to one in which the two lightest differ only in their last bit, at no more bits (exchange argument) |
| HuffmanCost.JoinCheap | src/dblspace_methsq.c:823-847 | Joining the two lightest subtrees loses nothing against any code |
| HuffmanCost.CheapestTree | src/dblspace_methsq.c:785-893 | The tree built this way takes no more bits than any code lengths that satisfy the inequality of Kraft |
| HuffmanWalk.Walk | src/dblspace_methsq.c:851-890 | The walk with its stack inside `ch_tab` notes every leaf with its depth and counts the depths |
| HuffmanCode.TableOfTree | src/dblspace_methsq.c:851-890 | The table of depths is a complete code with a length for exactly the symbols of the tree |
| HuffmanCode.TreeSpace | src/dblspace_methsq.c:851-890 | A subtree at depth d takes exactly its share of the code space |
| SqLengths.HelperCode | src/dblspace_methsq.c:1351-1361 | Limiting the helper code to 7 bits by halving ends, and the counted symbols keep codes |
| Canonical.PrefixFree | src/dblspace_methsq.c:895-918 | No code of a table is the front part of another |
| Canonical.SymRoundTrip | src/dblspace_methsq.c:379-410 | Under Kraft equality each symbol written is the one decoded, using exactly its length |
| Canonical.DecodeSymUnique | src/dblspace_methsq.c:379-410 | The symbol whose code stands at a place is the one the search finds there |
| SqCodes.SqWrhufi | src/dblspace_methsq.c:895-913 | The codes of the table are the canonical ones, reversed; an incomplete code is reported |
| SqRead.HufRd.Rdhufi | src/dblspace_methsq.c:238-305 | The two-level table is accepted exactly for full codes and then decodes the code of the lengths |
| SqRead.HufRd.Rdh1 | src/dblspace_methsq.c:379-410 | Through the fast table or the long-code search, the symbol read is the canonical one and its length is consumed |
| SqRead.HufRd.FindLong | src/dblspace_methsq.c:393-405 | The search for codes longer than bn finds length and place in the second table |
| SqRead.TablesUsed | src/dblspace_methsq.c:238-410 | What the two tables say about the bits ahead, against the canonical code |
| SqDecompress.Rdh | src/dblspace_methsq.c:308-376 | Reads characters up to the next token or the end of the buffer, as the block specification does |
| Sd4Codes.WrHufi4 | src/dstacker_compr.c:452-469 | SD4 codes are canonical; an incomplete code is reported |
| Sd4Read.Huf4.RdHufi | src/dstacker_dec.c:483-542 | The SD4 tables, with runs filled in the first table, decode the code of the lengths |
| Sd4Read.Huf4.RdSym | src/dstacker_dec.c:412-481 | A symbol read from the tables is the canonical one |
| Sd4Decompress.Rdh4 | src/dstacker_dec.c:412-481 | Characters up to the next token or the end of the buffer |
| Sd4Decompress.LastCode | src/dstacker_dec.c:742-747 | The code of the last symbol is the last one of its length, so comparing with cd_ch-1 recognises it |
| Reverse.SwapCode | src/dblspace_methsq.c:209-233 | The table-driven reversal of 16 bits, shifted, reverses a code of n bits |
| Reverse.RevVal | src/dblspace_methsq.c:209-233 | Reversing turns the first-bit-low reading of a run into the first-bit-high one |
| SqLengths.Packer.Pack | src/dblspace_methsq.c:1304-1349 | The run-length items expand to the lengths and every item used is counted |
| SqHeader.ReadItems | src/dblspace_methsq.c:596-631 | Run-length-coded lengths are read back as written |
| SqHeader.HelperRead | src/dblspace_methsq.c:572-579 | The helper lengths stored in the order of `code_index_1` come back, the rest being zero |
| SqDecompress.ReadLengths | src/dblspace_methsq.c:596-631 | The reading loop computes `ReadLens`, including a last run that overshoots |
| Sd4Lengths.PackLengths4 | src/dstacker_compr.c:654-697 | The runs expand to the 0x150 lengths, every symbol of theirs has a helper code, and what table 1 leaves out is zero |
| Sd4Header.RunsRead | src/dstacker_dec.c:640-690 | Run-coded lengths, including the open-ended counts, are read back |
| Sd4Header.HelperRead4 | src/dstacker_dec.c:609-634 | Table 1 is read back |
| Sd4Decompress.ReadTable2 | src/dstacker_dec.c:636-692 | The loop over runs computes `ReadLens4` |
| SqComplz.Complz | src/dblspace_methsq.c:975-1192 | Delayed matching, hash chains and pending characters: the intermediate code stands for tokens that produce the input, and every symbol needed has been counted; 0 only for an empty input, lout below 0x20, or when the code of a front part is longer than lout-0x20 |
| SqComplz.Encoder.Search | src/dblspace_methsq.c:1034-1065 | Whatever the hash tables contain, a match reported is a real one that can be encoded |
| SqComplz.Encoder.Delay | src/dblspace_methsq.c:1069-1129 | Looking for better matches further on keeps the match real |
| SqLz.FindToken | src/dblspace_methsq.c:959-972 | Binary search: the last base not above the value |
| SqLz.RepToken | src/dblspace_methsq.c:1136-1141 | The repeat code found is the one the decoder inverts |
| SqLz.OffToken | src/dblspace_methsq.c:1143-1154 | The offset code found is the one the decoder inverts |
| SqFormat.RepSteps | src/dblspace_methsq.c:420-428 | The law of the repeat bases: base(t+1) = base(t) + 2^bits(t), only the last class being one shorter, as 258 has a class of its own |
| SqFormat.OffSteps | src/dblspace_methsq.c:430-437 | The law of the offset bases: base(t+1) = base(t) + 2^bits(t) for all thirty classes |
| SqFormat.ExtraBits | src/dblspace_methsq.c:426-444 | The extra bits in closed form: (t-4)/4 for lengths and t/2-1 for offsets, none at the ends |
| SqFormat.CodeOrder | src/dblspace_methsq.c:416-418 | The storage order of the helper lengths: 16, 17, 18, 0, then 8, 7, 9, 6 and so on outwards |
| Sd4Format.ProgLaw | src/dstacker_compr.c:136-137 | The classes of long SD4 offsets: 5, 7, 9, 11 bits, each class beginning where the one before ends |
| SqFormat.DecodeToks | src/dblspace_methsq.c:656-686 | The tokens of a block and its end symbol decode to the data they produce |
| SqEmit.Emitter.Emit | src/dblspace_methsq.c:1434-1469 | From one buffer that holds both the intermediate code and the growing stream, a run that succeeds emits exactly the bits of the items, long runs without an inner check included; it stops at the first item the stream has come too close to |
| SqEmit.Emitter.WriteChars | src/dblspace_methsq.c:1441-1447 | Characters are coded from the input, so a run may overwrite code already read |
| SqCompress.WriteData | src/dblspace_methsq.c:1434-1478 | The data part of the stream, the end symbol and the flush: 0 < n <= lout if and only if the stream ends before lout and stays 0x20 bytes behind every item still to be read; an overwritten end mark can only shorten the code by an empty run, and then n > lout |
| Sd4Lz.Complz4 | src/dstacker_compr.c:188-430 | The SD4 intermediate code stands for tokens that produce the input, whatever the hash tables hold; 0 only for an empty input, lout below 0x20, or when the code of a front part is longer than lout-0x20 |
| Sd4Lz.ShortToken | src/dstacker_compr.c:351-371 | The doubling loop finds the class of an offset and the offset inside it |
| Sd4Format.DecodeToks4 | src/dstacker_dec.c:706-740 | SD4 tokens, three per class, the long repetitions and the escaped counts, decode to the data they produce |
| Sd4Format.CountRead4 | src/dstacker_dec.c:721-726 | Counts in fields of 4, 8, 12 and 16 bits are read back |
| Sd4Emit.Emitter4.Emit | src/dstacker_compr.c:753-821 | The SD4 emission from the shared buffer succeeds if and only if every item and the end mark is more than 0x20 bytes ahead when it is reached, no run is empty, and no character of a run of 15 and more reaches the next item; then the bits are those of the items |
| Sd4Emit.Emitter4.EndTells | src/dstacker_compr.c:771-819 | Only the end mark of the intermediate code reads as the end |
| Sd3Compress.HashTells | src/dstacker_compr.c:881-884 | Same hash and same first byte: the second bytes agree |
| Sd3Compress.ChainNext | src/dstacker_compr.c:924-949 | Within distance 0x800 the history of a position has not been overwritten, so the next entry again has the same hash |
| Sd3Compress.ChainAdd | src/dstacker_compr.c:886-895 | Entering a position keeps the chain invariant |
| Sd3Compress.Sd3Hashes.Search | src/dstacker_compr.c:930-949 | Following the chain finds only real matches, although the second byte is never compared |
| Sd3Compress.Layout | src/dstacker_compr.c:1018-1026 | The checksum stands where the decoder looks for it and the last token is inside what its loop reads |
| Sd3Format.CountRead | src/dstacker_dec.c:198-226 | Escaped counts are read back |
| DsCompress.CompressToken | src/dblspace_compr.c:267-330 | One step of the compressor extends the tokens by what produces the next bytes |
| DsFormat.ReadLenBits | src/dblspace_dec.c:143-217 | Repeat counts of all nine classes are read back |
| DsDecompress.DecRep | src/dblspace_dec.c:219-253 | A repetition or sync marker, with its error cases |
| Bits.OrDisjoint | src/dblspace_methsq.c:720-732 | Or-ing bits above what the buffer holds is adding them |
| LsbStream.Writer.WrN | src/dblspace_methsq.c:711-732 | Appends exactly the n bits; the 32-bit buffer never overflows; a full buffer is noticed |
| LsbStream.Reader.RdN | src/dblspace_methsq.c:117-150 | Reads exactly the next n bits; behind the input come zeros |
| Sd4Stream.Writer4.WrN | src/dstacker_compr.c:440-450 | The same for words filled from the top |
| Sd4Stream.Reader4.RdN | src/dstacker_dec.c:378-407 | The same for reading them |
| Sd3Compress.Sd3Writer.WrN | src/dstacker_compr.c:860-870 | The SD3 writer appends exactly the n bits |
| Sd3Decompress.BitStreamC.Read9BitC | src/dstacker_dec.c:110-126 | Nine bits across two or three bytes |
| Sd3Decompress.BitStreamC.Read2BitC | src/dstacker_dec.c:153-179 | Two bits, also when they straddle a byte |
| Lz.MovSb | src/dblspace_dec.c:64-64 | The overlapping forward copy |
| Lz.MatchRepeat | src/dblspace_dec.c:219-253 | A match inside the data is exactly a repetition that produces it, overlap included |
| VolumeAlloc.Volume.Replace | src/dblspace_alloc.c:497-703 | Every call keeps the invariant. Success: the cluster owns as many sectors as asked for and the bitmap changes exactly by giving back the old ones and taking the new ones. -ENOSPC: bitmap unchanged, no run of that size (nor enough sectors for fragments) was free, and the entry is zeroed if it was in use |
| VolumeAlloc.Volume.FreeClusterSectors | src/dblspace_alloc.c:45-141 | The sectors of the cluster, fragments included, are cleared and nothing else; the undo list names them |
| VolumeAlloc.Volume.FindFree | src/dblspace_alloc.c:157-372 | Whatever the hints and the strategy: a positive result starts `size` free sectors in the area; otherwise no such run starts from datastart to dataend-size, and s_full is set |
| VolumeAlloc.Volume.TryFragmented | src/dblspace_alloc.c:382-483 | Success: at least two increasing, disjoint, free runs that add up to nr and are named by the list; -ENOSPC: fewer than nr sectors are free |
| VolumeAlloc.Volume.SetBit | src/dblspace_tables.c:534-644 | One bit changes and the free count follows |
| VolumeAlloc.Volume.CheckFreeSectors | src/dblspace_compr.c:655-683 | Afterwards the count is known and right |
| VolumeAlloc.Volume.FragmentsShort | src/dblspace_alloc.c:619-658 | When fragments are used, each is short enough for its entry and one does not do |
| VolumeAlloc.Volume.TakenSafe | src/dblspace_alloc.c:497-703 | Marking free sectors for a cluster leaves all others safe |
| VolumeAlloc.Volume.FreedSafe | src/dblspace_alloc.c:45-141 | Clearing sectors no other cluster owns leaves the others safe |
| VolumeAlloc.Volume.Undo | src/dblspace_alloc.c:660-677 | Taking the sectors back restores the bitmap bit for bit |
| VolumeAlloc.Volume.TooFew | src/dblspace_alloc.c:157-180 | With too few free sectors there is no run |
| FragList.FragRoundTrip | src/dblspace_alloc.c:435-440 | A fragment entry is read back if and only if its count fits six bits |
| FragList.ListRoundTrip | src/dblspace_alloc.c:416-440 | A list written is the list read |
| VolumeState.FreedOwned | src/dblspace_alloc.c:80-141 | What is freed is owned; it is everything unless the list has one entry too many |
| SectorMap.SetTwice | src/dblspace_alloc.c:660-677 | Setting clear bits and clearing them again restores the bitmap |
| ClusterIo.WriteCluster | src/dblspace_compr.c:463-651 | After success the volume is valid, every other cluster reads as before, the entry says how the cluster is stored, and it reads back as the sectors written, zero-filled, unless it is fragmented and compressed or its list is too long, in which case every read fails. It is stored uncompressed only if asked for, of one sector, or if compressing saves no sector. -ENOSPC: bitmap and disk unchanged and no room for the sectors needed even with the old ones free. UC_TEST changes nothing and answers whether plenty is free; length 0 deletes, after which the cluster reads as zeros |
| ClusterIo.ReadCluster | src/dblspace_dec.c:557-721 | For all entries within the cluster size the reader computes `ReadOf` |
| ClusterIo.PlainReads | src/dblspace_dec.c:557-721 | Unfragmented: what was stored is read back, compressed or not |
| ClusterIo.PackedFragmentFails | src/dblspace_compr.c:418-422 | A compressed fragmented cluster has its data where the list should be, and data never look like a list: reading it back is always refused |
| ClusterIo.PackedHead | src/dblspace_compr.c:418-422 | The second byte of compressed data is never zero, which is what tells it from a fragment list |
| ClusterIo.SpreadFlat | src/dblspace_compr.c:375-443 | What is written to different sectors, one after the other, is read back |
| ClusterIo.FragmentedReads | src/dblspace_dec.c:451-549 | Fragmented and uncompressed: read back if and only if the list is not longer than s_sectperclust |
| ClusterIo.WriteFragmented | src/dblspace_compr.c:375-443 | The list and the data go to the sectors of the fragments; in a compressed cluster the data go over the list |
| ClusterSpec.ReadFrame | src/dblspace_dec.c:557-721 | Writing sectors a cluster does not own does not change how it reads |
| TableCache.Acache.Get | src/dblspace_tables.c:46-106 | The slot holds the area as it is on disk, the slot that must stay stays, and the cache remains coherent |
| TableCache.Acache.Put | src/dblspace_tables.c:334-342 | A changed slot is written through; the cache stays coherent |
| Tables.FatNextCluster | src/dblspace_tables.c:413-531 | Through the cache, reads and writes of 12 and 16-bit entries act on a flat table |
| Tables.FatSame | src/dblspace_tables.c:413-531 | A value written is the value read, end-of-chain values included |
| Tables.FatOthers | src/dblspace_tables.c:413-531 | All other entries keep their values although entries of a byte and a half share bytes |
| Tables.FatReachable | src/dblspace_tables.c:428-455 | No FAT entry leaves a group of three sectors, so area+1 is right |
| Tables.StacReachable | src/dblspace_tables.c:166-195 | No Stacker MDFAT entry leaves a group of six sectors |
| Tables.AreasDiffer | src/dblspace_tables.c:171-173 | The 3-of-9 and 6-of-9 maps from sectors of a table to sectors on disk are injective |
| Tables.TablesApart | src/dblspace_tables.c:173-173 | FAT and MDFAT of a Stacker volume never share a sector |
| Tables.Groups | src/dblspace_tables.c:171-173 | Of each nine sectors the MDFAT of a Stacker volume has the first six and the FAT the last three |
| Tables.AreasRise | src/dblspace_tables.c:171-173 | The sectors of a table stand on disk in their order |
| MdfatTables.MdfatValue | src/dblspace_tables.c:133-397 | Reading and writing entries of DoubleSpace and DriveSpace 3 volumes through the cache |
| MdfatTables.MdePut | src/dblspace_tables.c:133-397 | The entry written is read back with the bits that fit, and all others are unchanged (4 and 5 bytes) |
| MdfatTables.StacPut | src/dblspace_tables.c:133-397 | The same for Stacker entries of 3 and 4 bytes |
| MdfatTables.EntryReachable | src/dblspace_tables.c:133-397 | No entry needs a sector other than its own and the next one |
| MdfatLayout.Layout4 | src/dblspace_tables.c:311-343 | An entry of DoubleSpace or DriveSpace as a bit string: 21 bits of sector, a zero, 4 and 4 bits of sizes, 2 of flags |
| MdfatLayout.Layout5 | src/dblspace_tables.c:346-379 | An entry of DriveSpace 3: 24 bits of sector, 2 of the unknown and fragmented bits, 6 and 6 bits of sizes, 2 of flags |
| MdfatLayout.LayoutStac | src/dblspace_tables.c:163-255 | An entry of Stacker, sector and size in two parts each: 16, 4, 4 and for wide entries 6 and 2 bits |
| TableCache.Acache.FindSlot | src/dblspace_tables.c:56-89 | The slot that holds the area if there is one, otherwise the one to give up, which is never the slot to be spared |
| BitfatTables.BitfatValue | src/dblspace_tables.c:534-644 | Through the cache, the state of a sector is read and changed in all three layouts (16-bit words from the highest bit; one bit and two bits a sector from the lowest), and a known free count follows; outside the data area and behind the end of the disk -1 and no change |
| BitfatTables.StateKept | src/dblspace_tables.c:534-644 | A state changed is the state read, and all other sectors keep theirs although they share bytes |
| BitfatTables.NewUnitBits | src/dblspace_tables.c:604-622 | Or and and-not with the mask change the bits of one sector only |
| BitfatTables.BitIs | src/dblspace_tables.c:608-615 | Testing a word with the mask 0x8000 >> k is reading bit 15-k |
| VolumeOnDisk.BitWritten | src/dblspace_tables.c:604-635 | On one disk with all three tables, a bit written is one sector taken or given back; MDFAT, FAT, data and all other bits stay |
| VolumeOnDisk.MdeWritten | src/dblspace_tables.c:311-379 | An MDFAT entry written is the entry of its cluster; BITFAT, FAT and data stay |
| VolumeOnDisk.LinkWritten | src/dblspace_tables.c:413-531 | A FAT entry written is the successor of its cluster; BITFAT, MDFAT and data stay |
| VolumeOnDisk.DataWritten | src/dblspace_compr.c:463-651 | A data sector written leaves all three tables alone |
| VolumeOnDisk.CountFollows | src/dblspace_tables.c:624-635 | The free count follows the number of clear bits |
| VolumeOnDisk.SetBitOnDisk | src/dblspace_tables.c:534-644 | The access on disk and the step of the allocator model agree: disk and volume stay in correspondence and so do the free counts |
| StacWalk.Cwalk.Init | src/dstacker_alloc.c:45-340 | For every allocation type and mode: 1, 0, -1 and the number of bytes each exactly when due: the fragment list, the suballocated first sector and the shared last sector are accepted under exact conditions, the bytes announced are the data of the entry cut to the cluster size, and the walk that follows is prepared for exactly the sectors of the entry |
| StacWalk.Cwalk.CollectBytes | src/dstacker_dec.c:848-880 | From a prepared start the loop visits the sectors of the entry in order (the first run, then the pieces of the list) and collects the announced front part of their data, exactly if the shares add up to the announced number and the sectors exist |
| StacWalk.Cwalk.Advance | src/dstacker_alloc.c:344-382 | Each step gives out the next of the sectors still to come, through the fragments in list order, with its share of the data; 0 at the end only |
| StacWalk.WalkCluster | src/dstacker_dec.c:848-880 | Init and loop together: the sectors visited are those of the entry and the data the announced front part of their contents, from the first offset on, if and only if the entry is less than a sector too long and its sectors exist |
| StacIo.StacReadCluster | src/dstacker_dec.c:791-899 | For all entries, disks and buffers the reader computes `StacReadOf`: walk, dispatch on the compression bit, decompression, zero-filled rest, errors |
| StacIo.CompressedRead | src/dstacker_dec.c:880-899 | Data compressed for Stacker are read back from every cluster that begins with them |
| VolumeCheck.SimpleCheck | src/dblspace_chk.c:286-606 | Every answer exactly: -1 if and only if two FAT entries share a successor; -2 if and only if part 2 fails, or part 1 finds dead entries without repair; -3 if and only if only the bitmap is wrong and nothing may be repaired; 0 without repair if and only if the volume is sound, with repair if and only if the table without its dead entries is good, and then the volume is sound. The new table and bitmap are given; the free count is the one from before the repair |
| VolumeCheck.SoundValid | src/dblspace_chk.c:286-606 | A sound volume with a right count satisfies the invariant the allocator keeps if and only if no cluster has more than s_sectperclust+1 sectors |
| VolumeCheck.SoundNotValid | src/dblspace_chk.c:439-520 | A volume that passes the check although one of its clusters has five sectors where three are the most the allocator hands out: the counts in a list are not added up |
| VolumeCheck.CheckMdfat | src/dblspace_chk.c:399-557 | Part 2 accepts exactly the tables whose sectors are in the area and named once |
| VolumeCheck.CheckFat | src/dblspace_chk.c:308-374 | Part 1: -1 if and only if two entries share a successor, -2 if and only if a free cluster has a used entry and nothing may be repaired; repair clears exactly the dead entries, up to the first clash when there is one |
| VolumeCheck.CheckBitfat | src/dblspace_chk.c:559-600 | Counts or repairs the differences between bitmap and clusters |
| FatCheck.FatChecker.CheckFat | src/dmsdosfsck.c:117-172 | Only faulty entries are cut: an entry changes only if it is 1, closes a loop, or shares its successor with another. A healthy FAT gives no error and is unchanged in every mode; no error means healthy. Report-only counts exactly the faulty entries and changes nothing, other modes no more than these. Aborting means that a chain did not end; automatic repair never aborts, ends all chains and cuts all entries that share a successor |
| FatCheck.HealthyKept | src/dmsdosfsck.c:132-172 | Where no entry is 1, all chains end and no cluster has two predecessors, nothing may be cut |
| FatCheck.NothingFaulty | src/dmsdosfsck.c:132-172 | In such a FAT no entry is faulty |
| FatCheck.NoComplaint | src/dmsdosfsck.c:132-172 | When nothing is counted, no entry is 1 and no two share a successor |
| FatCheck.LoopNeverEnds | src/dmsdosfsck.c:81-115 | A path that closes a loop never ends, which is why an abort is justified |
| FatCheck.FatChecker.CheckFatLoop | src/dmsdosfsck.c:81-115 | The search for a loop ends, its list being free of repetition and never full; it reports loops exactly |
| FatCheck.Circle | src/dmsdosfsck.c:97-109 | A path that comes back to itself never leaves the range of clusters |
| FatCheck.PathShort | src/dmsdosfsck.c:81-115 | A list of clusters without repetition is no longer than their number |

## Left out

- SQ submethods 0 and 1 (raw and fixed codes): marked untested in the code, never written by the encoder; the decoder model answers
  `Unmodelled`.
- Overfull code tables that pass the completeness test modulo 2^16 (src/dblspace_methsq.c:266, src/dstacker_dec.c:511): their tables would be written
  beyond their ends; the decoders answer `Unmodelled` or `NotModelled4`.
- SD4 repeats of a length before the first one, and SD3 repeats of the byte before the buffer: outside the buffer, not modelled.
- Sd4Compress.Sd4Comp: for inputs below 64 KB only, because the intermediate code keeps counts and offsets in 16 bits; clusters have 32 KB at most.
- Sd3Compress.Sd3Comp: the output is modelled as what has been written. The C checks the space before each token only, so a long match near the
  end can write behind the buffer; nothing is said about that.
- Sd4Stream.Writer4.WrN: bytes written behind the end of the buffer, which the C does not exclude while it writes the code tables, are not
  modelled; `Sd4Comp` returns a length only if there were none.
- SqCompress.SqComp: for an odd size of the output buffer one byte behind it must exist, as the writer stores whole words.
- ClusterIo.ReadCluster: answers "not modelled" for a compressed cluster whose SQ stream is one of those left out above.
- VolumeCheck.SimpleCheck: requires FAT entries that fit the field of bits; the C sets and tests bits behind the field for larger entries
  (src/dblspace_chk.c:331-341). Later complaints of part 2, which only change messages, and the limit on messages are not modelled.
- VolumeAlloc.Volume.Replace: keeps `s_free_sectors` right or unknown, as the code does, but says nothing about the log counters.
- Second copies of FAT and the second FAT of Stacker, derived Stacker flag bits, several devices in one cache.
- Coherence between `stac_bitfat_state`, which bypasses the cache, and the cache.
- `stac_write_cluster`, `stac_replace_existing_cluster`, `stac_simple_check` and freeing of Stacker clusters.
- StacIo.StacReadCluster: a fragment that begins at sector 0, where the walk ends early, and compressed data of less than two bytes are not modelled; nor is
  the read-ahead call without a buffer.
- Which repetitions the compressors choose: the search is modelled step by step, and every choice it can make is proved sound, but that a longer
  match is preferred is not stated; the tables of try counts and levels are data.
- Raw writes (ucflag < 0), guessing a method from the file name, read-ahead, failures of `raw_getblk`, `raw_bread` on existing sectors and of memory allocation.
- `MAX_COMP` code, inline assembler, big-endian variants, statistics and logging.
- Mounting, boot sectors, option parsing, the kernel glue and the tools except the FAT pass of dmsdosfsck.
- `setup_fragment` and `translate_direct`.
