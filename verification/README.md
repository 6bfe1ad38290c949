# Rhizofs: verified models of its algorithms and protocols

Rhizofs mounts a directory of a remote server. Its client sends requests over the network, carries file
contents in compressed data blocks and keeps file attributes in a small cache. This project models the four
parts in which the difficult reasoning is, and proves what the rest of the program relies on.

**The LZ4 codec.** `Lz4Format` gives a block its meaning, a byte-by-byte LZ77 copy, and its serialisation.
`Lz4Compress` is the choice the compressors make (match finder, catch-up, match counting, chaining, in both
table variants) with the proof that the chosen block means the input; `Lz4Greedy` says which block that is without
loops and tables; `Lz4Compressor` is the code, one hash table and one buffer updated in place. `Lz4Decode` says what
the two decoders do with an arbitrary input, byte by byte, including every error exit; `Lz4Parse` and
`Lz4ParseBounded` say exactly which bytes make them accept, and which make them stop and where; `Lz4Decoder` is the
code, which copies eight bytes at a time past the logical end. `Lz4Words` and `Lz4DeBruijn` treat match counting,
`Lz4Size` the output size, and `Lz4RoundTrip` joins both directions. The configuration is 64-bit little-endian with a
compression level of 12.

**The data block.** `DataBlocks` turns the codec's theorem into what the filesystem needs: what was set is read
back, in which cases exactly, and at what size.

**The hash table.** `HashChains` is the link surgery on one chain, `HashArrays` and `HashResize` that on the
array of chains, `HashOrder` the order of a scan, `HashTables` the table as a class that refines a finite map,
`HashScans` the scanner that tolerates deletion, `HashVerify` the table's own check, `HashRuns` whole runs of calls.
`Bits` holds the masks.

**The attribute cache and the client.** `AttrCaches` is the cache as a class over the hash table; `CacheRuns`
relates whole runs of calls to a cache without bound or age, and `CacheEvictions` shows what the cache does not
promise. `Staleness` is a step system of clock, server and one client, with theorems over all its runs; `Clients` is
the client as a class, every execution of which is such a run.

Where the code and its documentation disagree the model follows the code:

- `LZ4_COMPRESSMIN` promises a gain of 100 bytes (`src/lz4.c:51-57`); the size test counts one length byte too few, so
  a block may be kept with a gain of 99 (`Lz4Size.KeptSize`, `Lz4Size.GainFallsShort`).
- `src/fs/attrcache.h:94` says that the oldest entries are removed first; the code removes expired entries and then
  the first in scan order. `AttrCaches.ShrunkOldestFirst` says exactly when that is oldest first, and
  `CacheEvictions.EvictYounger` is a cache for which it is not.
- Setting a path that a full cache already holds makes room all the same and evicts others (`src/fs/attrcache.c:174-187`):
  `AttrCaches.AttrCache.SetKeepsOthers` gives the exact condition, `CacheEvictions.FullCacheForgets` an instance.
- A successful call drops one path from the cache and no other (`src/fs/rhizofs.c:800` for a rename), so for up to the age
  limit getattr of another path that it changed may return outdated attributes: the target of a rename, entries below a
  renamed directory, the source of a hard link. `Staleness.ReadBack` gives the exact condition.
- Once the server's response is there, its error number is 0, and every later failure returns that 0
  (`src/fs/rhizofs.c:430`, `src/fs/rhizofs.c:484`, `src/fs/rhizofs.c:682`): getattr without usable attributes, a listing cut short by
  an entry that cannot be used and a write of unknown size all report success. The contracts of `Clients.Client.Getattr`,
  `Clients.Client.Readdir` and `Clients.Client.Write` say exactly when.
- `DataBlock_get_data_noalloc` compares the buffer with the recorded size but copies as many raw bytes as the block has
  (`src/datablock.c:167` and `src/datablock.c:226`). `DataBlocks.DataBlock.GetDataNoAlloc` says exactly when that is too many,
  `DataBlocks.ReceiveOversized` is such a block, and `DataBlocks.SetBlocksFit` shows that setting never makes one.
- Setting empty data leaves the compression mark of the block (`src/datablock.c:52-58`), so empty data set into a block that was
  marked as compressed is not read back (`DataBlocks.SetThenGet` gives the exact condition; fresh blocks are not affected).

## Model

| member | source | states |
|---|---|---|
| `Lz4Words.NbCommonBytesCounts` | src/lz4.c:260-287 | of two different little-endian words, the bit count of their exclusive or, divided by 8, is the number of leading equal bytes |
| `Lz4DeBruijn.NbCommonBytesAgree` | src/lz4.c:283-285 | the De Bruijn table form of the bit count equals the trailing-zero form on every nonzero 64-bit word, the product and `val & -val` taken modulo 2^64 |
| `Lz4Words.CommonLengthIsLongest` | src/lz4.c:424-436 | the reference for match counting is the greatest n such that the n bytes at both places agree below the limit |
| `Lz4Words.CountMatch` | src/lz4.c:426-436 | the 8-byte exclusive-or loop with its 4/2/1-byte tail stops exactly where the longest common prefix, capped at the limit, ends |
| `Lz4Words.CountTail` | src/lz4.c:433-435 | the tail, entered with fewer than 8 bytes to the limit, finishes the count |
| `Lz4Format.CopyBackUnique` | src/lz4.c:692-720 | the byte-by-byte copy is the only extension of the output in which every new byte repeats the byte `offset` positions before it |
| `Lz4Format.RunAppend` | src/lz4.c:419-441 | emitting one more sequence executes it after all earlier ones |
| `Lz4Format.SequenceExpansion` | src/lz4.c:410-441 | a serialised sequence takes at most 256/255 of the text it stands for |
| `Lz4Copy.WildCopyIn` | src/lz4.c:251-252 | the 8-byte-step copy of literals delivers the n bytes and touches nothing beyond the last step |
| `Lz4Decode.HeadEncoded` | src/lz4.c:671-683 | token, run length and literals are read back from their serialisation |
| `Lz4Decode.MatchEncoded` | src/lz4.c:686-690 | offset and match length are read back from their serialisation, by both length readers |
| `Lz4Decode.LastLiteralsRemain` | src/lz4.c:443-444 | if matches end 5 bytes early, the output before the last run always leaves room for those bytes |
| `Lz4Decode.DecodeSequence` | src/lz4.c:670-720 | on a sequence that obeys the end conditions both decoders take the ordinary branch, execute it and go on right behind it |
| `Lz4Decode.DecodeLast` | src/lz4.c:676-682 | `LZ4_uncompress` recognises the final run by the end of the output and consumes it exactly |
| `Lz4Decode.DecodeLastUnknown` | src/lz4.c:762-771 | the other decoder recognises it by the end of the input |
| `Lz4Decode.DecodeFrom` | src/lz4.c:649-729 | on any serialised legal block, with anything behind it, `LZ4_uncompress` consumes the block exactly and produces its meaning |
| `Lz4Decode.DecodeUnknownFrom` | src/lz4.c:732-818 | the other decoder does the same in every output buffer that is large enough |
| `Lz4Parse.Explained` | src/lz4.c:649-729 | whatever `LZ4_uncompress` answers on an input, damaged or not, is explained by the bytes that stand there: sequences in the format and one of five reasons to stop, a last run, a match that fills the output, a run or a match too long for it, an offset before its beginning |
| `Lz4Parse.ExplanationDecides` | src/lz4.c:649-729 | the converse: such bytes decide the answer |
| `Lz4Parse.UncompressExactly` | src/lz4.c:649-729 | both together: on every input the decoder finishes with this text and position, or reports an error at this position, if and only if there is such an explanation; otherwise it reads past the input |
| `Lz4Parse.AcceptedIsBlock` | src/lz4.c:649-729 | the converse of decoding a legal block: what has been consumed is the serialisation of executable sequences and a last run, or of sequences that fill the output exactly, and the text is their meaning |
| `Lz4ParseBounded.UncompressUnknownExactly` | src/lz4.c:732-818 | the same if-and-only-if for the other decoder, with its further reasons to stop at the end of the input |
| `Lz4Decoder.WildCopyBack` | src/lz4.c:251-251 | from a distance of at least 8 the 8-byte-step copy within the output repeats at that distance; it overshoots by less than 8 |
| `Lz4Decoder.ByteCopyBack` | src/lz4.c:714-714 | the byte loop repeats at any distance of at least 1 |
| `Lz4Decoder.EchoMultiple` | src/lz4.c:693-708 | in a stretch that repeats at an offset, bytes a multiple of the offset apart are equal |
| `Lz4Decoder.EchoContinues` | src/lz4.c:693-719 | copying from a multiple of the offset behind continues the repetition at the offset |
| `Lz4Decoder.DistanceIsMultiple` | src/lz4.c:664-664 | for every offset, after the first 8 bytes the `dec`/`dec2table` adjustments leave a source distance that is at least 8 and a multiple of the offset |
| `Lz4Decoder.FirstStep` | src/lz4.c:693-708 | the first 8 bytes of a match repeat at the offset, whatever the offset, and the source is then the stated distance behind |
| `Lz4Decoder.ShortOffset` | src/lz4.c:695-707 | the same for offsets below 8: four single bytes, `dec`, four bytes at once, `dec2table` |
| `Lz4Decoder.CopyRest` | src/lz4.c:709-720 | the later steps repeat at the distance up to the match end and write nothing at or behind `oend` |
| `Lz4Decoder.MatchCopied` | src/lz4.c:693-720 | both phases together leave what the byte-by-byte copy leaves |
| `Lz4Decoder.CopyMatch` | src/lz4.c:692-720 | a match is refused exactly if it does not fit; otherwise the result is the byte-by-byte copy, and nothing outside the output is written |
| `Lz4Decoder.ReadLength` | src/lz4.c:672-672 | the length loop of `LZ4_uncompress` equals the recursive reading of 255-runs, including running off the input |
| `Lz4Decoder.ReadLengthBounded` | src/lz4.c:758-758 | the length loop of the other decoder, which stops at the end of its input |
| `Lz4Decoder.Uncompress` | src/lz4.c:649-729 | for every input: return code, position of every error exit and decoded text agree with the byte-by-byte reading, nothing behind `osize` is written, and it terminates |
| `Lz4Decoder.UncompressUnknownOutputSize` | src/lz4.c:732-818 | the same for the decoder that knows its input length; it never reads past its input |
| `Lz4Compress.StoredExactly` | src/lz4.c:477-491 | below `LZ4_64KLIMIT` every position entered in the 16-bit table is at most 65534 and is stored untruncated; likewise for 32 bits |
| `Lz4Compress.AcceptableMatch` | src/lz4.c:547-547 | an accepted candidate agrees on 4 bytes and lies at most 65535 back, in the 16-bit variant without any distance test |
| `Lz4Compress.CatchUpIsRecovered` | src/lz4.c:407-436 | match counting covers again the bytes given back by catch-up: the match never ends before the four bytes that were verified |
| `Lz4Compress.FoundIsBeforeEnd` | src/lz4.c:401-447 | after a match is found, every table entry is a position before the end of that match |
| `Lz4Compress.MatchIsSame` | src/lz4.c:423-436 | all bytes counted into a match agree with its source |
| `Lz4Compress.CopyReproduces` | src/lz4.c:420-436 | copying from the source of a match reproduces the input |
| `Lz4Compress.EmitCovers` | src/lz4.c:410-444 | emitting one match keeps the loop invariant: the sequences are executable, obey the end conditions and mean the input up to the anchor |
| `Lz4Compress.ChainCovers` | src/lz4.c:419-452 | so does a whole chain of matches that follow each other without literals |
| `Lz4Compress.LoopIsLegal` | src/lz4.c:385-457 | the main loop, from any state satisfying the invariant, ends with a legal block for the input |
| `Lz4Compress.ChooseIsLegal` | src/lz4.c:339-472 | for every input, in either variant, the chosen block means the input, has offsets in 1..65535, starts matches 12 and ends them 5 bytes before the end |
| `Lz4Greedy.KeyIsHash` | src/lz4.c:386-401 | the hash of a position is the top 12 or 13 bits of the 32-bit product of its four bytes, written out |
| `Lz4Greedy.RemembersNext` | src/lz4.c:400-401 | entering a position keeps: under the hash of any position the table has the position entered last under that hash, or the beginning of the input |
| `Lz4Greedy.SearchProbes` | src/lz4.c:386-405 | the search probes at steps that grow by one every 64 probes, takes the first probe at which the position looked up has four equal bytes in reach, and gives up only when the next probe would come closer than 12 bytes to the end |
| `Lz4Greedy.MatchIsLongest` | src/lz4.c:407-436 | the match goes back as far as the bytes agree, to the anchor or the beginning, and forward as far as they agree, to the last five bytes |
| `Lz4Greedy.GreedyDecides` | src/lz4.c:385-457 | there is only one way to divide an input into such matches |
| `Lz4Greedy.ChooseExactly` | src/lz4.c:385-457 | the chosen block is the one made of these matches, looked up among all positions entered before (each probe, and the one two bytes before each match end), and no other block is |
| `Lz4Size.ExpansionBound` | src/lz4.c:410-441 | all sequences together take at most 256/255 of the text they stand for |
| `Lz4Size.CoveredSize` | src/lz4.c:385-457 | at every loop head the output written is at most 256/255 of the input covered |
| `Lz4Size.KeptSize` | src/lz4.c:459-471 | a kept block is at least 99 bytes shorter than the input, and exactly 99 if and only if the last run is 15 or more and the size test is just passed |
| `Lz4Size.KeptExactly` | src/lz4.c:459-471 | a block is kept, and then is its serialisation, if and only if that is shorter than the input by 100 bytes, or by 99 if the last run is 15 or more |
| `Lz4Size.RunIsOneMatch` | src/lz4.c:385-457 | on a run followed by fresh bytes both variants emit exactly one match of offset 1 and the rest as literals |
| `Lz4Size.GainFallsShort` | src/lz4.c:51-57 | the documented gain of `LZ4_COMPRESSMIN` bytes is not kept: a 121-byte input is stored with a gain of 99 |
| `Lz4Compressor.PutLength` | src/lz4.c:413-413 | the loop that writes a literal length writes its 255-run |
| `Lz4Compressor.PutMatchLength` | src/lz4.c:440-440 | the loop that writes two bytes at a time writes the same 255-run |
| `Lz4Compressor.PutLiterals` | src/lz4.c:410-417 | token, length and literals are appended, with up to 8 bytes of scratch behind them inside the buffer |
| `Lz4Compressor.PutMatch` | src/lz4.c:438-441 | the token already written gets its low nibble and the match length is appended |
| `Lz4Compressor.FindMatch` | src/lz4.c:386-405 | the probing loop with its forward hash and growing step computes the search function and leaves its table |
| `Lz4Compressor.MoveBack` | src/lz4.c:407-408 | the catch-up loop moves both positions back by the catch-up count |
| `Lz4Compressor.LiteralsHaveRoom` | src/lz4.c:410-421 | literals with their scratch bytes, and the offset behind them, end within isize + isize/255 because 12 bytes of input remain |
| `Lz4Compressor.BuffersSuffice` | src/lz4.c:328-331 | the advertised bound and len + len/250 both give that room |
| `Lz4Compressor.PutSequence` | src/lz4.c:419-441 | offset, counted match and length bytes complete the serialisation of the sequence and keep the loop invariant |
| `Lz4Compressor.PutChain` | src/lz4.c:419-456 | the `_next_match` loop emits exactly the sequences of the chain and leaves its table |
| `Lz4Compressor.PutLast` | src/lz4.c:459-471 | the final run is written, or 0 returned, exactly as the size test decides; `Lz4Size.KeptExactly` says by how many bytes |
| `Lz4Compressor.CompressLoop` | src/lz4.c:384-457 | the main loop leaves the serialisation of all chosen sequences and the anchor of the last run |
| `Lz4Compressor.CompressCtx` | src/lz4.c:482-614 | both compressors leave in the buffer exactly the serialised chosen block, or return 0, and touch nothing from isize + isize/255 on, however large the buffer is |
| `Lz4Compressor.Compress` | src/lz4.c:618-634 | the entry point selects the 16-bit variant below 65547 bytes; it returns a positive length if and only if the serialised block is shorter than the input by 100 bytes, or by 99 if its last run is 15 or more, and then the buffer holds that block; nothing is touched from isize + isize/255 on |
| `Lz4RoundTrip.UncompressInverts` | src/lz4.c:649-729 | any legal block for a text is decoded to that text, consuming exactly the block, whatever follows it |
| `Lz4RoundTrip.UnknownInverts` | src/lz4.c:732-818 | so does the other decoder, for every large enough output size |
| `Lz4RoundTrip.RoundTrip` | src/lz4.c:618-729 | for every input whose compression is kept, both decoders return the input and consume the whole output |
| `Lz4RoundTrip.CompressAndBack` | src/lz4.c:618-818 | the three procedures run one after the other give the input back and the consumed length equals the produced length |
| `DataBlocks.SetThenGet` | src/datablock.c:46-157 | what was set, and nothing else, is read back exactly unless empty data is set into a block already marked as compressed, whose mark stays; setting fails exactly for long data with an unknown type |
| `DataBlocks.StoredSize` | src/datablock.c:60-107 | stored data is never longer than the original, and at least 99 bytes shorter if kept compressed; size is the original length |
| `DataBlocks.SqueezedReads` | src/datablock.c:296-327 | a compressed block is read back as the original data: the consumed-length check passes |
| `DataBlocks.SqueezedExactly` | src/datablock.c:249-289 | compression is kept if and only if the block is shorter than the data by 100 bytes, or by 99 if its last run is 15 or more |
| `DataBlocks.ReadsWhole` | src/datablock.c:296-327 | any compressed block, damaged or not, gives data if and only if the whole of its bytes is explained by sequences and a last run or last match; the data is then the text they mean, filled up to the recorded size |
| `DataBlocks.GotIsBlock` | src/datablock.c:296-327 | what a block gives data for is a block in the format, and the data begins with its meaning, unless it copies at offset 0 |
| `DataBlocks.DataBlock.SetLz4` | src/datablock.c:249-289 | a buffer of len + len/250 bytes is enough; the block holds the compressed bytes, or nothing if compression gained too little |
| `DataBlocks.DataBlock.SetData` | src/datablock.c:46-117 | non-empty data of more than 100 bytes with LZ4 requested is stored compressed and marked so if and only if compression is kept; in every other successful case with data the bytes are the data and the mark is none; empty data keeps the mark; failure clears the data |
| `DataBlocks.DataBlock.GetData` | src/datablock.c:120-157 | every answer is one that the stored fields allow, on any block, malformed ones included |
| `DataBlocks.DataBlock.GetLz4` | src/datablock.c:296-327 | decoding succeeds exactly if the decoder consumed the whole block; the block is unchanged |
| `DataBlocks.DataBlock.GetDataNoAlloc` | src/datablock.c:160-226 | the same into the caller's buffer: refused without writing if it is smaller than the recorded size; copied past its end exactly if the block is raw and its bytes are more than a buffer that the size fits |
| `DataBlocks.ReceiveOversized` | src/datablock.c:167-226 | two raw bytes under a recorded size of one overrun a buffer of one byte |
| `DataBlocks.SetBlocksFit` | src/datablock.c:88-106 | no block that was set can do so |
| `DataBlocks.SendAndReceive` | src/request.c:125-146 | setting data into a fresh block and reading it returns the data; the stored length is at most the original |
| `HashArrays.MaskGrows` | src/kazlib/hash.c:168-169 | one more mask bit sends a hash value to its old chain or to that chain's sister in the new half |
| `HashChains.SplitChain` | src/kazlib/hash.c:175-187 | a chain is split in place by the exposed bit into two disjoint acyclic chains that hold exactly its nodes |
| `HashChains.SpliceChains` | src/kazlib/hash.c:241-250 | two sister chains are joined in place into one that holds the nodes of both in order |
| `HashChains.Unlink` | src/kazlib/hash.c:607-616 | one node is taken out of its chain, all others keep their order |
| `HashResize.MapOkSplit` | src/kazlib/hash.c:174-191 | after all chains are split every node is on the chain its hash value selects under the wider mask |
| `HashResize.MapOkJoin` | src/kazlib/hash.c:240-251 | after all sister chains are joined every node is on the chain its hash value selects under the narrower mask |
| `HashResize.Double` | src/kazlib/hash.c:158-191 | doubling in place keeps the map |
| `HashResize.Halve` | src/kazlib/hash.c:232-255 | halving in place keeps the map |
| `HashTables.HashTable.constructor` | src/kazlib/hash.c:293-326 | a new table is empty, has 64 chains and thresholds 128 and 32 |
| `HashTables.HashTable.Lookup` | src/kazlib/hash.c:558-572 | returns exactly the node the map holds for the key, or null |
| `HashTables.HashTable.Insert` | src/kazlib/hash.c:520-542 | the map gains exactly the node; the number of chains doubles if and only if nodecount has reached highmark, which is twice that number; if it does not, the node is the first of its chain; all invariants are kept |
| `HashTables.HashTable.GrowTable` | src/kazlib/hash.c:158-200 | twice the chains, same map, mask and thresholds doubled |
| `HashTables.HashTable.ShrinkTable` | src/kazlib/hash.c:232-261 | half the chains, never fewer than 64, same map |
| `HashTables.HashTable.Delete` | src/kazlib/hash.c:592-623 | the map loses exactly the node; the number of chains halves if and only if nodecount is more than 64 and at most lowmark, which is half that number |
| `HashTables.HashTable.ScanDelete` | src/kazlib/hash.c:648-672 | the same without resizing, changing only the node's own chain |
| `HashTables.HashTable.FlatOfTable` | src/kazlib/hash.c:708-717 | the nodes reachable through the chains are the map's, each once, and as many as nodecount |
| `HashOrder.FlatWithout` | src/kazlib/hash.c:656-665 | deleting a node removes exactly one element from the scan order |
| `HashOrder.ScanSurvives` | src/kazlib/hash.c:465-478 | a scanner that has moved past a node keeps its place when that node is deleted |
| `HashOrder.FlatAscends` | src/kazlib/hash.c:444-499 | a scan meets the chains in their order |
| `HashOrder.FlatPush` | src/kazlib/hash.c:537-538 | a node put in front of its chain comes in a scan right behind the nodes of the chains before it |
| `HashScans.Scan.constructor` | src/kazlib/hash.c:435-453 | at the beginning every node is still to come |
| `HashScans.Scan.Next` | src/kazlib/hash.c:481-505 | returns the first node still to come, or null at the end, and is then already behind it |
| `HashScans.Scan.Delete` | src/kazlib/hash.c:648-672 | deleting a node already returned leaves the nodes still to come unchanged |
| `HashScans.ScanDeleting` | src/kazlib/hash.c:435-505 | a scan that deletes any choice of the nodes it returns visits every node once, in scan order, and leaves the map without exactly the chosen ones |
| `HashScans.FreeNodes` | src/kazlib/hash.c:348-359 | visits every node exactly once and leaves the table empty |
| `HashVerify.IsPowerOfTwo` | src/kazlib/hash.c:97-104 | true exactly for the powers of two |
| `HashVerify.Verify` | src/kazlib/hash.c:693-720 | accepts exactly the tables whose marks are powers of two in order, whose nodes are on their chains and whose count is right |
| `HashVerify.ValidPasses` | src/kazlib/hash.c:199-199 | every table reached by the operations passes the check |
| `HashRuns.Perform` | src/kazlib/hash.c:520-672 | one insert, lookup, delete or scan-delete, with whatever resizing it causes, acts on the contents as on a finite map |
| `HashRuns.Replay` | src/kazlib/hash.c:520-672 | in every run of these calls on a new table every call finds exactly what a finite map would hold, for any hash function |
| `AttrCaches.ShrunkExactly` | src/fs/attrcache.c:224-263 | shrinking removes exactly the larger of the number expired and min(batch size, count), all expired ones among them, the others from the front of the scan order |
| `AttrCaches.ShrunkIsSubmap` | src/fs/attrcache.c:241-263 | shrinking never adds or changes an entry |
| `AttrCaches.LiveSplits` | src/fs/attrcache.c:243-251 | what one pass over the cache keeps are the unexpired entries in scan order: it is a homomorphism fixed by its value on one entry |
| `AttrCaches.SetIntoExactly` | src/fs/attrcache.c:161-197 | what setting does: the path is bound, no other entry changes, and nothing else goes unless the cache is full; from a full one go exactly the expired entries and, if these are fewer than 50, so many of the others from the front of the scan order as make up 50, or all there are |
| `AttrCaches.ShrunkOldestFirst` | src/fs/attrcache.c:224-263 | eviction is oldest first exactly if, among the unexpired entries, none of those that must go beyond the expired ones to make up a batch is younger than one behind them in scan order |
| `AttrCaches.EvictionIsNotByAge` | src/fs/attrcache.h:91-97 | with the batch of 50, of any 51 entries the last in scan order, if unexpired, outlives all others, younger ones included |
| `AttrCaches.AttrCache.ListingByHash` | src/kazlib/hash.c:481-505 | the scan order ascends by the masked hash values of the paths |
| `AttrCaches.AttrCache.SetKeepsOthers` | src/fs/attrcache.c:174-187 | setting a path leaves all other entries exactly if the cache is not full or holds nothing but that path |
| `AttrCaches.SweepOne` | src/fs/attrcache.c:243-251 | one round of the first pass keeps an item exactly if it is not expired |
| `AttrCaches.DropExpired` | src/fs/attrcache.c:240-251 | the first pass deletes exactly the expired entries and counts them |
| `AttrCaches.DropFirst` | src/fs/attrcache.c:256-262 | the second pass deletes from the front of the scan order until the wanted number is reached |
| `AttrCaches.AttrCache.constructor` | src/fs/attrcache.c:60-86 | a new cache is empty, with the given size and age and a batch of 50 |
| `AttrCaches.AttrCache.Get` | src/fs/attrcache.c:105-136 | an unexpired entry is returned and stays; an expired one is dropped |
| `AttrCaches.AttrCache.CopyStat` | src/fs/attrcache.c:139-158 | the attributes of an unexpired entry, or a miss |
| `AttrCaches.AttrCache.Set` | src/fs/attrcache.c:161-197 | a full cache is shrunk first, even if the path is present; then the path is bound to the new entry and no other changes; all of the new contents is fixed by the old scan order (`SetIntoExactly`), the count stays within the maximum and setting always succeeds |
| `AttrCaches.AttrCache.Remove` | src/fs/attrcache.c:200-215 | exactly the path is forgotten |
| `AttrCaches.AttrCache.Shrink` | src/fs/attrcache.c:218-272 | the entries in scan order are the shrunk ones |
| `AttrCaches.AttrCache.AddEntry` | src/kazlib/hash.c:625-635 | with a free slot and an absent path both preconditions of `hash_insert` hold; in a table that is not doubled the entry comes into the scan order right behind all that hash lower |
| `AttrCaches.AttrCache.MakeRoom` | src/fs/attrcache.c:174-177 | shrinking a full cache leaves room; what is then there is fixed by `SetIntoExactly` |
| `AttrCaches.AttrCache.ListingIsEntries` | src/fs/attrcache.c:226-228 | entries and scan order are the same mapping, without repetition, as many as the node count |
| `CacheRuns.HitsAreTrue` | src/fs/attrcache.c:105-215 | in every run of set, get, remove and shrink at any times, a hit returns the unexpired entry last set for the path since its last removal: eviction and expiry only add misses |
| `CacheRuns.RoomyIsIdeal` | src/fs/attrcache.c:105-215 | if fewer paths are set than fit and the clock does not go back, a get misses exactly if that entry is missing or expired |
| `CacheEvictions.FullCacheForgets` | src/fs/attrcache.c:174-187 | in a real cache for two paths, with any hash function, setting a present path again evicts the other |
| `CacheEvictions.EvictYounger` | src/fs/attrcache.h:91-97 | for any hash function and any 51 paths there is an order of setting them in a real cache, the oldest first, after which shrinking drops the 50 younger ones and leaves the oldest, none of them expired |
| `CacheRuns.Perform` | src/fs/attrcache.c:105-272 | every call on the cache is a step of such a run |
| `CacheRuns.Replay` | src/fs/attrcache.c:105-272 | for every sequence of calls on a new cache and every hash function: hits are true, with room to spare gets are ideal, and the count stays within the maximum |
| `Staleness.GroundedNext` | src/fs/rhizofs.c:394-474 | every step of server, clock or client keeps: what is held or on its way is what the server had, stamped no earlier than it had it |
| `Staleness.StaysGrounded` | src/fs/rhizofs.c:394-474 | from a world that holds nothing for a path, everything later held for it is no older than that world |
| `Staleness.ReplyIsGrounded` | src/fs/rhizofs.c:434-474 | what getattr returns the server had since such a world, at most the age limit plus the latency ago |
| `Staleness.BoundedStaleness` | src/fs/rhizofs.c:434-474 | in every run, every successful getattr returns attributes the server had at most max_age plus the answer's travel time ago, max_age if fetch and timestamp are atomic |
| `Staleness.StalenessIsReached` | src/fs/attrcache.c:280-287 | no smaller bound holds, for any age limit and latency |
| `Staleness.ReadYourWrites` | src/fs/rhizofs.c:670-671 | in every run, after a successful write, truncate, chmod, utimens, unlink, rmdir or rename of a path, getattr of it returns nothing the server has not had since |
| `Staleness.ReadBack` | src/fs/rhizofs.c:651-808 | after any call, successful or not and whatever it does on the server, a path is read back truthfully in every run exactly if the call succeeds and drops it or it was not held unexpired when the call was asked for |
| `Staleness.CallLeavesStale` | src/fs/rhizofs.c:651-808 | a run of four steps that returns outdated attributes of any held path that the call does not drop |
| `Staleness.RenameLeavesTarget` | src/fs/rhizofs.c:799-800 | instance of `CallLeavesStale`: the attributes of a file that has been renamed over |
| `Staleness.RenameTarget` | src/fs/rhizofs.c:790-808 | instance of `ReadBack`: the target of a rename is read back truthfully in every run exactly if it is the source or was not held unexpired when the rename was asked for |
| `Clients.Client.constructor` | src/fs/rhizofs.c:434-441 | a client with a new cache starts the run |
| `Clients.Client.Getattr` | src/fs/rhizofs.c:434-441 | a path held unexpired is answered from the cache, which is as it was; otherwise the path is dropped, the server asked, and, if there is room, the answer added to what was there under the time it arrived (a full cache: `SetIntoExactly`); every execution extends the recorded run, and what is returned is recent; 0 without attributes is returned exactly if the response has neither an error nor usable attributes |
| `Clients.Client.GetattrRemote` | src/fs/rhizofs.c:444-485 | asks the server, binds the path to the answer under the time it arrived and returns it, and no other entry goes unless the cache is full; without usable attributes the cache is as it was, and the return value is 0 all the same exactly if the server reported no error |
| `Clients.Client.ReceiveAttributes` | src/fs/rhizofs.c:456-484 | the part of it behind the response, with the same effect on the cache |
| `Clients.Client.Readdir` | src/fs/rhizofs.c:376-431 | caches, in order and under one timestamp, the listed entries up to the end of the listing, a full buffer or the first entry that cannot be used; all of them are added to what was there if there is room for all, and otherwise each is set as `SetIntoExactly` says; returns 0 exactly if the server reported no error, also when it stopped at such an entry |
| `Clients.Client.CacheListing` | src/fs/rhizofs.c:397-427 | the loop sets the entries it takes one by one, each as `SetIntoExactly` says, and nothing is lost if the old and the new paths together are fewer than the maximum; it says exactly when the error exit frees the entry taken last, which is the cache's by then |
| `Clients.SetAllFits` | src/fs/rhizofs.c:397-419 | when the old and the listed paths together are fewer than the maximum, setting them one by one leaves the old entries overwritten in order, after every step |
| `Clients.Client.Mutate` | src/fs/rhizofs.c:685-808 | reports success exactly if the server did, and then drops exactly the one path; otherwise, and for calls that name no path to drop, the cache is as it was |
| `Clients.Client.Write` | src/fs/rhizofs.c:651-683 | drops the path exactly if the server has written; if the response then lacks the size the call reports no error and nothing written |
| `Clients.Client.Communicate` | src/fs/rhizofs.c:363-369 | between request and answer time passes and others change the server |

## Left out

- ZeroMQ sockets, polling, worker threads, authentication and daemon start-up: input and output around the modelled parts.
- `src/server/servedir.c` and the FUSE entry points: in the model the server is a mapping from paths to attributes that changes in steps; attributes are opaque.
- The owner and group that the client fills in from the calling process (`src/fs/rhizofs.c:334-340`) before it caches an entry: the attributes of the model are the server's.
- Packing of messages, `src/mapping.c`, `src/path.c`, `src/hashfunc.c`: paths are opaque keys, the hash function is arbitrary, and a directory entry is named by its joined path.
- Failure of memory allocation and release of memory: allocation always succeeds, also of zero bytes; growing and shrinking a table always yields a new array. Whether an unlinked node or an evicted entry is freed is not stated.
- Threads: calls are serial. The test for a full cache and the lookup before a removal are outside the lock in `src/fs/attrcache.c:175` and `src/fs/attrcache.c:207`, so the results hold for one caller at a time.
- Clock failure: `time()` never returns -1, and in the step system the clock never goes back. `CacheRuns.HitsAreTrue` does not need this.
- Overflow of C integers: lengths, positions and counts are mathematical integers, except the 16-bit and 32-bit table entries, the 32-bit hash product and the 64-bit product of the De Bruijn form, which are modelled. Inputs of the compressor are at most 2^31 - 1 bytes.
- Big-endian, 32-bit, heap-mode and MSVC variants of the codec; hash tables of fixed size (`hash_init`).
- Reading past the input: C leaves it undefined, so `Lz4Decode` and `Lz4Decoder` give it an outcome of its own (`Overread`, `ReadsPastInput`), which a data block passes on (`ReadsPastBlock`); in the same way a raw copy past the caller's buffer is the outcome `WritesPastBuffer`, of which nothing else is stated. Reads within the first eight bytes of a match that a shorter match would not need are within the output buffer.
- Lz4Decoder.Uncompress: says nothing about the decoded text once a match had offset 0, which the decoders accept and which copies what the buffer held before; return code and containment are still stated.
- Lz4Decoder.UncompressUnknownOutputSize: the same for offset 0.
- Lz4Compressor.CompressCtx: one method with a variant parameter stands for the two compressors, whose texts differ in table, hash and distance test only; the jump to `_next_match` is an inner loop.
- HashVerify.Verify: requires chains that end; on others the loop of the code does not.
- Clients.Client.CacheListing: after an exit at a nameless entry behind others (`src/fs/rhizofs.c:426-427`) the entry taken last is still in the table but has been freed; the contract says when, and nothing models what is read from it afterwards, so the results about runs are for listings whose entries have names.
- Clients.Client.Mutate: stands for all calls that may change the server's files, which differ in the request only; what they do there is arbitrary.
- Staleness.ReadYourWrites: is about calls the server reports as done; after a failed call, which may still have changed the server, `Staleness.ReadBack` says what is read back.
