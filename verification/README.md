# A verified model of the kernel's hard core

This project models five parts of a small x86-64 kernel in Dafny and proves what they promise:

1. the zlib decoder (`src/libs/gzip.rs`), against RFC 1950 and RFC 1951;
2. the free-list heap and its spin lock (`src/mem/allocator.rs`, `src/libs/sync/mutex.rs`);
3. the bitmap of physical pages (`src/mem/pmm.rs`);
4. page tables for four and five levels, and the kernel's first address space (`src/arch/x86_64/paging.rs`,
   `src/mem/vmm.rs`);
5. the FAT driver's table, cluster numbers and file reads (`src/drivers/fs/fat.rs`).

`dafny verify dfyconfig.toml` verifies everything.

## How to read it

Code that changes things step by step is a class or a method with loops, and its contract ties it to a function on
values of the same name; what the kernel promises is proved about these functions. Code made of expressions is a
function. `Outcome` (`Outcomes.dfy`) says how a call ends: `Done`, `Rejected` for `Err(())`, `Panicked` for a failed
assertion, an index out of range, a failed `expect`, or an overflow. Arithmetic is checked as in a debug build.

| files | content |
|---|---|
| `BitStreams`, `Huffman`, `Lz77`, `DeflateFormat` | bits, canonical codes, tokens, and the decoder as functions on the unread bits |
| `HuffmanTable`, `InflateContext` | the decoder as the kernel runs it: counting sort into tables, bit reader, ring, blocks |
| `DeflateEncoder`, `DeflateRoundTrip`, `Zlib` | an encoder for every choice RFC 1951 leaves open, the round trip, the container |
| `FreeList`, `Allocator`, `HeapLock` | the free list as a sequence, as linked nodes, and under any number of threads |
| `PageBitmap`, `PhysicalMemory` | pages as a sequence of booleans, and as the bytes of a bitmap |
| `PageEntry`, `PageTable`, `AddressSpace` | the bits of entries and addresses, the processor's walk over a tree of tables, `vmm_map` |
| `PageSplit` | what replacing a large page by smaller ones does |
| `Words`, `VmmInit` | 64-bit words by their binary digits, `vmm_init` |
| `Fat` | the allocation table in memory and on disk, chains, `read` |
| `Arithmetic`, `Outcomes` | quotients and remainders, results of calls |

## Where the code deviates

The model follows the code. The lemmas and methods named in brackets give the exact conditions, for all inputs unless
the list says otherwise.

- Stored blocks: the decoder does not skip to a byte boundary (RFC 1951, section 3.2.4). It returns a stored block
  exactly when there is nothing to skip (`StoredIffNoPadding`, `AlignedIffNoPadding`).
- Length symbol 286 makes the decoder shift by more than a word, which panics; 287 is out of the table's range
  (`UnusableLengths`). Distances before the start of the output read zeros from the ring (`CopyMatchRepeats`). Errors
  are reported in two cases only; every other malformed stream panics (`RejectedIff`).
- Heap: the fit test looks at the aligned start of a region, but the block starts where the region does. Alignment
  is respected, and no request can panic, exactly for alignments up to that of a node (`SoundIffNodeAligned`). With
  any larger alignment, two requests after boot are enough for a caller to own a misaligned block (`MisalignedRun`), or
  for the lock to be held for ever by a thread that has panicked (`StuckRun`). Safety holds for all alignments:
  blocks and free list tile the heap (`RunKeepsInv`), and freeing undoes allocating (`DeallocUndoesAlloc`).
- Pages: address 0 doubles as failure, so all requests that can be served are served exactly when page 0 is taken or
  there are no pages (`CompleteIffPageZeroTaken`). The limit of the second pass is the cursor as the first pass left
  it, not the cursor before the call that the comment at `src/mem/pmm.rs:153-154` speaks of. The bitmap is too short for one to seven page counts in each 32768 (`BitmapCoversIff`).
- Page tables: a large page in the way is replaced by recursing with the table that holds it in place of the root. The
  arms for tables and absent entries keep every translation (`GetNextLevel`); the arm for large pages never does: it
  panics on an address with the PAT bit, and otherwise loses all addresses of the page, or all but one in 512
  (`SplitLarge`, for the starts named under "Left out"). `VmmMap` requires a descent that meets no large page, and
  `VmmInit` establishes this for every call it makes.
- Without 1 GiB pages, the 512 pages of 2 MiB give the same translation as the single entry exactly when the address
  lies in the first 2 MiB of its 1 GiB page (`FallbackIff`); from any other address they are shifted, and they run over
  into the next page (`PartsStayInPage`).
- FAT: the lookup on disk reads two sectors and so fails in the last sector of a partition, where the table in memory
  does not (`CacheAgreesWithDisk`). `read` never reduces the offset to one inside a cluster, so its result is right,
  whatever the file holds, exactly in the first cluster and for some reads that start there (`AlwaysRightIff`). It
  follows the chain to its end whatever the count, so an unreadable cluster behind the bytes asked for fails the call.

## Model

| member | source | states |
|---|---|---|
| BitStreams.UnpackPack | src/libs/gzip.rs:144-160 | packing bits into bytes and reading them back, lowest bit first, gives the same bits and at most seven zero bits more |
| BitStreams.UnpackIndex | src/libs/gzip.rs:144-160 | bit k of the stream is bit k mod 8, from the low end, of byte k / 8 |
| BitStreams.TakeWrittenNumber | src/libs/gzip.rs:162-170 | a number written with its low bit first is read back, and the bits after it are left |
| Huffman.DecodeIffCode | src/libs/gzip.rs:215-237 | for every length table, over-subscribed or incomplete too, the decoder returns symbol s and the rest exactly if the stream is the canonical code of s (RFC 1951, 3.2.2) followed by the rest |
| Huffman.PrefixFree | src/libs/gzip.rs:390-419 | no stream starts with the codes of two different symbols |
| Huffman.CanonicalRules | src/libs/gzip.rs:390-419 | the rules of section 3.2.2: codes of one length are consecutive in symbol order, shorter ones come before longer ones, and the first is zero |
| Huffman.HighFirstIndex | src/libs/gzip.rs:215-237 | codes come with their highest bit first |
| Huffman.CodeLimits | src/libs/gzip.rs:390-419 | used symbols have 1 to 15 bits, and a table at most 288 symbols |
| Huffman.KraftIffEverySymbolDecodes | src/libs/gzip.rs:390-419 | every used symbol has a code that decodes if and only if the Kraft sum of the lengths is at most one |
| Huffman.DecodeCode | src/libs/gzip.rs:215-237 | for a table that is not over-subscribed, the canonical code of every used symbol decodes to it and is consumed exactly |
| HuffmanTable.CountLengths | src/libs/gzip.rs:396-406 | panics exactly on a length above 15; otherwise counts the symbols of each length and none of length 0 |
| HuffmanTable.PlaceSymbols | src/libs/gzip.rs:413-418 | the counting sort leaves each length's symbols in its own slots in ascending order |
| HuffmanTable.BuildHuffman | src/libs/gzip.rs:390-419 | succeeds exactly for size and lengths in range, and then the table holds the used symbols stably sorted by length |
| HuffmanTable.BuildFixed | src/libs/gzip.rs:421-434 | the tables stand for the two fixed codes of section 3.2.6 |
| Lz77.CopyMatchRepeats | src/libs/gzip.rs:308-311 | an overlapping copy gives, byte by byte, the byte `distance` places before, with zeros in front of the output; nothing before it changes |
| Lz77.ExpandSize | src/libs/gzip.rs:290-313 | the output grows by one byte per literal and by the length per match |
| Lz77.ExpandLiterals | src/libs/gzip.rs:290-294 | literals append exactly their own bytes |
| Lz77.ExpandIsChain | src/libs/gzip.rs:290-313 | the expansion is the end of the only chain of outputs in which each literal appends its byte and each match repeats earlier bytes |
| DeflateFormat.DistanceInWindow | src/libs/gzip.rs:281-306 | every distance the tables can give lies between 1 and 32768 |
| DeflateFormat.LengthBounded | src/libs/gzip.rs:272-303 | every length that the decoder survives reading lies between 3 and 258 |
| DeflateFormat.ExtraBits | src/libs/gzip.rs:272-288 | the numbers of extra bits follow the pattern of section 3.2.5 |
| DeflateFormat.DistancesPartition | src/libs/gzip.rs:281-288 | each distance from 1 to 32768 is base plus extra bits of exactly one symbol, and no other number is of any |
| DeflateFormat.LengthsPartition | src/libs/gzip.rs:272-280 | likewise each length from 3 to 258 and the first 28 length symbols |
| DeflateFormat.UnusableLengths | src/libs/gzip.rs:272-303 | length symbols 286 and 287 panic |
| DeflateFormat.CodeLengthOrder | src/libs/gzip.rs:319-321 | the order in which section 3.2.7 writes the code lengths |
| DeflateFormat.RunsEndAt320 | src/libs/gzip.rs:323-364 | a run beyond slot 320 panics, and no other run does |
| DeflateFormat.RejectedIff | src/libs/gzip.rs:188-210 | a block is an error, rather than a panic, exactly if its type is reserved or the words of a stored block are not complements |
| Inflate.InflateContext.GetBit | src/libs/gzip.rs:144-160 | takes the next unread bit; panics exactly when none is left |
| Inflate.InflateContext.GetBits | src/libs/gzip.rs:162-170 | takes the next bits as a number, low bit first, and leaves the others unread |
| Inflate.InflateContext.Decode | src/libs/gzip.rs:215-237 | agrees with the decoder on bits for every table `build_huffman` can leave; the index assertion never fails |
| Inflate.InflateContext.Emit | src/libs/gzip.rs:239-247 | the ring still mirrors the last 32768 bytes of an output that is one byte longer, across pointer value 32768 |
| Inflate.InflateContext.Peek | src/libs/gzip.rs:249-252 | reads the output byte that many places back, modulo 32768, and zero before the start of the output |
| Inflate.InflateContext.CopyFromRing | src/libs/gzip.rs:308-311 | a copy through the ring equals the copy on the unbounded output |
| Inflate.InflateContext.Uncompressed | src/libs/gzip.rs:254-269 | a stored block read right behind its header, and its bytes appended to the output |
| Inflate.InflateContext.InflateBlock | src/libs/gzip.rs:271-316 | terminates on every input; the output grows by the expansion of the tokens on the stream |
| Inflate.InflateContext.ReadTables | src/libs/gzip.rs:318-367 | the length array ends up as the two tables that sections 3.2.7 lays down, with nothing left from the code length code |
| Inflate.InflateContext.DecodeHuffman | src/libs/gzip.rs:318-387 | a dynamic block, header and tokens, as the format function reads it |
| Inflate.InflateContext.Decompress | src/libs/gzip.rs:176-213 | terminates on every input; returns the expansion of all tokens, or fails, exactly as the format function on the unread bits says |
| DeflateEncoder.TakeEncodedLength | src/libs/gzip.rs:272-303 | every length from 3 to 258 encoded by section 3.2.5 is read back |
| DeflateEncoder.ParseEncodedDistance | src/libs/gzip.rs:304-306 | every distance from 1 to 32768 encoded by section 3.2.5 is read back |
| DeflateEncoder.ParseEncodedToken | src/libs/gzip.rs:291-306 | every encodable literal or match is read back and nothing behind it is consumed |
| DeflateEncoder.TakeEncodedRuns | src/libs/gzip.rs:339-367 | any run-length coding with 16, 17 and 18, across the border of the two tables too, is expanded to exactly the lengths it stands for |
| DeflateEncoder.TakeEncodedCodeLengths | src/libs/gzip.rs:329-331 | the permuted code lengths are put back in place, the omitted ones as zero |
| DeflateRoundTrip.ParseEncodedTables | src/libs/gzip.rs:318-382 | the header of a dynamic block gives back exactly both length tables |
| DeflateRoundTrip.StoredIffNoPadding | src/libs/gzip.rs:254-269 | a conforming stored block is decoded if and only if no padding precedes its length words |
| DeflateRoundTrip.AlignedIffNoPadding | src/libs/gzip.rs:254-269 | in a conforming stream there is no padding if and only if each stored block's header ends on a byte boundary |
| DeflateRoundTrip.DecodeEncodedBlocks | src/libs/gzip.rs:188-210 | every list of stored, fixed and dynamic blocks without padding decodes to its tokens and stops behind the final block |
| DeflateRoundTrip.InflateInvertsDeflate | src/libs/gzip.rs:176-213 | on bytes: every conforming stream with aligned stored blocks decodes to its tokens, and only padding bits of the last byte remain |
| DeflateRoundTrip.FixedTablesEncodeEverything | src/libs/gzip.rs:421-434 | the fixed codes can encode every byte, every match and the end of a block |
| DeflateRoundTrip.FixedCodes | src/libs/gzip.rs:421-434 | lengths and code values are those that section 3.2.6 prints |
| DeflateRoundTrip.FixedBlockOfBytes | src/libs/gzip.rs:188-210 | a fixed block of plain bytes, given bit by bit, decodes to these bytes |
| DeflateRoundTrip.StoredBlockOfBytes | src/libs/gzip.rs:254-269 | so does a stored block behind its three header bits |
| DeflateRoundTrip.ExpandParts | src/libs/gzip.rs:176-213 | blocks of plain bytes of any type give the bytes of all of them in turn |
| Zlib.Adler32 | src/libs/gzip.rs:93-103 | the running sums never overflow and equal the closed weighted sums modulo 65521 (RFC 1950, section 8.2) with the bytes swapped |
| Zlib.AdlerRecurrence | src/libs/gzip.rs:93-103 | the closed sums start at 1 and 0 and grow as section 8.2 of RFC 1950 says, modulo 65521 |
| Zlib.TrailerBytes | src/libs/gzip.rs:93-103 | the trailer holds the second sum and then the first, each with its high byte first |
| Zlib.ChecksumIffTrailer | src/libs/gzip.rs:93-103 | the little-endian reading of four bytes equals the swapped checksum if and only if they are the big-endian trailer of RFC 1950 |
| Zlib.OutputBound | src/libs/gzip.rs:188-210 | no stream, valid or not, gives more than 129 bytes for a consumed bit |
| Zlib.UncompressData | src/libs/gzip.rs:38-91 | returns `data` if and only if the bytes are a zlib stream for `data`; panics exactly on the listed inputs |
| Zlib.HeaderFields | src/libs/gzip.rs:41-68 | over all fields of section 2.2 of RFC 1950, a header is accepted if and only if the method is 8, the window at most 32 KiB, no dictionary set, and the two bytes a multiple of 31 |
| Zlib.CheckValueExists | src/libs/gzip.rs:41-68 | for every choice of the other fields some check value makes it so |
| Zlib.UncompressInvertsWrap | src/libs/gzip.rs:38-91 | for every accepted choice of header fields, a wrapping of well-formed blocks whose stored blocks' headers end on byte boundaries uncompresses to their expansion and to nothing else |
| Zlib.UncompressParts | src/libs/gzip.rs:38-91 | if all blocks hold plain bytes, the result is these bytes and nothing else |
| Zlib.UncompressFixedBytes | src/libs/gzip.rs:38-91 | a stream of two header bytes, one fixed block given bit by bit, and the checksum uncompresses to the bytes it writes and to nothing else |
| Zlib.UncompressedSize | src/libs/gzip.rs:38-91 | output is at most 1032 times the compressed bytes |
| FreeList.CanonicalUnique | src/mem/allocator.rs:54-93 | two canonical lists that cover the same bytes are identical |
| FreeList.CoalesceCanonical | src/mem/allocator.rs:78-93 | merging a sorted list makes it canonical without changing the bytes it covers |
| FreeList.DeallocCanonical | src/mem/allocator.rs:189-194 | freeing a disjoint block succeeds, adds exactly its bytes, and leaves the list canonical |
| FreeList.AllocCanonical | src/mem/allocator.rs:171-187 | takes the first region that passes the fit and sliver test, returns null only if none does, loses exactly the block's bytes, stays canonical |
| FreeList.AllocRemoves | src/mem/allocator.rs:171-187 | for every alignment, a request that does not panic loses exactly the block's bytes and stays canonical, or changes nothing |
| FreeList.SizeAlignLeast | src/mem/allocator.rs:160-169 | the padded size is the least multiple of the alignment that holds request and node, or 16 for an empty request; panics exactly when it would not fit a signed word |
| FreeList.FitsIff | src/mem/allocator.rs:95-113 | whatever the alignment, the test passes exactly if the request fits behind the first aligned address and leaves nothing or at least 16 bytes; panics exactly on overflow |
| FreeList.AllocIsFirstFit | src/mem/allocator.rs:115-134 | the first region that passes the test is taken, at its own start, and null is returned only if none passes |
| FreeList.AddFreeIff | src/mem/allocator.rs:54-59 | a region is accepted exactly if aligned to 8, of at least 16 bytes, and not at the end of the address space |
| FreeList.DeallocUndoesAlloc | src/mem/allocator.rs:171-194 | for every alignment, freeing the block just allocated restores the list exactly |
| FreeList.SoundIffNodeAligned | src/mem/allocator.rs:95-113 | blocks are aligned, and requests never panic, if and only if the alignment is at most that of a node, be it over all canonical lists or over those that requests lead to on a heap of whole pages |
| Allocator.LinkedListAllocator.FindSpot | src/mem/allocator.rs:61-69 | stops at the last node not behind the address |
| Allocator.LinkedListAllocator.AddFreeRegion | src/mem/allocator.rs:54-76 | the nodes hold the sorted insertion, or the call panics on exactly the bad regions |
| Allocator.LinkedListAllocator.CoalesceMemory | src/mem/allocator.rs:78-93 | the nodes hold the merged list; the loop terminates and no node is lost or shared |
| Allocator.LinkedListAllocator.FindRegion | src/mem/allocator.rs:115-134 | unlinks the first node that fits, leaving all others, or none |
| Allocator.LinkedListAllocator.InnerAlloc | src/mem/allocator.rs:171-187 | result and new list are those of the allocation on sequences, panics included |
| Allocator.LinkedListAllocator.InnerDealloc | src/mem/allocator.rs:189-194 | new list is that of the release on sequences, panics included |
| HeapLock.InsideNeverStuck | src/mem/allocator.rs:197-209 | a thread that holds the lock can always take its next step, and no step panics, for frees and for requests of at most node alignment clear of the end of the address space |
| HeapLock.NextKeepsInv | src/libs/sync/mutex.rs:23-33 | every atomic step of every thread keeps mutual exclusion and the tiling of the heap, whatever alignments are asked for |
| HeapLock.RunKeepsInv | src/libs/sync/mutex.rs:23-33 | so does every interleaving of any number of threads |
| HeapLock.ReleaseKeepsInv | src/libs/sync/mutex.rs:67-71 | when the guard is dropped, free list and blocks tile the heap again |
| HeapLock.FreeListIsCanonical | src/mem/allocator.rs:197-209 | whenever the lock is free, regions and live blocks tile the heap, the list depends on the blocks alone in whatever order they came, and it is the initial region when all are freed |
| HeapLock.AllocAlone | src/mem/allocator.rs:197-203 | a thread that allocates without being interrupted has the effect of the allocation on sequences, or, where that panics, is left in the lock |
| HeapLock.LockTaken | src/libs/sync/mutex.rs:23-33 | a thread that tries takes a free lock, whatever it wants, and is turned away from a locked one |
| HeapLock.FreeAlone | src/mem/allocator.rs:205-209 | a thread that frees its block without being interrupted gets into the lock, puts the block into the list as the release on sequences says, and leaves the lock free |
| HeapLock.AllocThenFree | src/mem/allocator.rs:197-209 | an allocation and its free, undisturbed, restore the state exactly |
| HeapLock.StuckForever | src/libs/sync/mutex.rs:23-33 | after a panic inside the lock nobody enters it again and the list never changes |
| HeapLock.MisalignedRun | src/mem/allocator.rs:95-113 | after boot, two requests of one thread give a misaligned block, for every alignment above that of a node |
| HeapLock.StuckRun | src/mem/allocator.rs:95-113 | after boot, two requests of one thread lock the heap for ever, for every alignment above that of a node |
| PageBitmap.Search | src/mem/pmm.rs:121-144 | the scan returns the lowest run of clear pages between cursor and limit, and none only if there is none |
| PageBitmap.AllocServed | src/mem/pmm.rs:146-167 | fails only if no run of clear pages exists below the highest page, wherever the cursor stood; otherwise takes exactly such a run |
| PageBitmap.AllocIsNextFit | src/mem/pmm.rs:146-167 | a run from the cursor on is preferred to one before it, and the lowest is taken |
| PageBitmap.CompleteIffPageZeroTaken | src/mem/pmm.rs:146-167 | the search is sound and complete for all requests if and only if page 0 is taken or there are no pages |
| PageBitmap.MarkCount | src/mem/pmm.rs:183-192 | taking or freeing a run changes the number of clear pages by its length |
| PageBitmap.RunsBalance | src/mem/pmm.rs:146-192 | over every run of allocations and frees live runs are disjoint, exactly their pages are newly taken, and used plus clear pages stay constant |
| PageBitmap.AllFreed | src/mem/pmm.rs:183-192 | once everything is freed, in any order, bitmap and count are the initial ones |
| PhysicalMemory.OneBitOnly | src/mem/pmm.rs:34-59 | the mask operations change one bit of a byte and no other |
| PhysicalMemory.PhysicalMemoryManager.BitmapSet | src/mem/pmm.rs:43-50 | exactly one page becomes taken |
| PhysicalMemory.PhysicalMemoryManager.BitmapReset | src/mem/pmm.rs:52-59 | exactly one page becomes clear |
| PhysicalMemory.PhysicalMemoryManager.PmmInnerAlloc | src/mem/pmm.rs:121-144 | bitmap, cursor and result are those of the scan on page numbers |
| PhysicalMemory.PhysicalMemoryManager.PmmAllocNozero | src/mem/pmm.rs:146-167 | both passes together are the allocation on page numbers |
| PhysicalMemory.PhysicalMemoryManager.PmmDealloc | src/mem/pmm.rs:183-192 | clears exactly the pages given back |
| PhysicalMemory.BitmapCoversIff | src/mem/pmm.rs:80-83 | the bitmap has a bit for every page unless the page count exceeds a multiple of 32768 by one to seven |
| PhysicalMemory.ShortenTakesStorage | src/mem/pmm.rs:85-104 | shortening the entry takes exactly the bitmap's own pages away from the usable ones |
| PhysicalMemory.HighestIsTop | src/mem/pmm.rs:70-78 | the highest address is the largest end of a usable entry |
| PhysicalMemory.InEntryBytes | src/mem/pmm.rs:106-114 | the pages of an aligned entry are those with all their bytes in it |
| PhysicalMemory.StartBalances | src/mem/pmm.rs:62-115 | for entries without common pages, the clear pages and those of the bitmap together are the usable ones |
| PhysicalMemory.PhysicalMemoryManager.PmmInit | src/mem/pmm.rs:62-115 | afterwards a page is clear exactly if it lies in a usable entry and not in the storage of the bitmap, which is the front of the first entry with room, and the counts balance |
| PageEntry.EntryMaps | src/arch/x86_64/paging.rs:172-213 | 4 KiB, 2 MiB and 1 GiB entries written with the same flags map exactly the address given, with the same rights and caching, PAT included |
| PageEntry.TableEntry | src/arch/x86_64/paging.rs:26-33 | kernel and processor read the same frame out of a table entry, and it takes no right away |
| PageEntry.MappableBits | src/arch/x86_64/paging.rs:172-213 | every address below 2^52 that is a multiple of the page's size can be mapped |
| PageEntry.FlagBits | src/arch/x86_64/paging.rs:10-17 | flags may have bits 0 to 6, 8 to 12 and 63 |
| PageEntry.IndexFields | src/arch/x86_64/paging.rs:137-141 | the five indices are nine address bits each, from bit 12 up |
| PageEntry.EntryFields | src/arch/x86_64/paging.rs:172-213 | address and offset bits of an entry at each level |
| PageEntry.EntryBits | src/arch/x86_64/paging.rs:10-17 | its bits for rights and caching, PAT at bit 7 or 12 |
| PageEntry.AskedBits | src/arch/x86_64/paging.rs:130-135 | what the flags of a request ask for |
| PageEntry.AskedAddress | src/arch/x86_64/paging.rs:130-135 | where a request's page must lead |
| PageEntry.PartPage | src/arch/x86_64/paging.rs:176-187 | each 2 MiB part consists of the addresses of the 1 GiB page with its middle bits |
| PageEntry.PartLeaf | src/arch/x86_64/paging.rs:176-187 | in it the 2 MiB entry translates as the 1 GiB entry would |
| PageEntry.PartsStayInPage | src/arch/x86_64/paging.rs:176-187 | the last part starts inside the 1 GiB page if and only if the address lies in its first 2 MiB |
| PageTable.SamePageIffSamePath | src/arch/x86_64/paging.rs:137-141 | two addresses lie in one page if and only if all indices down to its level agree |
| PageTable.WalkRestricts | src/arch/x86_64/paging.rs:26-33 | through a table entry the walk leads to the same place and has exactly the rights that the entry and the rest allow |
| PageTable.WalkEnds | src/arch/x86_64/paging.rs:83-90 | a walk ends at an absent entry, at a page of one of three sizes, and faults at a large bit higher up |
| PageTable.WriteElsewhere | src/arch/x86_64/paging.rs:174-213 | in a tree of tables, writing an entry off the path of an address leaves its translation alone |
| PageTable.NewTableChangesNothing | src/mem/vmm.rs:165-168 | hanging an empty table under an absent entry changes no translation and blocks no descent |
| PageTable.NewTableKeepsTree | src/mem/vmm.rs:165-168 | and the tables stay a tree in which every table has one place |
| PageTable.LeafMaps | src/arch/x86_64/paging.rs:172-213 | writing an entry where the descent ends maps its page and nothing else, and keeps the tree |
| PageTable.NoSharing | src/mem/vmm.rs:119-172 | two walks through one table came by the same indices and are at the same level |
| AddressSpace.AllPartsMapped | src/arch/x86_64/paging.rs:172-191 | once each of the 512 parts translates as asked, every address is translated as one 1 GiB entry would |
| AddressSpace.FallbackIff | src/arch/x86_64/paging.rs:176-187 | mapping the 512 parts one after the other translates every address as one 1 GiB entry would if and only if the request lies in the first 2 MiB of its 1 GiB page |
| AddressSpace.PageTables.GetNextLevel | src/mem/vmm.rs:119-172 | without a large page in the way: returns the frame one level down on the address's path, uses a fresh frame exactly if it was missing, and changes no translation |
| AddressSpace.PageTables.VmmMap | src/arch/x86_64/paging.rs:130-214 | for all addresses, both paging modes, all sizes and with or without 1 GiB pages: in the page the walk gives the matching physical address and flags, outside it what it gave before; the frames used are exactly the missing tables |
| PageSplit.SplitLarge | src/mem/vmm.rs:131-164 | panics exactly on an entry with address bits below its size; otherwise every address of the old page was translated before, and at least 511 of 512 are not afterwards |
| PageSplit.SomethingLost | src/mem/vmm.rs:131-164 | so the split never keeps all translations |
| PageSplit.PartPlace3 | src/mem/vmm.rs:151-163 | a part's address lies its distance into the old 1 GiB page |
| PageSplit.KeptBits | src/arch/x86_64/paging.rs:91-93 | the parts keep the right to write and the bar on execution, and nothing else |
| VmmInit.PageHasOnly | src/mem/vmm.rs:31-41 | a page of a window holds only addresses whose distance rounds down to its own |
| Words.SameBits | src/arch/x86_64/paging.rs:137-141 | two words agree in a field of bits if and only if the numbers agree there by quotient and remainder |
| Words.SamePageNumber | src/arch/x86_64/paging.rs:137-141 | two addresses lie in one page if and only if their page numbers agree as far up as the walk looks |
| Words.WordLow | src/mem/mod.rs:269-272 | masking the low bits of an address gives its remainder modulo the power of two |
| VmmInit.PageGives | src/mem/vmm.rs:31-41 | a page of a window gives each of its bytes the physical address at the same distance |
| VmmInit.MapKeeps | src/mem/vmm.rs:68-110 | mapping a page of a window again keeps every translation of that window that was right |
| VmmInit.GigaKeeps | src/mem/vmm.rs:90-109 | mapping physical memory keeps both windows |
| VmmInit.SmallKeeps | src/mem/vmm.rs:55-65 | mapping the kernel keeps both windows |
| VmmInit.GigaKeepsOpen | src/mem/vmm.rs:119-164 | no later descent will meet a large page |
| VmmInit.MapEntry | src/mem/vmm.rs:68-110 | every byte of the entry is mapped, whatever its alignment and whether or not it starts below 4 GiB |
| VmmInit.VmmInit | src/mem/vmm.rs:20-113 | every byte below 4 GiB and of every entry neither reserved nor bad is found at the window's start plus its address, and the kernel's window leads to its physical base plus the offset, each writable, for the kernel only, and cached |
| VmmInit.UsualBootOk | src/mem/vmm.rs:20-113 | the usual layout, with the kernel in the last 2 GiB, keeps the promises that `vmm_init` relies on |
| Fat.CacheAgreesWithDisk | src/drivers/fs/fat.rs:423-469 | for all FAT types and entries both lookups agree if and only if the second sector read still lies in the partition |
| Fat.FatFs.Mount | src/drivers/fs/fat.rs:473-518 | the table in memory holds every stored entry at its index; panics exactly if the table leaves the partition |
| Fat.EntryBytesAt | src/drivers/fs/fat.rs:436-467 | where in the partition entry c lies, and how its bytes make its value |
| Fat.EndsChain | src/drivers/fs/fat.rs:615-631 | which stored values end a chain, for each type |
| Fat.FatFs.NextIsStored | src/drivers/fs/fat.rs:423-469 | the successor of a cluster is the stored entry, masked, and a panic where there is none |
| Fat.RootDirectoryHolds | src/drivers/fs/fat.rs:399-403 | the root directory has the fewest sectors that hold its entries; panics exactly on 16-bit overflow or empty sectors |
| Fat.VolumeLayout | src/drivers/fs/fat.rs:399-411 | reserved sectors, all tables, root directory and clusters follow each other without gap or overlap |
| Fat.ReadsItsBytes | src/drivers/fs/fat.rs:393-398 | reading a data cluster gives exactly its bytes of the partition; refused beyond its end, and panics on overflow |
| Fat.ClusterRoundTrip | src/drivers/fs/fat.rs:393-421 | in wrapping arithmetic every data cluster's number comes back from its first sector |
| Fat.RootRoundTrip | src/drivers/fs/fat.rs:524-531 | the root directory's number leads back to its first sector if and only if the sectors per cluster divide the wrapped distance |
| Fat.RootOnClusterBoundary | src/drivers/fs/fat.rs:524-531 | for sectors per cluster that divide 2^64, if and only if they divide the directory's sectors |
| Fat.ReadFromStart | src/drivers/fs/fat.rs:597-632 | from offset 0 exactly the first `count` bytes of the chain, for every count, and a failure if any cluster of the chain fails |
| Fat.ClusterHolds | src/drivers/fs/fat.rs:587-593 | the cluster followed to is the one that holds the offset |
| Fat.ReadCharacterised | src/drivers/fs/fat.rs:589-632 | what every count and offset gives, also on chains that cannot be read whole: one slice of the clusters from the offset's on, or which failure |
| Fat.ReadRightIff | src/drivers/fs/fat.rs:589-632 | for given clusters, exactly when these are the bytes asked for |
| Fat.AlwaysRightIff | src/drivers/fs/fat.rs:589-632 | whatever the file holds, these are the bytes asked for if and only if offset and count lie in the first cluster, or the count is more than a cluster from an offset in it, or the read is empty one cluster in |
| Fat.SliceOfTail | src/drivers/fs/fat.rs:589-632 | the bytes at an offset of a readable file are those at the remainder in the clusters from the offset's on |
| Fat.FatFs.Follow | src/drivers/fs/fat.rs:589-593 | reaches the cluster that many links further on, past end marks too, or panics where a link cannot be looked up |
| Fat.FatFs.LinksInChain | src/drivers/fs/fat.rs:589-593 | inside a chain the links lead to its clusters in order, and what is left is a chain |
| Fat.FatFs.Read | src/drivers/fs/fat.rs:570-635 | on every chain that ends, at an end mark or at a link that cannot be looked up, and for every count and offset, returns the result characterised above; for data clusters and a good request these are the bytes of the partition |

## Left out

- FreeList.AllocCanonical: states the promise for layouts up to node alignment, because `SoundIffNodeAligned` shows that it fails for all others; `AllocRemoves` is what holds for all.
- AddressSpace.PageTables.GetNextLevel: requires that no large page is in the way, because `SplitLarge` shows that the arm for large pages loses translations; nor does it model an allocator that has run out of frames, which the source does not check.
- PageSplit.SplitLarge: requires that the table, read as a root, sends the parts into the new table or to an absent entry; from a present entry the recursion goes through tables one level too low and can write to mapped data, which is not part of the memory model.
- AddressSpace.PageTables.VmmMap: requires the first 2 MiB of the 1 GiB page for requests that fall back on 2 MiB pages, because `FallbackIff` shows that it fails for all others; does not model the processor's translation cache; addresses wrap where the source would panic on overflow.
- VmmInit.VmmInit: takes the boot loader's answers and the processor's abilities as parameters, with the alignment and the separate 1 GiB slots it promises for the two windows; loading the table register is left out.
- Fat.FatFs.Read: requires a chain that ends; on a cyclic chain the source does not terminate.
- Allocator.LinkedListAllocator.CoalesceMemory: requires what the kernel's layout gives, that the head in static memory does not touch the heap.
- PhysicalMemory.PhysicalMemoryManager.PmmInit: requires an entry with room for the bitmap and a page count that `BitmapCoversIff` allows; otherwise the source writes outside the bitmap.
- HeapLock.RunKeepsInv: the steps are sequentially consistent, as the orderings in `src/libs/sync/mutex.rs` ask for; fairness of the spin loop is not modelled.
- `pmm_alloc` (`src/mem/pmm.rs:169-181`) only adds zeroing; frames in `AddressSpace` start zeroed.
- `get_field` and `set_field` (`src/arch/x86_64/paging.rs:36-81`) have no callers; the address field they define covers bits 12 to 63 and with them the no-execute bit.
- FAT12's packed 12-bit format (the code reads two bytes for each entry), directory search, long file names, parsing the parameter block.
- Physical reads are taken as total on the sectors of a partition; device errors are not modelled.
- The chunk reader and squashfs, the VFS, devices, interrupts, video, ACPI and logging: hardware access, lookup tables or bookkeeping with little to prove.
