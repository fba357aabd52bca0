# Verified models of the Alcor6L runtime core

This project models, in Dafny, the parts of the Alcor6L/eLua runtime whose correctness is hard to see:
its two memory allocators, its flash file systems and their image builder, its serial multiplexer with
the remote procedure calls and remote file requests that travel over it, and its interrupt-driven queues.
`dafny verify dfyconfig.toml` checks all of it.

## How it is organised

- **dlmalloc** (`DlIndex`, `DlBitmap`, `DlTrie`, `DlTreeBins`, `DlSmallBins`, `DlTags`, `DlHeap`, `DlClient`).  The bins and the
  segment are modelled apart and then tied together: tree bins are bitwise tries over link words; small bins are rings; the maps of
  non-empty bins are 32-bit words, searched with the source's bit tricks;
  the segment is a row of chunks with head and foot words.  `Heap.Valid` says that the segment is tiled and
  tagged, no two free chunks touch, and every free chunk is in exactly one of its bin, dv and top.  In the middle of an
  operation some free chunks are *loose*: held by nobody yet.  malloc, free, realloc and memalign keep the invariant and
  say which free chunk serves a request, and what happens to the set of live chunks and to dv; `Run` carries this over every sequence of calls.
- **salloc** (`SallocChain`, `SallocOps`, `SallocRegions`, `Salloc`, `SallocRun`).  Word-level: RAM is an array of 8-byte
  units, and a pointer is a unit number, which is what the header words hold (the address divided by 8).
- **File systems** (`WofsLog`, `RomScan`, `Mkfs`, `Wofs`, `WofsFiles`, `WofsStore`, `WofsRun`, `Flash`).  One predicate,
  `EntryAt`, describes the bytes of an entry for both systems; the walkers are verified against it, the image builder
  produces it and the file operations maintain it.  `FileMap` is the meaning of a log: lower-case names to contents.
  `WofsStore` is what the file system stands for, without a medium: files, at most one being written, and handles.
  `WofsRun` shows that every call, and every run of calls on interleaved descriptors, does what the store says.
- **Serial protocols** (`Mux`, `MuxLoss`, `MuxDevice`, `MuxFiles`, `MuxHost`, `Rpc`, `RpcCodec`, `RfsFramer`).  The two ends of the
  multiplexer are two step functions, each tied to its own imperative code; the theorems hold for either end as receiver,
  and `TwoEnds` joins both.  `MuxLoss` does so for ends that lose their state.  `MuxFiles` specifies whole runs of the host's loop, with the framer and the file server on
  the first service; `MuxHost` is the loop.
- **Interrupt-shared queues** (`RingBuffer`, `IntQueue`).  Main code is cut into the steps between which an interrupt can
  fall; the invariants hold between any two steps.  A ring is judged by what reads would still give (`Ahead`): steps of
  reads conserve it, and a write must add its element at the end.
- `Octets`, `Arith` and `Seqs` hold bytes, divisions and slices.

## Findings

Properties that fail as one would first state them, with the exact condition under which they hold:

| property | source | holds exactly when | shown by |
|---|---|---|---|
| A resend request (0xFF) is answered | src/common_uart.c:109, mux_src/main.c:293 | there is something to send again | `Mux.RequestHarmless` |
| A resend request leaves reception undisturbed | src/common_uart.c:109-129 | there is something to send again, or the receiver is a device that waits for a service and has seen no escape (it asks back, and delivers nothing).  Otherwise the host ends; a device that waits for a service forgets its escape; a device in a service delivers 0xFF, or 0xDF after an escape, as data | `Mux.RequestHarmless` |
| After a file is created and closed, no file is being written | src/romfs.c:225 | write access was asked for | `FileSystem.CreateAndClose` |
| A look-up is right while a file is being written: a file that is there is found | src/romfs.c:110 | always | `RomScan.LiveNameFound` |
| The same: a name that is neither there nor being written is reported absent, at the start of the data being written | src/romfs.c:110 | that data is empty or starts with 0xFF; otherwise the data is taken for an entry, and a file that does not exist can be found | `RomScan.OtherNameAbsent`, `RomScan.DataTakenForEntry`, `RomScan.WrongLookup` |
| The same: the name being written is not there yet | src/romfs.c:110 | never, unless an older file has that name: it is found, with the size 0xFFFFFFFF | `RomScan.PendingNameFound` |
| A truncating open that fails leaves the old version | src/romfs.c:205 | it does not fail with ENOSPC, which it does when fewer bytes than the name's length and 15 are left | `FileSystem.Open` (`OpenCreates`) |
| A write that `buf_write` accepts loses nothing | src/buf.c:124 | fewer elements are counted than there are slots; or as many, and the oldest has been copied out but is still counted; or as many, the oldest is being copied, and the new element agrees with it from the next byte on; or the new element equals the one in its slot | `RingBuffer.WriteExact`, `RingBuffer.FullWrite`, `RingBuffer.Overfill` |
| Writes lose nothing while fewer elements are counted than buf_get_size says | src/buf.c:48, src/buf.c:154 | the buffer has at most 65536 bytes; the largest one, 32768 elements of 4 bytes, has 16384 slots, since its pointers have 16 bits | `RingBuffer.SizeFits`, `RingBuffer.LargestBuffer` |
| A byte from a serial port of the host reaches its own service | mux_src/main.c:208, mux_src/main.c:354 | the port's number, one more in file server mode, is at most 8: the eighth port of a file server gets the ID 0xD8, and the device takes ID and byte for data of the service it is in | `Mux.PortDelivered` |
| A response is accepted only by a reader that expects it | src/eluarpc.c:239 | never for half of the values: acceptance is modulo 0x80, so 0x01 is taken where 0x81 is expected | `Rpc.RoundTrip`, `Rpc.ResponsesConfused` |
| A packet that was written is accepted at its end | src/eluarpc.c:182 | `unsigned long` has 32 bits; with 64 the complement of the signature has its upper half set, and no packet is accepted | `Rpc.EndNeeds32Bits` |
| The loop that rounds an alignment up ends | src/dlmalloc.c:2674-2678 | the alignment is at most 2^31: above that the doubled value becomes 0 | `DlClient.RoundingEnds` |
| A remote-file packet raises the response flag, with every byte in the buffer | rfs_server_src/rfs_transports.c:237 | its header has the two right tags and a size above 4 and at most that of the buffer.  With a wrong tag the framer drops everything until it is started again; with a bad size it runs past the buffer | `RfsFramer.FlagRises`, `RfsFramer.BadHeader`, `RfsFramer.BadSize`, `RfsFramer.EmptyPacketHangs`, `RfsFramer.LongPacketOverruns` |

## Assumptions

- dlmalloc is taken as configured in inc/dlmalloc.h: 32-bit `size_t`, alignment 8, no mmap, mspaces, footers or locks, and
  contiguous growth.  What the system appends when everything else fails is the parameter `grant`.  memalign is given
  alignments of at most 2^31, for which its loop ends (`RoundingEnds`).
- Link words, head words and foot words of dlmalloc are kept in three maps.  `MetadataOutsidePayload` shows that none of
  them lies in a live payload, and `MetadataApart` that none overlaps another; the payloads themselves are an array of
  their own in `DlClient`.
- salloc requests do not wrap around when rounded; regions are 8-aligned and hold at least three units.
- File names have at most 30 bytes, contain no zero, do not start with 0xFF and are not the single byte 1; the size of a
  write-once medium is a multiple of 4 and below 2^31; images are shorter than 0xFFFFFFF0 bytes; one write is given fewer
  than 2^31 bytes.
- While a file is being written, look-ups are of names for which the walk does not enter its data, and of another name
  than its own (`LookupSafe`); an open that creates then asks for write access, and is refused; directories are read
  while no file is being written.
- `unsigned long` has 32 bits in the packet signatures of the RPC layer, as on the targets.  The host's server is built
  from the same src/eluarpc.c, and is taken with 32 bits too (`EndNeeds32Bits`).
- In the host loop, what `server_execute_request` makes of the buffer is a parameter; an answer is taken to fit the
  buffer.  A byte that the framer would store past the buffer ends the modelled run (`OutOfBounds`).
- Sizes of ring buffers are powers of two, of at most 32768 elements; an interrupt does not fall inside `buf_write`.

## Model

| member | source | states |
|---|---|---|
| DlIndex.FloorLogCorrect | src/dlmalloc.c:1080-1098 | The branch-free logarithm of compute_tree_index, on 32-bit words, is the floor of the base-2 logarithm for every argument of 1 to 65535 |
| DlIndex.TreeIndexCorrect | src/dlmalloc.c:1080-1111 | Every size of at least 256 goes to the bin whose minsize_for_tree_index range contains it |
| DlIndex.TreeIndexUnique | src/dlmalloc.c:1080-1111 | Only the index that compute_tree_index gives has the size in its range: a size in the range of bin i has index i |
| DlIndex.BinBlock | src/dlmalloc.c:1100-1111 | All sizes of a bin lie in one block of sizes whose length is a power of two |
| DlIndex.SizeBitsStart | src/dlmalloc.c:1104-1106 | A size of the bin shifted by leftshift_for_tree_index on 32 bits is the steering word of its block |
| DlIndex.SizeBitsStep | src/dlmalloc.c:1816-1820 | The sign bit of the steering word says in which half of the block the size lies, and shifting by one gives the steering word of that half |
| DlBitmap.LeastWord | src/dlmalloc.c:1143-1158 | least_bit and compute_bit2idx give the index of the lowest set bit of any non-zero 32-bit map |
| DlBitmap.LeftBitsWord | src/dlmalloc.c:1161-1161 | Masking a map with left_bits of one bit keeps exactly its set bits above that one |
| DlBitmap.SmallProbeWord | src/dlmalloc.c:2918-2923 | Bits 0 and 1 of the shifted small map say whether the exact bin or the next one is non-empty, and ~smallbits & 1 picks the right one of the two |
| DlBitmap.SmallLeftWord | src/dlmalloc.c:2935-2941 | The masked small map keeps exactly the marked bins above the one probed |
| DlBitmap.MarkWord | src/dlmalloc.c:1117-1124 | mark_smallmap and mark_treemap set one bit and no other |
| DlBitmap.ClearWord | src/dlmalloc.c:1117-1125 | clear_smallmap and clear_treemap clear one bit and no other |
| DlBitmap.MarkBits | src/dlmalloc.c:1117-1125 | On the word seen as 32 flags, marking and clearing a bin sets and clears its flag and no other |
| DlBitmap.FirstMarked | src/dlmalloc.c:2562-2565 | compute_bit2idx of least_bit of a non-zero map is the first marked bin |
| DlBitmap.NextMarked | src/dlmalloc.c:2517-2523 | least_bit of the map masked with left_bits of a bin is the first marked bin above it, and the masked map is zero exactly when there is none |
| DlBitmap.ProbeMarked | src/dlmalloc.c:2917-2923 | The two low bits of the shifted map are zero exactly when neither the bin nor the next is marked; otherwise the complement picks the first marked one |
| DlBitmap.SmallNextMarked | src/dlmalloc.c:2935-2941 | When the bin probed is not marked, least_bit of the masked map is the first marked bin above it, and the shifted map is zero exactly when there is none |
| DlTrie.InsertKeeps | src/dlmalloc.c:1801-1850 | Inserting a chunk adds its address and its size to the trie and nothing else, and keeps same-size rings proper |
| DlTrie.InsertInTrie | src/dlmalloc.c:1815-1828 | Insertion keeps the prefix property: every subtree holds only sizes of its own half of the block |
| DlTrie.InsertSized | src/dlmalloc.c:1801-1850 | After insertion every ring still holds only chunks of its own size |
| DlTrie.InsertLinked | src/dlmalloc.c:1806-1848 | The link words written by insert_large_chunk (child, parent, fd, bk) represent the trie with the chunk added, and no link outside it changes |
| DlTrie.UnlinkKeeps | src/dlmalloc.c:1869-1938 | Unlinking a chunk removes its address and nothing else, whether a ring member, a ring head with others, a leaf or an inner node goes |
| DlTrie.UnlinkInTrie | src/dlmalloc.c:1871-1936 | Promoting a ring member or the rightmost leaf keeps the prefix property |
| DlTrie.UnlinkSized | src/dlmalloc.c:1869-1938 | After unlinking every ring still holds only chunks of its own size |
| DlTrie.UnlinkLinked | src/dlmalloc.c:1869-1938 | The link words written by unlink_large_chunk represent the trie without the chunk |
| DlTreeBins.InsertBinsOk | src/dlmalloc.c:1801-1850 | Insertion keeps all 32 tree bins well formed, marks exactly the non-empty ones, and adds exactly one chunk to the set of binned chunks |
| DlTreeBins.UnlinkBinsOk | src/dlmalloc.c:1869-1938 | Unlinking keeps all 32 tree bins well formed, clears the bin's bit exactly when it becomes empty, and removes exactly one chunk |
| DlTreeBins.BestOfBins | src/dlmalloc.c:2490-2533 | The best chunk of the bin of nb, or else the smallest chunk of the next non-empty bin, is the smallest sufficient chunk of all tree bins |
| DlTreeBins.SmallestOfBins | src/dlmalloc.c:2562-2574 | The smallest chunk of the lowest marked bin is the smallest chunk of all tree bins |
| DlTreeBins.TreeBins.constructor | src/dlmalloc.c:2314-2321 | All tree bins start empty and well formed |
| DlTreeBins.TreeBins.SearchSlot | src/dlmalloc.c:1815-1833 | The walk of insert_large_chunk ends at the empty child, or the same-size chunk, where the trie takes the new chunk |
| DlTreeBins.TreeBins.InsertLarge | src/dlmalloc.c:1801-1850 | insert_large_chunk: the invariant holds and the binned chunks grow by exactly this chunk |
| DlTreeBins.TreeBins.FindLeaf | src/dlmalloc.c:1884-1893 | The walk of unlink_large_chunk ends at the rightmost leaf and the pointer cell that holds it |
| DlTreeBins.TreeBins.DetachChunk | src/dlmalloc.c:1870-1898 | The replacement found is out of the ring or of the trie, with its old pointer cleared |
| DlTreeBins.TreeBins.ReplaceChunk | src/dlmalloc.c:1899-1937 | The replacement takes over parent, children and, for a root, the bin and its bit |
| DlTreeBins.TreeBins.UnlinkLarge | src/dlmalloc.c:1869-1938 | unlink_large_chunk: the invariant holds and the binned chunks lose exactly this chunk |
| DlTreeBins.TreeBins.SearchPath | src/dlmalloc.c:2492-2514 | After the walk down the path of nb, every sufficient chunk of the bin is at least as large as the best one seen or lies in the deepest untaken right subtree |
| DlTreeBins.TreeBins.LeftmostPath | src/dlmalloc.c:2526-2533 | The loop along leftmost children ends with the smallest sufficient chunk of the bin |
| DlTreeBins.TreeBins.BestFit | src/dlmalloc.c:2485-2533 | tmalloc_large's choice is the smallest chunk of size at least nb over all tree bins, and 0 exactly when none is large enough |
| DlTreeBins.TreeBins.Smallest | src/dlmalloc.c:2558-2575 | tmalloc_small's choice is the smallest chunk over all tree bins |
| DlTreeBins.TreeChecksPass | src/dlmalloc.c:1801-1938 | Ring neighbours, parent and children of a binned chunk are addresses of the segment, or the bin itself for a root: the checks on them pass |
| DlSmallBins.SmallInsertOk | src/dlmalloc.c:1730-1746 | Putting a chunk at the front of a bin's ring, from stale or live header links, gives a well-formed ring |
| DlSmallBins.SmallUnlinkOk | src/dlmalloc.c:1749-1766 | Taking any chunk out of a bin leaves a well-formed ring; fd equals bk exactly for the last chunk |
| DlSmallBins.SmallChecksPass | src/dlmalloc.c:1730-1783 | The neighbours of a chunk in its bin are chunks or the bin header: the checks on them pass |
| DlSmallBins.SmallBins.constructor | src/dlmalloc.c:2060-2067 | All small bins start empty and well formed |
| DlSmallBins.SmallBins.InsertSmall | src/dlmalloc.c:1730-1746 | insert_small_chunk: the invariant holds, and the chunk is at the front of the bin of its size, the other bins as they were |
| DlSmallBins.SmallBins.UnlinkSmall | src/dlmalloc.c:1749-1766 | unlink_small_chunk: invariant kept, exactly this chunk removed |
| DlSmallBins.SmallBins.UnlinkFirst | src/dlmalloc.c:1769-1783 | unlink_first_small_chunk: the invariant holds; the first chunk of the bin is out of it, the other bins are as they were, and the chunk has the size of the bin |
| DlTags.ChunksDisjoint | src/dlmalloc.c:1617-1643 | Two different chunks of a tiled segment do not overlap |
| DlTags.Resplice | src/dlmalloc.c:1382-1448 | Tag writes inside a stretch of chunks and just after it keep the whole segment tiled and consistently tagged |
| DlTags.TakeOk | src/dlmalloc.c:1243-1245 | set_inuse_and_pinuse on a free chunk keeps the segment well formed |
| DlTags.SplitOk | src/dlmalloc.c:2544-2548 | Splitting a free chunk or top in a used and a free part keeps the segment well formed, feet and pinuse bits included |
| DlTags.CutOk | src/dlmalloc.c:2620-2625 | Cutting a used chunk in two used chunks keeps the segment well formed |
| DlTags.ExpandOk | src/dlmalloc.c:2627-2637 | Moving the border between a used chunk and top keeps the segment well formed |
| DlTags.GrowOk | src/dlmalloc.c:2045-2057 | Growing top at its end keeps the segment well formed |
| DlTags.MergeOk | src/dlmalloc.c:3039-3104 | Making one free chunk of a freed chunk and its free neighbours keeps the segment well formed, with no two free neighbours |
| DlHeap.RequestSize | src/dlmalloc.c:501-510 | A padded request is a multiple of 8, at least 16, at least the request and its overhead, and small exactly when the request is |
| DlHeap.RequestLeast | src/dlmalloc.c:501-510 | The padded request is the least multiple of 8, at least 16, that holds the request and its overhead |
| DlHeap.Heap.constructor | src/dlmalloc.c:2314-2321 | The first growth makes the segment one top chunk with empty bins |
| DlHeap.Heap.InsertChunk | src/dlmalloc.c:1942-1944 | insert_chunk files a free chunk that nobody holds under its size; every free chunk is then in one place |
| DlHeap.Heap.UnlinkChunk | src/dlmalloc.c:1946-1948 | unlink_chunk takes exactly this chunk out of its bin |
| DlHeap.Heap.TakeWhole | src/dlmalloc.c:1243-1245 | A free chunk is handed out whole: one more live chunk, the others unchanged |
| DlHeap.Heap.SplitLoose | src/dlmalloc.c:2950-2955 | The first nb bytes of a free chunk are handed out and the rest is a tagged free chunk |
| DlHeap.Heap.SplitTop | src/dlmalloc.c:2997-3003 | The first nb bytes of top are handed out and top shrinks by them |
| DlHeap.Heap.GrowTop | src/dlmalloc.c:2329-2340 | Contiguous growth enlarges top and changes nothing else |
| DlHeap.Heap.UseTop | src/dlmalloc.c:2997-3007 | A request is served from the start of top |
| DlHeap.Heap.TakeLarge | src/dlmalloc.c:2541-2549 | A chunk of the tree bins is handed out whole, or split with the rest binned; dv stays |
| DlHeap.Heap.ReplaceDv | src/dlmalloc.c:1787-1796 | replace_dv bins the old designated victim and installs the new one |
| DlHeap.Heap.TmallocSmall | src/dlmalloc.c:2558-2594 | A small request is served from the smallest chunk of all tree bins, cut at nb when 16 bytes or more are left, which then are dv; the other live chunks stay |
| DlHeap.Heap.TmallocLarge | src/dlmalloc.c:2485-2555 | A large request takes the best fitting chunk of all tree bins, and only if dv is too small or larger than it, and dv stays; it is declined only when no tree chunk is large enough, or dv is large enough and no tree chunk that is large enough is smaller than dv |
| DlHeap.Heap.UseDv | src/dlmalloc.c:2977-2995 | A request is served from dv: cut at nb, with dv what is left, or whole, with no dv left |
| DlHeap.Heap.PopSmall | src/dlmalloc.c:2942-2945 | The first chunk of a marked small bin comes out, with the size of the bin |
| DlHeap.Heap.UseSmall | src/dlmalloc.c:2921-2959 | A request is served from the first chunk of a marked small bin, whole or cut with the rest becoming dv |
| DlHeap.Heap.SmallSearch | src/dlmalloc.c:2914-2966 | The search for a small request finds something exactly when the bins come first: a bin holds a chunk that leaves no room for another after the cut, or some binned chunk is large enough and dv is not.  It then hands out the smallest binned chunk that is large enough, and the rest of it, if it makes a chunk, is dv; otherwise nothing has changed |
| DlHeap.Heap.LargeSearch | src/dlmalloc.c:2967-2975 | The search for a large request finds something exactly when some binned chunk is large enough and dv is not, or is larger than the best of those; it then hands out the best fitting chunk of all bins, and dv stays; otherwise nothing has changed |
| DlHeap.LargeTaken | src/dlmalloc.c:2967-2975 | The best fit of the tree bins that tmalloc_large takes is the best fit of all bins |
| DlHeap.Heap.DvTopSystem | src/dlmalloc.c:2977-3009 | dv, then top, then system memory: which of them serves, what dv is then, that the system is asked exactly when dv and top are too small, and that it fails exactly when dv, and top with what the system grants, are too small |
| DlHeap.Heap.ServeRest | src/dlmalloc.c:2977-3009 | When the bins do not come first: dv, top or the enlarged top serves the request, as malloc promises |
| DlHeap.Heap.Malloc | src/dlmalloc.c:2887-3009 | dlmalloc, from the state before the call: which chunk serves a request (the bins, dv, top or the enlarged top, in the order of the comment at 2888-2904; in the bins the best fit of all), that exactly its first nb bytes, or all of it when less than 16 would be left, are the one new live chunk, what dv and its size are then, and that the system is asked exactly when nothing else serves; it fails exactly for an oversized request or when no free chunk, nor top with the grant, can hold it |
| DlHeap.Heap.TagFree | src/dlmalloc.c:554-559 | The merged free chunk is tagged, footed and loose; exactly the freed chunk leaves the live ones |
| DlHeap.Heap.TagTop | src/dlmalloc.c:3072-3083 | A freed chunk next to top becomes part of it |
| DlHeap.Heap.FreeBack | src/dlmalloc.c:3040-3068 | Backward consolidation unlinks the free chunk before, or makes dv reach over the freed one and is done |
| DlHeap.Heap.FreeForward | src/dlmalloc.c:3070-3107 | Forward consolidation with top, dv or a binned chunk, and the binning of the result, keep the invariant; dv grows exactly when it is the chunk after, and goes exactly when it meets top |
| DlHeap.Heap.Free | src/dlmalloc.c:3019-3117 | dlfree: the invariant holds and exactly the chunk of mem leaves the live chunks; dv takes in a freed chunk that it touches, becomes part of top if the freed chunk lies between the two, and otherwise stays; a null pointer changes nothing |
| DlClient.SetInuseTwice | src/dlmalloc.c:1238-1240 | set_inuse on the two parts of a chunk, in either order, over stale words, gives the same tags |
| DlClient.CutUsed | src/dlmalloc.c:2620-2625 | A live chunk is cut in two live chunks; nothing else changes |
| DlClient.ExpandIntoTop | src/dlmalloc.c:2627-2637 | A live chunk before top grows into it; nothing else changes |
| DlClient.ResizeInPlace | src/dlmalloc.c:2614-2653 | internal_realloc resizes in place exactly when the chunk is large enough, or is before top and top makes it so; the chunk then has nb bytes, or its old size if it is large enough and less than 16 would be left; otherwise nothing changes |
| DlClient.MoveBlock | src/dlmalloc.c:2654-2662 | malloc-copy-free: the new block is another one, the one that malloc gives; its payload starts with the old contents, and the old chunk is gone; it fails exactly when there is no room, and then nothing changes |
| DlClient.MovedKeeps | src/dlmalloc.c:2654-2662 | What memcpy moves are the first bytes of the old payload: as many as were asked for, or as it has |
| DlClient.Realloc | src/dlmalloc.c:3134-3155 | dlrealloc: all five cases (null, zero bytes, in place, moved, failed); the pointer stays exactly when the chunk can be resized in place, and the chunk is then cut or grown to nb bytes; otherwise the new chunk is the one that malloc gives; as many bytes as were asked for, or as the old payload had, are kept, and every byte outside the result is unchanged; for a block, null is returned exactly for zero bytes, which frees it, for an oversized request, and when it can neither be resized in place nor is there room for another |
| DlClient.RoundAlignment | src/dlmalloc.c:2672-2678 | The alignment becomes the least power of two that is at least 16 and at least what was asked for |
| DlClient.RoundingEnds | src/dlmalloc.c:2674-2678 | Doubling 16 on 32 bits reaches an alignment exactly if it is at most 2^31 |
| DlClient.AlignedSpot | src/dlmalloc.c:2704-2711 | The aligned spot leaves a leader of at least 16 bytes and never more than the alignment and 8 |
| DlClient.AlignChunk | src/dlmalloc.c:2692-2748 | Leader and trailer of a chunk go back; what stays starts at the aligned spot, and is the chunk up to nb bytes when 16 bytes or more are left after it |
| DlClient.Memalign | src/dlmalloc.c:2669-2752 | dlmemalign: a result is one new live chunk whose payload is a multiple of the rounded alignment, with at least nb bytes, cut out of the chunk that malloc gives for the widened request; it fails exactly for an oversized request or when no free chunk, nor top with the grant, can hold the request, widened by the alignment and 16 bytes if that is above 8; failure changes nothing live |
| DlClient.PayloadsDisjoint | src/dlmalloc.c:1450-1461 | Payloads of two live chunks, each reaching into the next chunk's prev_foot, do not overlap |
| DlClient.MetadataOutsidePayload | src/dlmalloc.c:1382-1448 | No head of any chunk, and no foot or link word of a free chunk, lies in a live payload |
| DlClient.MetadataApart | src/dlmalloc.c:1382-1448 | Head words of chunks, feet and link words of free chunks do not overlap one another |
| DlClient.ChecksPass | src/dlmalloc.c:3032-3070 | For a live payload the run-time checks pass, those on the free chunk before it included: the usage-error branches of dlfree and internal_realloc are not reached |
| DlClient.LinkChecksPass | src/dlmalloc.c:1749-1766 | For every binned chunk the checks on link words in insert, unlink and tmalloc pass: the corruption branches are not reached |
| DlClient.AllFreed | src/dlmalloc.c:1617-1643 | When nothing is live the segment is one free chunk, top; there is no dv and the bins are empty |
| DlClient.HeldDisjoint | src/dlmalloc.c:1617-1643 | In any reachable state the blocks a program holds are pairwise disjoint |
| DlClient.Step | src/dlmalloc.c:2887-3157 | One call of malloc, free, realloc or memalign keeps the invariant and the correspondence between the program's pointers and the live chunks |
| DlClient.Run | src/dlmalloc.c:2887-3157 | Every sequence of calls on a fresh heap keeps the invariant; when no pointer is left the heap is one free chunk again |
| SallocChain.Relink | src/salloc.c:41-61 | Link writes confined to a stretch of blocks and its two borders keep the region an address-ordered, mutually linked tiling between its guards |
| SallocChain.FreedNoTwoFree | src/salloc.c:99-116 | After freeing with coalescing no two neighbours are free |
| SallocChain.FreedLive | src/salloc.c:99-116 | Freeing takes exactly the freed block's payload from the live ones |
| SallocChain.LiveDisjoint | src/salloc.c:190-211 | Two live payloads of a region are disjoint and lie between the guards |
| SallocChain.NothingLive | src/salloc.c:190-211 | A region with no live block is the single free block s_init made |
| SallocOps.Memory.CompactFree | src/salloc.c:99-116 | s_compact_free: both loops end, the block is joined with its free neighbours, and only block headers are written |
| SallocOps.Memory.SplitBlock | src/salloc.c:148-154 | The links of a block cut in two, with the rest freed and joined, whatever lay where its header goes |
| SallocOps.Memory.FindBest | src/salloc.c:128-144 | The scan finds the first block of the smallest sufficient size, or 0 exactly when none suffices |
| SallocOps.Memory.GetFreeBlock | src/salloc.c:120-157 | s_get_free_block takes the best fitting block, split when 16 bytes or more are left, and writes headers only; 0 exactly for size 0 or when none fits |
| SallocOps.GrantedLive | src/salloc.c:143-157 | Granting a block adds exactly one payload to the live ones |
| SallocOps.CutFreedLive | src/salloc.c:173-188 | Cutting a live block and freeing its rest replaces its payload by a prefix of it |
| SallocRegions.KeptElsewhere | src/salloc.c:99-188 | Header writes in one region leave every other live payload, in any region, as it was |
| SallocRegions.OneRegion | src/salloc.c:99-188 | An operation on one region leaves the chains of the others intact |
| SallocRegions.PayloadWrite | src/salloc.c:275-275 | Writing into a live payload disturbs no chain and no other payload |
| SallocRegions.AllLiveDisjoint | src/salloc.c:190-226 | Live payloads are pairwise disjoint over all regions |
| SallocRegions.AllGivenBack | src/salloc.c:190-211 | When nothing is live every region is as s_init left it |
| Salloc.Allocator.Init | src/salloc.c:190-211 | s_init: every region is two taken guards and one free block |
| Salloc.FitsHolds | src/salloc.c:120-144 | A block is large enough exactly if it is free and size bytes fit after its header |
| Salloc.ServedIs | src/salloc.c:120-157 | The block that the searches choose is the first of the smallest that hold size bytes, and its payload is cut as smalloc says |
| Salloc.Allocator.Smalloc | src/salloc.c:215-226 | smalloc fails exactly for size 0 or when no free block of any region has room for size and a header; else it takes the first of the smallest such blocks of the first region that has one, cut after size, rounded up to 8, when 16 bytes or more are left; that payload is added, and no live unit changes |
| Salloc.Allocator.Sfree | src/salloc.c:228-233 | sfree gives back exactly the payload at ptr and changes no live unit; before s_init or for null it does nothing |
| Salloc.Allocator.ShrinkBlock | src/salloc.c:173-188 | The block keeps a prefix of its payload: size rounded up to 8 when 16 bytes or more are left after it, which go back, and all of it otherwise |
| Salloc.Allocator.Grow | src/salloc.c:271-277 | A larger payload, the one that smalloc gives, takes over all units of the old one, which is given back; it fails exactly when no free block has room, and then nothing changes |
| Salloc.Allocator.Srealloc | src/salloc.c:246-279 | srealloc: all cases, with the units that both sizes have room for kept and all other live payloads unchanged; a size the block has room for keeps the pointer, a larger one gets the block that smalloc gives |
| SallocRun.Step | src/salloc.c:215-279 | One call keeps the chains good and the program's pointers in step with the live payloads |
| SallocRun.Run | src/salloc.c:215-279 | Every run keeps the chains good; when no pointer is left every region is the single free block again |
| Octets.Le32RoundTrip | src/romfs.c:113-114 | The size read back from four bytes, least significant first, is the size written |
| Octets.LeastFirst | src/romfs.c:113-114 | The bytes of two given numbers, least significant first |
| WofsLog.SameNameIs | src/romfs.c:116-116 | Names are taken as the same exactly if they have the same length and at each place the same byte, or an ASCII letter in the two cases |
| WofsLog.NamedIs | src/romfs.c:116-121 | The first entry of the log that the look-up takes is the first live one whose name is the same in that sense |
| WofsLog.EntryBytes | src/romfs.c:101-130 | The literal bytes of an entry of the write-once system, live and deleted, and where the next one starts |
| WofsLog.EntriesTombstone | src/romfs.c:200-206 | Setting the deletion byte of an entry changes that entry's mark and no other entry |
| WofsLog.MapFinds | src/romfs.c:76-134 | In a log with unique live names a lookup finds a name exactly when the file map has it, with the contents the map gives |
| WofsLog.MapDelete | src/romfs.c:200-206 | Marking the live entry of a name deleted removes that name, and only that, from the file map |
| WofsLog.MapAppend | src/romfs.c:243-264 | A new entry for an unused name adds it to the file map |
| RomScan.ReadFields | src/romfs.c:101-130 | The fields after a name are read where the writer put them, for both systems, with the right start of the next entry |
| RomScan.OpenFile | src/romfs.c:76-134 | romfs_open_file, on 32-bit offsets and also while a file is being written, ends; it finds the first live entry whose name has the same bytes, letters A to Z and a to z taken as one, with its data; or the file being written, if it has that name, with the size 0xFFFFFFFF; and otherwise reports where the walk ends |
| RomScan.LiveNameFound | src/romfs.c:76-134 | While a file is being written, whatever its data, a file that is there is found as ever |
| RomScan.PendingNameFound | src/romfs.c:110-121 | The name being written, unless an older file has it, is found with the size 0xFFFFFFFF |
| RomScan.OtherNameAbsent | src/romfs.c:110-134 | Any other name is reported absent, at the start of the data being written, exactly when that data is empty or starts with 0xFF |
| RomScan.DataTakenForEntry | src/romfs.c:110-121 | Data that looks like an entry of the name is taken for one: a look-up finds a file that does not exist |
| RomScan.WrongLookup | src/romfs.c:110-121 | A medium on which this happens |
| RomScan.ReadDir | src/romfs.c:358-394 | romfs_readdir_r ends and returns the next live entry and where to go on |
| RomScan.ListAll | src/romfs.c:358-394 | Reading a directory to its end lists the live entries once each, in log order |
| Mkfs.AddFile | mkfs.py:111-130 | The byte loops of mkfs append name, zero, padding to 4, size and data |
| Mkfs.TwoFiles | mkfs.py:111-130 | The literal bytes of two files in an image, padding included |
| Mkfs.Mkfs | mkfs.py:57-136 | The image is a log of exactly the files that are not skipped, in order, closed by the end marker |
| Mkfs.WantedIs | mkfs.py:57-110 | A name is in the image exactly if one of the files given has it and is not skipped, and the first such file gives the contents |
| Mkfs.BuildAndOpen | mkfs.py:57-136 | Opening a name in a built image finds the first of the given files with that name, letters A to Z and a to z taken as one, with its contents, and finds none exactly when no such file was given |
| Mkfs.BuildAndList | mkfs.py:57-136 | Listing a built image gives the names and sizes of the files in order |
| Wofs.WriteOnceRun | src/romfs.c:205-256 | Over a list of images, each made from the one before by programming blank cells, a byte changes at most once, and only away from 0xFF; WofsRun.Run shows that every run of calls makes such a list |
| Wofs.TombstoneMedium | src/romfs.c:200-206 | Deleting writes only into blank cells and leaves the log well formed, blank after its end |
| Wofs.CreateMedium | src/romfs.c:207-226 | Under the space check of open, a new name fits, its fields are blank, and four bytes remain for the end marker |
| Wofs.WriteMedium | src/romfs.c:280-290 | Appending keeps the file being written, and the blank rest of the medium, well formed |
| Wofs.CloseMedium | src/romfs.c:249-260 | Writing back the size turns the file being written into the last entry of a well-formed log |
| WofsFiles.FileSystem.Program | src/romfs.c:205-217 | The medium is programmed only where it is blank |
| WofsFiles.Decide | src/romfs.c:153-190 | The flag checks of open, in the order of the code, refuse exactly as the table of refusals says |
| WofsFiles.FileSystem.Create | src/romfs.c:207-226 | Creating fails with ENOSPC exactly when fewer than the name's length and 15 bytes are left; else the file is being written |
| WofsFiles.FileSystem.Lookup | src/romfs.c:151-152 | The look-up of open finds a name exactly when the file map has it, with the map's contents |
| WofsFiles.FilesAre | src/romfs.c:151-152 | The file map has a name exactly if a live entry has it, letters A to Z and a to z taken as one, and gives that entry's data |
| WofsFiles.FileSystem.Open | src/romfs.c:136-241 | romfs_open_r on every combination of flags, also while a file is being written: refusals, in the order of the code, change nothing; reading gives the contents of the live file with that name, letters A to Z and a to z taken as one; the descriptor can be read unless it is write-only, and written if it is write-only, read-write or appending; creating removes an older version and keeps every other entry, even when ENOSPC follows, which it does exactly when fewer bytes than the name's length and 15 were left |
| WofsFiles.FileSystem.Close | src/romfs.c:243-264 | Closing the writer adds exactly its file to the file map; closing a reader changes nothing but the table |
| WofsFiles.FileSystem.Write | src/romfs.c:266-291 | A write appends the bytes there is room for, at the end of the file only, into blank cells only |
| WofsFiles.FileSystem.Read | src/romfs.c:293-310 | A read returns the bytes from the offset on, as far as the file goes, and moves the offset |
| WofsFiles.FileSystem.Lseek | src/romfs.c:313-339 | Seeking on 32 bits sets the offset exactly when the target lies within the file |
| WofsFiles.FileSystem.ReadChunks | src/romfs.c:293-310 | Reads in chunks of any sizes return the contents in one piece |
| WofsFiles.FileSystem.WriteChunks | src/romfs.c:266-291 | Writes in chunks of any sizes store their concatenation up to where the medium is full |
| WofsFiles.FileSystem.Store | src/romfs.c:136-291 | A writing session makes the file map say what was accepted, cut short only when the medium is full |
| WofsFiles.FileSystem.Load | src/romfs.c:136-310 | A reading session returns what the file map says |
| WofsFiles.FileSystem.List | src/romfs.c:358-394 | The directory lists every file of the file map once, with its size |
| WofsFiles.FileSystem.CreateAndClose | src/romfs.c:224-260 | After creating and closing, WRITING is clear exactly if write access was asked for: a file created read-only leaves it set |
| WofsStore.StepKeepsOk | src/romfs.c:136-339 | Every call keeps: offsets within their files, at most one handle creating a file, the file being written not there yet, and room for the end marker |
| WofsStore.WriteKeepsOk | src/romfs.c:280-290 | The room computed by a write is never negative, and never more than what was given, though the code computes it without a check |
| WofsStore.ReaderKeeps | src/romfs.c:136-310 | In every run a reader keeps the contents its file had when it was opened, through creations, writes, closes and deletions of other files and of its own name |
| WofsStore.ReaderReads | src/romfs.c:293-310 | So every later read of it returns the bytes of those contents from its offset on, as many as asked for or as there are |
| WofsStore.ReadsJoin | src/romfs.c:293-310 | Reads in chunks of any sizes, with any calls on other descriptors between them, put together are the contents in one piece |
| WofsStore.WritesJoin | src/romfs.c:266-291 | While a file is being written it holds what its writes took, in order, whatever is called between them; the other files stay |
| WofsStore.SessionStores | src/romfs.c:136-291 | After a writer's close the file is there with exactly the bytes taken in the whole run since its open, and every other file is as it was at the open |
| WofsStore.CreatedAccess | src/romfs.c:174-181 | A file that was created can be read unless it was opened write-only, and written if it was opened write-only, read-write or for appending |
| WofsStore.FileStays | src/romfs.c:136-291 | In every run a file stays as it is until an open replaces it |
| WofsRun.ReaderStays | src/romfs.c:200-310 | The bytes of an open reader on the medium stay the same while its entry is there, marked deleted or not, blank bytes of its data included |
| WofsRun.OpenRefines | src/romfs.c:136-241 | Open does to files, handles and room what the store says, and replies the same |
| WofsRun.CloseRefines | src/romfs.c:243-264 | So does close |
| WofsRun.WriteRefines | src/romfs.c:266-291 | So does write |
| WofsRun.ReadRefines | src/romfs.c:293-310 | So does read |
| WofsRun.LseekRefines | src/romfs.c:313-339 | So does lseek |
| WofsRun.StoreIsOk | src/romfs.c:136-339 | What a well-formed medium and table stand for satisfies the store's invariant |
| WofsRun.Do | src/romfs.c:136-339 | Each call computes the store's step and reply, and programs blank cells only |
| WofsRun.ImagesChangeOnce | src/romfs.c:205-256 | Over the images of a run every byte changes at most once, and only away from 0xFF |
| WofsRun.Run | src/romfs.c:136-339 | Every run of open, close, write, read and lseek on descriptors in any mix is a run of the store; over it every byte of the medium changes at most once, away from 0xFF, and in every state the rest of the medium is blank with room for the end marker |
| Flash.FindSector | src/common.c:484-510 | The sector search returns the one sector of an address, with its first and last address, for sectors of any sizes |
| Flash.FindUniformSector | src/common.c:486-495 | For sectors of one size the division gives what the general search does |
| Flash.FirstFreeBlock | src/common.c:528-537 | The first free block is the lowest sector boundary not below the used size |
| Flash.Device.Write | src/common.c:539-585 | platform_flash_write changes exactly the target bytes, by writes of whole units at unit boundaries only |
| Flash.Device.WriteAligned | src/common.c:564-582 | The aligned part and the last partial unit are written the same way |
| Flash.Format | src/romfs.c:513-527 | Erasing from the first free sector to the one of the log's end leaves the whole area blank and the used part alone, for sectors of any sizes |
| Flash.BlankIsEmpty | src/romfs.c:513-527 | A blank area is the empty file system |
| Mux.FlipSpecial | inc/sermux.h:6-14 | Escaped bytes are plain on the wire and come back by flipping the same bit again |
| Mux.OnWire | src/common_uart.c:144-166 | The bytes that a send puts on the wire, in full: the service ID if it is new, and 0xC0 with the flipped byte for 0xC0, 0xFF and 0xD0 to 0xD7 |
| Mux.RunDecodes | src/common_uart.c:100-135 | In any run an end delivers what the other end's traffic alone decodes to: its own sends and answerable requests between any two bytes change nothing |
| Mux.DecodeEncoded | src/common_uart.c:144-166 | What was encoded decodes to the same messages, and needs no request and no error branch |
| Mux.EndToEnd | mux_src/main.c:283-372 | For every interleaving, on either end, the messages delivered are those sent, in order, to the right services, and no protocol-error branch is taken |
| Mux.SendsEncode | mux_src/main.c:349-372 | What an end that is not asked to send again puts on the wire is the encoding of what it sends, whatever it receives between |
| Mux.TwoEnds | mux_src/main.c:283-372 | Two ends joined by two first-in-first-out channels: under every schedule from reset each end has delivered a prefix of what the other sent, all of it once nothing is on the way, without protocol error and without any resend request |
| Mux.RequestHarmless | src/common_uart.c:109-129 | A resend request is answered exactly when there is something to send again; reception is undisturbed exactly then, or at a device that waits for a service and has seen no escape; otherwise the host gives up, and a device forgets its escape or takes 0xFF for data |
| Mux.HostEnds | mux_src/main.c:293-320 | The host ends exactly at a request with nothing to send again, or at an escaped byte that no end escapes |
| Mux.Recovery | mux_src/main.c:293-325 | After losing service and escape state before any byte of a transmission, at most one request and its answer deliver the pending byte once to its service, and both ends agree again |
| Mux.PortDelivered | mux_src/main.c:349-372 | A byte from a serial port reaches its own service exactly if the port's ID is a service ID; else ID and byte are delivered to the service the device is in |
| MuxLoss.StepKeeps | mux_src/main.c:283-325 | Each act of a system in which ends may lose their state keeps both directions: settled, or the last byte on the way, missed, asked for or being sent again |
| MuxLoss.LossyEnds | mux_src/main.c:283-372 | Under every schedule in which ends lose service and escape state at any time but while an answer is on the way, and send when all is settled, every byte is delivered once, in order, to its service, without protocol error |
| MuxLoss.AnsweredReached | mux_src/main.c:293-310 | A state with an answer on the way that such a schedule reaches |
| MuxLoss.SecondLossFatal | mux_src/main.c:293-298 | A loss there makes the host end: it is asked again and has nothing to send again |
| MuxLoss.NoWaitFatal | mux_src/main.c:293-298 | Two bytes sent without waiting and their service lost make the host end |
| MuxDevice.Uart.RxHandler | src/common_uart.c:100-138 | cmn_rx_handler does what the device's step function says |
| MuxDevice.Uart.UartSend | src/common_uart.c:141-166 | platform_uart_send does what the send step says, and nothing for other ports |
| MuxDevice.Uart.Serve | src/common_uart.c:100-166 | A whole run of the device is the protocol's run |
| MuxFiles.LoopConsistent | mux_src/main.c:264-373 | Every run of the loop is the protocol's run on the same bytes both ways; ports get exactly the messages of other services, and framer and server do what the bytes of their service alone make them do |
| MuxFiles.PlainMultiplexer | mux_src/main.c:264-373 | A host that serves no files is the protocol's run, and every message goes to a port |
| MuxFiles.PacketsServed | rfs_server_src/rfs_transports.c:224-291 | Well-formed packets that fit, one after the other: the server is called once for each, with the packet at the start of the buffer and the last answer behind it |
| MuxFiles.AllAnswersSent | mux_src/main.c:264-281 | If the server's buffer starts with a packet, exactly its bytes go out, in one piece, on the first service, from where its answer was due; for a buffer whose tags are wrong nothing goes out; the bytes on that service are those packets and nothing else |
| MuxFiles.AnswerSent | rfs_server_src/rfs_transports.c:275-291 | What is sent for a buffer is the packet it starts with, all bytes of it, and nothing if its tags are wrong |
| MuxFiles.PacketsSent | mux_src/main.c:264-281 | So in any run whose answers were sent, whole packets go out at the places where answers were due, and only packets do |
| MuxFiles.TurnsWire | mux_src/main.c:264-373 | The events of the protocol in a run carry the wire traffic of the events taken, with the answers' bytes among them |
| MuxFiles.StillAnswerable | mux_src/main.c:264-325 | Answers do not make requests unanswerable: where the device's requests can be answered without them, they can be with them |
| MuxFiles.NoProtocolError | mux_src/main.c:283-372 | A run over clean traffic with answerable requests takes no protocol-error branch, and decodes that traffic |
| MuxFiles.FilesServed | mux_src/main.c:264-373 | Files over the multiplexer, for any mix of well-formed requests that fit, other services' traffic, port bytes and answerable resend requests: the run never ends, ports get exactly the other services' messages, the server is called once for each request with that request in its buffer, every packet that the server leaves at the start of its buffer goes out with all its bytes on the first service, and nothing else does, and the wire carries the encoding of answers and port bytes |
| MuxHost.Loop.PutByte | mux_src/main.c:349-372 | The host's sending does what the send step says |
| MuxHost.Loop.FeedFramer | rfs_server_src/rfs_transports.c:224-268 | rfs_mem_read_request_packet does what the framing step says, for any state of the framer; a byte that finds no room is reported |
| MuxHost.Loop.Answer | rfs_server_src/rfs_transports.c:275-291 | When the server leaves a packet at the start of its buffer, what is to be sent are exactly its bytes; with wrong tags it is nothing; the framer starts afresh |
| MuxHost.Loop.Deliver | mux_src/main.c:326-345 | A data byte goes to its port; in file server mode one for the first service goes to the framer, and a complete request starts the answer |
| MuxHost.Loop.Receive | mux_src/main.c:283-325 | The protocol's part of a byte from the wire is the host's step function |
| MuxHost.Loop.WireByte | mux_src/main.c:283-347 | One turn on a byte from the wire does what the specification of a run says, in both modes |
| MuxHost.Loop.PortByte | mux_src/main.c:349-372 | A byte from any of the eight serial ports is sent under the ID of its port, one further in file server mode, the eighth one's 0xD8 included |
| MuxHost.Loop.AnswerByte | mux_src/main.c:266-271 | One turn with an answer waiting sends its next byte |
| MuxHost.Loop.Turn | mux_src/main.c:264-373 | While an answer is waiting nothing is read, and buffer, framer and ports do not change; otherwise the next event is taken |
| MuxHost.Loop.Serve | mux_src/main.c:264-373 | A whole run, in both modes, with or without the file server, is the specified one, and ends early exactly when that does; in no turn with an answer waiting do buffer or framer change |
| MuxHost.Loop.ServeFiles | mux_src/main.c:264-373 | The loop as a file server: what FilesServed says, of ports, server calls, packets sent and wire |
| RfsFramer.PacketsAreWellFormed | src/eluarpc.c:151-162 | Every packet of up to 65535 bytes is well formed for the framer |
| RfsFramer.Reassembled | rfs_server_src/rfs_transports.c:224-268 | From a fresh start the buffer holds the bytes so far in front of its old contents, and the flag is up exactly at the last byte |
| RfsFramer.HeaderRead | rfs_server_src/rfs_transports.c:230-253 | The first four bytes decide what the framer waits for |
| RfsFramer.GoodHeaderIs | rfs_server_src/rfs_transports.c:237-253 | A header is good exactly if it is 0xA5, 2 and a size, low byte first, above 4 and at most the buffer's |
| RfsFramer.FlagRises | rfs_server_src/rfs_transports.c:224-268 | Some bytes after a header raise the flag without one past the buffer exactly when the tags are right and the size is above 4 and at most the buffer's; then the last byte announced raises it |
| RfsFramer.BadHeader | rfs_server_src/rfs_transports.c:237-253 | A header with a wrong tag stops the framer without a flag: it drops every byte until it is started again |
| RfsFramer.BadSize | rfs_server_src/rfs_transports.c:247-264 | After right tags with a size of at most 4, or beyond the buffer, every byte is stored, the flag never rises, and bytes that do not fit go past the buffer |
| RfsFramer.EmptyPacketHangs | rfs_server_src/rfs_transports.c:247-264 | A packet of size 4 is such an input |
| RfsFramer.LongPacketOverruns | rfs_server_src/rfs_transports.c:247-264 | A packet of size 65535 is one for every smaller buffer |
| Rpc.ReadWritten | src/eluarpc.c:68-134 | A written field, read with a fitting specifier, gives its value and its length |
| Rpc.ReadMisfit | src/eluarpc.c:68-134 | A field that does not fit the specifier raises the error flag |
| Rpc.ReadAllFields | src/eluarpc.c:285-359 | A field list with its end signature is accepted exactly when it fits the format one by one |
| Rpc.RoundTrip | src/eluarpc.c:221-359 | eluarpc_gen_read accepts what eluarpc_gen_write wrote exactly when kinds, operation IDs and responses (modulo 0x80) agree, and returns the values written, NULL for empty pointers |
| Rpc.SizeIsTrue | src/eluarpc.c:203-209 | The size header is the true length exactly for packets of less than 65536 bytes |
| Rpc.RequestIdIs | src/eluarpc.c:190-196 | The request ID is read exactly from packets that start with an operation |
| Rpc.FieldOnWire | src/eluarpc.c:15-63 | The literal bytes of every kind of field: its type, its value low byte first, its contents; a response below 0x80 goes out as itself and 0x80 |
| Rpc.PacketOnWire | src/eluarpc.c:142-273 | The literal bytes of a packet: 0xA5, its length as a 16-bit number, the start signature, the fields, the end signature |
| RpcCodec.WriteField | src/eluarpc.c:15-63 | Each case of the writer puts exactly the field's bytes at the cursor |
| RpcCodec.GenWrite | src/eluarpc.c:221-273 | The buffer starts with the packet, size header included, and is unchanged after it |
| RpcCodec.Reader.ReadOne | src/eluarpc.c:75-134 | Each case of the reader moves the cursor, returns the value and raises the flag as the specification says |
| RpcCodec.Reader.GenRead | src/eluarpc.c:285-359 | eluarpc_gen_read computes the specification, with the sticky flag |
| RpcCodec.Reader.GetPacketSize | src/eluarpc.c:203-209 | eluarpc_get_packet_size computes its specification |
| RpcCodec.Reader.GetRequestId | src/eluarpc.c:190-196 | eluarpc_get_request_id computes its specification |
| RingBuffer.SlotsFill | src/buf.c:48-51 | The slots that 16-bit pointers reach fill the buffer, or 65536 bytes of it |
| RingBuffer.NextSlot | src/buf.c:48-48 | The masked increment, cut to 16 bits, moves a pointer to the next slot of the ring of those slots, for every size that buf_set takes |
| RingBuffer.WriteAdds | src/buf.c:115-135 | A write that finds room, at any point of a read, adds its element after all that reads would still give; room is also there when the ring is full and the oldest element has been copied out |
| RingBuffer.FullWrite | src/buf.c:124-135 | A write to a full ring, for every point of a read: nothing is lost once the oldest element is copied out; else the new element takes the place of the oldest one still to be copied, or of the bytes still to be copied of it |
| RingBuffer.OverfullWrite | src/buf.c:124-135 | With more counted than there are slots, a write that is accepted replaces an element not yet read, unless it equals it |
| RingBuffer.WriteExact | src/buf.c:115-135 | In every state of the ring and at every point of a read, an accepted write loses nothing exactly under a condition on count, point of the read, and the bytes in the slot |
| RingBuffer.MainConserves | src/buf.c:173-193 | No step of a read loses or invents an element, in any state of the ring: what it gives and what reads would then give is what they would have given |
| RingBuffer.ReadsGiveAhead | src/buf.c:173-193 | Without writes, a number of steps known beforehand reads exactly the elements ahead, and then the ring is empty |
| RingBuffer.RunDelivers | src/buf.c:115-193 | Every interleaving of interrupts and steps of reads in which no accepted write loses something delivers what was there and what was accepted, in order |
| RingBuffer.CheckedRun | src/buf.c:115-193 | In a buffer of at most 65536 bytes it is enough that each write finds fewer elements counted than the buffer's size |
| RingBuffer.SizeFits | src/buf.c:48-50 | Writes below the size that buf_get_size gives lose nothing, in every state, exactly if the buffer has at most 65536 bytes |
| RingBuffer.Overfill | src/buf.c:115-135 | From an empty ring, one write more than there are slots: all are accepted, and all are read again exactly if the last element equals the first |
| RingBuffer.LargestBuffer | src/buf.c:81-98 | In the largest buffer 16385 different elements are accepted and the first is lost, though its size is 32768 |
| RingBuffer.Buffer.constructor | src/buf.c:81-107 | buf_set and buf_flush make an empty ring of any of the sizes |
| RingBuffer.Buffer.Flush | src/buf.c:101-107 | A flushed buffer is empty |
| RingBuffer.Buffer.Write | src/buf.c:115-135 | buf_write, in every state and at every point of a read: it refuses exactly when more elements are counted than the size, and then changes nothing; it adds its element after those to be read exactly under the condition of WriteExact |
| RingBuffer.Buffer.Step | src/buf.c:173-193 | Each step of buf_read conserves what is to be read, whatever interrupts have written |
| RingBuffer.Buffer.Interleave | src/buf.c:115-193 | Every interleaving is the specified run, for every size and with refused and lossy writes: if none was lossy, what is read, and what is left, is what was accepted, in order |
| IntQueue.AddStep | src/elua_int.c:94-121 | Adding at any point of the hook's work keeps the occupied slots one circular run |
| IntQueue.EmptyStep | src/elua_int.c:66-67 | Emptying the slot that was read takes exactly the oldest event |
| IntQueue.ClearStep | src/elua_int.c:86-89 | With interrupts off the hook is cleared exactly when nothing is waiting |
| IntQueue.FlagIs | src/elua_int.c:124-143 | Enabling or disabling a source changes that source's flag and no other |
| IntQueue.Queue.Add | src/elua_int.c:94-121 | elua_int_add accepts exactly known, enabled events while a slot is free, and installs the hook |
| IntQueue.Queue.HookStep | src/elua_int.c:60-90 | Each step of the hook keeps the invariant, and is the next of the five: with the hook installed an idle step reads the oldest waiting event; the event read is taken; a handler is called for it exactly if it is enabled; and the last step leaves the hook installed exactly if another event is waiting |
| IntQueue.Queue.SetEnabled | src/elua_int.c:124-135 | elua_int_enable and elua_int_disable on the flag words |
| IntQueue.Queue.Drain | src/elua_int.c:60-90 | Without interrupts, from any state, a known number of hook steps, five for each waiting event, takes every event accepted, clears the hook, and hands on exactly those that are enabled, in order |
| IntQueue.Queue.Interleave | src/elua_int.c:60-121 | For every interleaving of interrupts, hook steps and changes of the enabled set, the events taken are the first ones accepted, in order; the events handed to handlers are, in order, those taken that were enabled when their handler's step came; and while any is waiting the hook is set |

## Left out

- dlmalloc's mmap, mspaces, locks, footers, trimming, several segments and statistics: disabled by the configuration or off the main path.
- DlHeap.Heap.Malloc: of several binned chunks of the same best size it does not say which is taken; for small bins it is the first of the bin (`SmallBins.UnlinkFirst`).
- WofsFiles.FileSystem.Open: while a file is being written, does not cover an open whose look-up enters that file's data or finds its name (`RomScan.OtherNameAbsent` and `RomScan.PendingNameFound` say what such look-ups return), nor a creating open without write access, which src/romfs.c:191 lets through: its name would go where the data of the file being written starts.
- RomScan.ReadDir: a directory is read while no file is being written; the walk of romfs_readdir_r is the one of romfs_open_file.
- MuxHost.Loop.Deliver: every service has an open port; the source indexes its table of ports with the service it received, opened or not.
- The fencepost word that init_top writes after top: nothing reads it while the segment does not shrink.
- dlcalloc, dlvalloc, dlpvalloc and scalloc: thin wrappers.
- The release of memory to the system at the end of dlfree.
- The formatting of mkfs.py's output as C source, and its calls of the cross compiler: `Mkfs` starts from names and contents.
- One table of open files shared by both file systems: `FileSystem` owns its table.
- romfs_opendir_r, romfs_closedir_r and romfs_getaddr_r: no logic to speak of.
- A NULL source with a non-zero length in eluarpc_write_ptr, which leaves the bytes to be filled in before the call.
- The signed readings of the format characters i and L: they write and read the same 32 bits as l.
- Disabled buffers (BUF_SIZE_NONE), buf_set on a buffer in use or without memory, and the choice of the buffer by resource number.
- C interrupt handlers, and the Lua calls inside elua_int_hook: `HookStep` says only which event is handed to a handler.
- Operating system, socket, serial-port, SPI/MMC, semihosting, FatFs, TCP/IP, terminal and editor code.
- src/xmodem.c, src/common_tmr.c, src/elua_adc.c and src/common_fs.c: easier than what is modelled.
