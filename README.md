# A verified model of an explicit-free-list malloc package

This project models `mm.c`, a malloc package for a simulated heap in the style of
CS:APP. Every block carries a boundary tag at each end: a header word and a footer
word. Each tag packs the block size, a multiple of 8, with an allocated bit. Free
blocks are also threaded on an explicit, doubly linked free list whose prev and next
links sit in the first two payload words. The package exports four operations:
`mm_init`, `mm_malloc`, `mm_free` and `mm_realloc`. They rely on these static routines:

- `extend_heap`
- `coalesce`
- `findOpenSpot` (first fit)
- `placeBlock` (split or take whole)
- `addBlock` and `removeBlock` (list maintenance)

The model uses the 32-bit build: a `size_t` word is 4 bytes. The heap is a sequence of
words. An address is a byte offset from the first byte of the simulated heap. Offset 0
holds the alignment padding word, so NULL is written 0. Beside the words, a ghost view
records two sequences:

- `blocks`: the payload addresses of the regular blocks, in address order;
- `free`: the free list, in list order.

`Heap.Consistent` ties the words to that view. It requires four things:

- the blocks are well tagged and chained between the prologue and the epilogue;
- the free list is well linked;
- a block is listed exactly when its tag says free;
- no two neighbouring blocks are both free.

`Heap.Keeps` states that every block the program holds keeps all its words across an
operation, apart from the blocks the operation is meant to release.

`Heap.KeepsFree` is its counterpart for the free list. Every listed block, apart from the blocks the operation works on, stays listed with its header, and so with its size. `Heap.MergedView` describes what coalescing does to the view. The run of blocks it merges gives way to its first block, both in the block sequence and on the list.

Modules:

| module | file | contents |
|---|---|---|
| `Codec` | `codec.dfy` | `PACK`, `GET_SIZE`, `GET_ALLOC`, `ALIGN` and the size adjustment of `mm_malloc`, with their bit-level meaning |
| `Layout` | `layout.dfy` | `GET`, `PUT`, `HDRP`, `FTRP`, `NEXT_BLKP`, `PREV_BLKP`, and the block chain |
| `FreeList` | `freelist.dfy` | the link macros, the list as a sequence, insertion, removal and first fit |
| `Heap` | `heap.dfy` | the consistency invariant and the lemmas that carry it through each step |
| `Routines` | `routines.dfy` | `mem_sbrk`, `findOpenSpot`, `removeBlock`, `addBlock`, `coalesce`, `extend_heap` and `placeBlock`, as methods on the heap words |
| `MM` | `mm.dfy` | `mm_init`, `mm_malloc`, `mm_free` and `mm_realloc`; the class `Allocator` holds the globals `heap_start_ptr` and `head_FreeList` and the heap |

## Model

| member | source | states |
|---|---|---|
| Codec.Pack | mm.c:47 | A packed tag's three low bits hold the allocated bit; the rest is the size. |
| Codec.Unpack | mm.c:47-53 | GET_SIZE and GET_ALLOC of PACK(size, alloc) give back size and alloc. |
| Codec.GetSize | mm.c:52 | GET_SIZE clears the three low bits: a multiple of 8 within 7 below the word. |
| Codec.GetAlloc | mm.c:53 | GET_ALLOC is the low bit of the word. |
| Codec.PackIsBitOr | mm.c:47 | The arithmetic PACK equals the bitwise `size \| alloc`. |
| Codec.GetSizeIsMask | mm.c:52 | The arithmetic GET_SIZE equals the mask `& ~0x7` on 32-bit words. |
| Codec.GetAllocIsMask | mm.c:53 | The arithmetic GET_ALLOC equals the mask `& 0x1`. |
| Codec.TagRoundTrip | mm.c:47-53 | Bit-level round trip: masking PACK(size, alloc) with `~0x7` and `0x1` gives size and alloc. |
| Codec.Align | mm.c:91 | ALIGN gives a multiple of 8 within 7 above its argument, except that near 2^32 it wraps below 8. |
| Codec.AlignIsMask | mm.c:91 | ALIGN equals `(x + 7) & ~0x7` in 32-bit arithmetic. |
| Codec.AdjustedSizeAsWritten | mm.c:201-205 | The adjusted block size as computed in `size_t` arithmetic is a multiple of 8. |
| Codec.AdjustedSizeWraps | mm.c:201-205 | As written, a request of 0xFFFFFFF8 bytes adjusts to a block size of 0. |
| Codec.AdjustedSize | mm.c:197-205 | The corrected sizing refuses exactly the requests above MAX_REQUEST and keeps the source's formula otherwise. |
| Codec.AdjustedSizeFits | mm.c:201-205 | An accepted adjusted size is aligned, at least the minimum block, and holds the request. It is the least such size, and the heap growth it implies does not wrap. |
| Layout.Put | mm.c:49 | PUT writes one word and leaves every other word unchanged. |
| Layout.BoundaryTags | mm.c:57-61 | In a tagged heap each block's footer equals its header. NEXT_BLKP gives the next block or the break; PREV_BLKP gives the previous block or the prologue. |
| Layout.ChainOrder | mm.c:60 | Following NEXT_BLKP, the blocks lie at strictly increasing, non-overlapping addresses. |
| Layout.Splice | mm.c:57-61 | Retagging a run of blocks into a new chain over the same bytes keeps the heap tagged and keeps every other block. |
| FreeList.Links | mm.c:69-75 | The prev and next link words of the k-th listed block name its list neighbours (0 at either end). |
| FreeList.RemoveMultiset | mm.c:356-369 | Removing bp from the list removes exactly one occurrence of bp. |
| FreeList.Unlink | mm.c:356-369 | Rewriting the two facing links around the k-th entry (and the head when k is 0) yields a well-linked list without it. No other link changes. |
| FreeList.InsertMultiset | mm.c:298-320 | Insertion adds exactly bp to the list. |
| FreeList.InsertPos | mm.c:298-320 | addBlock's slot: the head when the first entry is not above bp; otherwise just before the last entry of the leading run of entries above bp. |
| FreeList.Link | mm.c:298-320 | Writing bp's two links and its neighbours' facing links yields a well-linked list with bp at the slot. Only those links change. |
| FreeList.LinkIn | mm.c:310-319 | addBlock's four link writes, as a function of the heap, produce the list with bp inserted at the slot. |
| FreeList.InsertNotSorted | mm.c:298-320 | addBlock does not keep the list in address order: inserting 32 into [48, 16] gives [32, 48, 16]. |
| FreeList.FirstFitIndex | mm.c:282-292 | The index of the first listed block of at least asize bytes; every block before it is smaller. |
| FreeList.FirstFitSpec | mm.c:282-292 | First fit is NULL exactly when no listed block is large enough. Otherwise it is a listed block that is large enough, and every block listed before it is smaller. |
| Heap.Retag | mm.c:271-274 | Rewriting a block's two tags with its own size keeps the heap consistent and every other held block. |
| Heap.Merge | mm.c:149-184 | Replacing a run of unlisted blocks by a chain over the same bytes keeps the heap consistent outside the new run, and keeps the held blocks outside it. |
| Heap.Split | mm.c:330-342 | placeBlock's four tag writes split a block into an allocated block of asize bytes and a free block of the rest, leaving the next block's header as it was. |
| Heap.Fuse | mm.c:154-182 | Tagging a run of blocks with one free header and footer makes it one free block of the summed size. |
| Heap.Grow | mm.c:137-139 | extend_heap's three tag writes append a free block of the new size at the old break, before a new epilogue, and keep every block. |
| Heap.PrevAllocBit | mm.c:150 | The allocated bit coalesce reads from the footer before bp is 0 exactly when the previous block is free. |
| Heap.NextAllocBit | mm.c:151 | The allocated bit coalesce reads from the header after bp is 0 exactly when the next block is free. |
| Heap.Disjoint | mm.c:57-61 | Two distinct blocks of a tagged heap do not overlap. |
| Heap.Predecessor | mm.c:61 | The block that ends where blocks[i] starts is blocks[i - 1], and PREV_BLKP of blocks[i] finds it. |
| Heap.CoalesceFrame | mm.c:154-183 | coalesce's final addBlock of the merged block: with the run off the list and the merged block added, the run gives way to that block in the block sequence and on the list, and every other listed block keeps its header. |
| Heap.ExtendFrame | mm.c:137-142 | extend_heap's coalesce of the new block: the block it returns is the new block itself, appended to the block sequence, or the old last block. The list gains exactly that block and keeps every other block with its header. |
| Routines.MemSbrk | mm.c:133-134 | mem_sbrk fails with -1 and no change when the capacity would be passed. Otherwise it returns the old break and grows the region by incr bytes, keeping the old words. |
| Routines.FindOpenSpot | mm.c:282-292 | The walk along the next links returns the first fit of the free list. |
| Routines.RemoveBlock | mm.c:356-369 | The list afterwards is the old list without bp, well linked. Only the links of bp's two list neighbours change. |
| Routines.AddBlock | mm.c:298-320 | The list afterwards is the old list with bp at InsertPos, well linked. Only bp's links and its neighbours' facing links change. |
| Routines.LinkWords | mm.c:310-319 | The four link writes are InsertWrites, and the head moves to bp when there is no predecessor. |
| Routines.SetTags | mm.c:271-274 | Both tags of the block become PACK(size, alloc), and no other word changes. |
| Routines.MergeNext | mm.c:157-162 | Case 2: bp absorbs the free next block, which leaves the list. The merged block starts at bp, ends where the next block ended, and sits off the list between blocks that are not free. It takes the pair's place in the block sequence. Every other listed block stays listed with its header, and every held block other than bp is kept. |
| Routines.MergePrev | mm.c:163-169 | Case 3: the free previous block absorbs bp and leaves the list, and the result is that block. It ends where bp ended and takes the pair's place in the block sequence. Every other listed block stays listed with its header, and every held block other than bp is kept. |
| Routines.MergeBoth | mm.c:170-182 | Case 4: the previous block absorbs bp and the next block, and both neighbours leave the list. The result starts at the previous block, ends where the next block ended, and takes the three blocks' place in the block sequence. Every other listed block stays listed with its header, and every held block other than bp is kept. |
| Routines.MergeFree | mm.c:149-182 | The four cases up to the final addBlock: the merged free block starts at the previous block when that one is free, else at bp, and ends where the last absorbed block ended. The run it replaces leaves the block sequence and the list. Every other listed block stays listed with its header, and every held block other than bp is kept. |
| Routines.Coalesce | mm.c:149-184 | The result is consistent, with the merged block listed. It starts at the previous block when that one is free, else at bp, and ends where the last absorbed block ended. In the block sequence the run gives way to the merged block, and on the list the run's blocks give way to it. Every other listed block stays listed with its header, and every held block other than bp is kept. |
| Routines.NewBlockTags | mm.c:137-139 | The new region gets the header and footer PACK(size, 0) and a new epilogue PACK(0, 1); nothing below it changes. |
| Routines.FillRegion | mm.c:137-142 | After a successful mem_sbrk the heap is consistent, and its last block is free, listed and ends at the new break. That block is the old last block when that one was free; otherwise it is a new block at the old break, appended to the block sequence. The list gains exactly that block, every listed block keeps its header, and every held block is kept. |
| Routines.ExtendHeap | mm.c:127-143 | The heap is consistent afterwards either way. Failure leaves everything as it was. Otherwise the break moves up by ALIGN(words * 4 + 8). The returned block is the old last block if that was free, else the old break; it is free, listed and ends at the new break. The list gains exactly that block, every listed block keeps its header, and no held block changes. |
| Routines.Occupy | mm.c:344-349 | Without a split, the whole block becomes allocated and leaves the list; the other entries keep their order. Every other listed block keeps its header, and every held block is kept. |
| Routines.OccupyFrame | mm.c:344-349 | Retagging bp, then removeBlock(bp), keeps every held block and keeps every other listed block listed with its header. |
| Routines.CarveTags | mm.c:333-339 | The split writes PACK(asize, 1) on bp and PACK(rest, 0) at bp + asize, and nothing outside the block. |
| Routines.Carve | mm.c:330-342 | With a split, the first asize bytes become allocated. The rest becomes a new free block at bp + asize, next in the block sequence, and it replaces bp on the list. Every other listed block keeps its header, and every held block is kept. |
| Routines.PlaceBlock | mm.c:326-350 | bp becomes allocated and the heap stays consistent. It has asize bytes when the rest is at least a minimum block; then the rest is a new free block after bp that replaces bp on the list. Otherwise bp keeps its whole size and just leaves the list. Every other listed block keeps its header, and every held block is kept. |
| MM.Max | mm.c:63 | MAX is one of its arguments and at least both. |
| MM.ExtendWords | mm.c:214-215 | The words passed to extend_heap cover at least CHUNKSIZE and at most MAX(asize, CHUNKSIZE) bytes; when asize is word-aligned, exactly MAX(asize, CHUNKSIZE). |
| MM.Growth | mm.c:129-133 | The heap growth when no block fits is MAX(asize, CHUNKSIZE) plus one double word. |
| MM.Grants | mm.c:208-217 | What placeBlock leaves for a request is what mm_malloc promises: an aligned block, allocated and unlisted, that holds the request and is less than a minimum block over the adjusted size. |
| MM.Reuse | mm.c:208-211 | Placing the request in the first fit grants it. Every held block is kept, and every other listed block stays listed with its header. |
| MM.Enlarge | mm.c:214-217 | With no fit, either the growth is refused and nothing changes, or the break moves up by Growth(asize). In that case the request is granted in the block extend_heap returns: the old last block when that was free, else the old break. Every held block is kept, and every other listed block stays listed with its header. |
| MM.Serve | mm.c:207-219 | NULL exactly when there is no fit and the heap cannot grow, and then nothing changes. Otherwise the block is the first fit, or, when there is none, the block extend_heap returned after the break moved up by Growth(asize). Every held block is kept, and every other listed block stays listed with its header. |
| MM.Allocate | mm.c:191-220 | (corrected, see Findings mm.c:204) NULL exactly for a zero or oversized request, or when no block fits and the heap cannot grow, and then nothing changes. Otherwise the request is granted in the first fit, or in the last block once the break moves up by Growth(asize). The heap stays consistent, every held block is kept, and every other listed block stays listed with its header. |
| MM.MergeBounds | mm.c:271-274 | mm_free's retagging leaves the bounds of the block it will merge into unchanged. |
| MM.FreedCovers | mm.c:265-276 | The merged free block contains the freed block, and that block lies in a listed free block. |
| MM.Freeing | mm.c:271-275 | What Unmark and Coalesce promise about the heap between them adds up to mm_free's Freed: the merged run is one listed free block in the run's place, and every other listed block stays listed with its header. |
| MM.Unmark | mm.c:271-274 | mm_free's two PUTs mark the block free, pending coalesce. The run coalesce will merge and the merged bounds stay as they were, every listed block keeps its header, and every other held block is kept. |
| MM.Release | mm.c:265-276 | After mm_free, one listed free block spans from the previous block (when that was free) to the end of the next block (when that was free). It takes the run's place in the block sequence and on the list, and every other listed block stays listed with its header. The heap is consistent and every other held block is kept. |
| MM.Dispose | mm.c:265-276 | mm_free by address: Release's promise holds for the block's index, so the freed block ends up inside a listed free block. The heap is consistent and every other held block is kept. |
| MM.Prologue | mm.c:108-111 | The padding, prologue and epilogue words make an empty, consistent heap with an empty free list. |
| MM.FirstChunk | mm.c:116-117 | mm_init's extend_heap(CHUNKSIZE / WSIZE) on the empty heap returns NULL exactly when the limit is below FIRST + INIT_GROWTH, and the heap then has no block. Otherwise the heap has one free, listed block of INIT_GROWTH bytes at FIRST. |
| MM.Setup | mm.c:103-121 | (corrected, see Findings mm.c:117) A failing first mem_sbrk sets the start pointer to -1 and returns -1. Otherwise the heap is consistent, and the result is 0 exactly when the first free block of ALIGN(CHUNKSIZE + 8) bytes fits. That block is then the only block and the only listed one; otherwise the heap has no block. |
| MM.InitStatusAsWritten | mm.c:117-118 | As written, mm_init fails only when extend_heap returns (void *) -1. |
| MM.InitMissesFailure | mm.c:117-118 | extend_heap returns NULL or an aligned address, so as written mm_init never reports the failure of its extension. |
| MM.InitStatus | mm.c:117-118 | The corrected test: failure exactly when extend_heap returns NULL. |
| MM.CopyLengthAsWritten | mm.c:249-253 | As written, the copy length is the smaller of the request and the old block's raw header word. |
| MM.CopyOverruns | mm.c:249-255 | For a request of at least the block size plus one, as written the copy is the block size plus one byte: 9 bytes longer than the payload. |
| MM.CopyOverrunsAt16 | mm.c:249-255 | A 16-byte block reallocated to 100 bytes copies 17 bytes from an 8-byte payload. |
| MM.CopyLength | mm.c:249-253 | The corrected copy length: the smaller of the request and the old payload. |
| MM.WordCount | mm.c:255 | The words a byte copy touches cover the length with less than one word to spare. |
| MM.WordsFit | mm.c:255 | A word-rounded copy length within an aligned block's payload still fits that payload. |
| MM.CopyWords | mm.c:255 | The memcpy: the destination words become the source words, and no other word changes. |
| MM.Scribble | mm.c:255 | Writing within an allocated block's payload keeps the heap consistent and every other block, and every listed block keeps its header. |
| MM.Transfer | mm.c:255 | realloc's memcpy puts the old block's words into the new block. The heap stays consistent, every other held block is kept, and every listed block keeps its header. |
| MM.CopyOut | mm.c:245-255 | After mm_malloc, the new block starts with the old block's first CopyLength bytes and is still granted. Every held block is kept, and every listed block keeps its header. |
| MM.StillGranted | mm.c:255-256 | Freeing the old block leaves the new block granted, with its copied words intact. |
| MM.Move | mm.c:245-258 | NULL exactly when mm_malloc refuses, and then nothing changes. Otherwise a new, different block holds the request and the old contents, and the old block ends up in a listed free block. Every other held block is kept, and every listed block other than the new block and the two neighbours of ptr stays listed with its header. |
| MM.Flank | mm.c:60-61 | A listed block that sits beside ptr in a later heap, where both kept their headers, sat beside ptr before: it is PREV_BLKP(ptr) or NEXT_BLKP(ptr). |
| MM.MoveFrame | mm.c:245-256 | Over mm_realloc's main path (mm_malloc, memcpy, mm_free), every listed block other than the new block and the two neighbours of ptr stays listed with its header. |
| MM.Resize | mm.c:225-259 | mm_realloc: a NULL ptr means mm_malloc, with its list frame. Size 0 frees ptr as mm_free does (Freed holds) and returns it, or NULL for NULL. Otherwise Move, with its frame on held and listed blocks. |
| MM.Allocator.constructor | mm.c:95-97 | Before mm_init there is no heap, the start pointer is 0 and the list is empty. |
| MM.Allocator.Init | mm.c:103-121 | (corrected, see Findings mm.c:117) mm_init on the object's fields, as Setup. |
| MM.Allocator.Malloc | mm.c:191-220 | (corrected, see Findings mm.c:204) mm_malloc on the object's fields, as Allocate. The heap stays valid and NULL means Refused, with nothing changed. Otherwise the block is the first fit, or the last block after growth. Every held block is kept, and every other listed block stays listed with its header. |
| MM.Allocator.Free | mm.c:265-276 | mm_free on the object's fields, as Dispose. The heap stays valid, Release's promise holds for ptr's index, ptr lies in a listed free block, and every other held block is kept. |
| MM.Allocator.Realloc | mm.c:225-259 | mm_realloc on the object's fields, as Resize, including its frame on listed blocks. |

## Left out

- mem_sbrk, from the memory library, is not part of this model. `Routines.MemSbrk` stands in for it. Its capacity `limit` (MAX_HEAP) is a parameter, and the new words are zero, where the library leaves them unspecified.
- The lazy `mm_init` call in `mm_free` (mm.c:267-269) is left out. A block the program holds exists only after a successful `mm_init`, so that branch is dead for the pointers the model admits.
- Invalid pointers passed to `mm_free` and `mm_realloc` (double frees, foreign pointers) are excluded by the requires clauses. The source does not check them, and their effect is undefined.
- MM.Setup and MM.Allocator.Init require a fresh, empty simulated heap. A second `mm_init` would run against a region that memlib has already grown.
- MM.CopyWords copies whole words: `memcpy` of n bytes is modelled as (n + 3) / 4 words. The bytes past n in the last word are copied too, which the payload bound keeps within the new block.
- MM.Move: the freed old block is described only as lying inside a listed free block (Covered). The exact bounds of that block are stated by MM.Release, relative to the heap mm_malloc left, which Move does not name. Its list frame leaves out the two address neighbours of ptr, which mm_free may merge.
- MM.Resize: on the main path it says what MM.Move says, with the same two gaps.
- MM.Allocator.Realloc: as MM.Resize, with the same two gaps.
- MM.Reuse: states that every other listed block stays listed, but not that the remainder of a split joins the list. Routines.PlaceBlock states that.
- MM.Enlarge: the same gap as MM.Reuse for the block it places in.
- MM.Serve: the same gap as MM.Reuse.
- MM.Allocate: the same gap as MM.Reuse.
- MM.Allocator.Malloc: the same gap as MM.Reuse.
- Routines.Coalesce: states which blocks are listed afterwards, not their order on the list. Routines.AddBlock states where one insertion goes.
- Routines.ExtendHeap: states which blocks are listed afterwards, not their order, as Routines.Coalesce.
- MM.Resize models `realloc(ptr, 0)` as written: it frees ptr and returns ptr itself.
- The team struct (mm.c:22-33) is left out. It is data about the authors.
- The header comment describes an implicit list, but the code keeps an explicit one. The model follows the code.
- Only the 32-bit build is modelled, with a 4-byte `size_t` and 4-byte pointers. The macros fix WSIZE at 4, which matches only that build.
- All routines work on the heap as a value (`seq` of words) that each call returns anew. Pointer aliasing between the heap and other memory of the process is not modelled.

## Findings

| source | as written | input that shows it | evidently intended | confidence | as-written member | corrected member |
|---|---|---|---|---|---|---|
| mm.c:204 | `ALIGN(size + SIZE_T_SIZE)` wraps in 32-bit `size_t` arithmetic | `mm_malloc(0xFFFFFFF8)` adjusts to a block size of 0 | refuse (NULL) requests whose block size does not fit a word | not executed | Codec.AdjustedSizeWraps | Codec.AdjustedSize |
| mm.c:249 | the copy length is read as the raw header word: block size plus the allocated bit, header and footer included | realloc of a 16-byte block (8-byte payload) to 100 bytes copies 17 bytes | copy min(size, old payload) | not executed | MM.CopyOverrunsAt16 | MM.CopyLength |
| mm.c:117 | mm_init compares extend_heap's result to `(void *) -1`, but extend_heap returns NULL on failure | a memory limit below 16 + 4104 bytes: extend_heap returns NULL and mm_init returns 0 | return -1 when extend_heap returns NULL | not executed | MM.InitMissesFailure | MM.InitStatus |
