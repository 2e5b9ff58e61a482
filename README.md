# Tanuki3DS core, modelled in Dafny

A model of four self-contained pieces of the Tanuki3DS emulator, with proofs
about them:

- **The vertex-shader JIT cache** (`shaderjit_get`, module `ShaderJit`). It has
  a fixed array of `VSH_MAX` slots. Each slot is keyed by the 64-bit hash of the
  shader instruction memory, and hash 0 marks an empty slot. The LRU list holds
  the slot indices. A request scans for a matching or empty slot and otherwise
  evicts the least recently used one. It then promotes the chosen slot and
  rebuilds the backend only when the slot's hash changes. The pure function
  `Lookup` specifies one request on a cache value. The class `ShaderCache`
  performs the request in place and is proved to compute `Lookup`.
- **The guest virtual-memory block map** (`src/memory.c`, module `Memory`). The
  C code keeps a circular doubly-linked list of page ranges `[startpg, endpg)`
  with perm and state, behind a sentinel at `[2^20, 2^20)`. Here the list is a
  sequence of blocks in list order, with the sentinel one past its end.
  - `Insert` follows `insert_vmblock` step by step: find, trim, split, merge
    right, merge left.
  - The class `AddressSpace` runs the same loops on its `blocks` field:
    `insert_vmblock`, `x3ds_vmquery`, `x3ds_vmalloc` and `used_memory`.
  - The lemmas prove these facts about the result:
    - it still covers the address space in order;
    - every page of the new range carries the new perm and state, and every
      other page keeps its own;
    - neighbouring blocks keep distinct attributes;
    - a lookup never returns NULL.
- **The container macros of `src/types.h`** (module `Types`).
  - `FIFO(T, N)` is a class over an array of `2^k` cells. Its head, tail and
    size are u32 counters, and the C code's `& (N - 1)` masking is computed
    bitwise. Push and pop are proved first-in first-out against the ring's
    window of cells. The invariant `(head + size) mod N == tail` is proved to
    survive the u32 wrap-around.
  - `Vector(T)` is a class whose push grows the capacity from 0 to 8 and then
    doubles it.
- **The ETC1 texture expander of `src/pica/etc1.c`** (module `Etc1`), as this
  revision has it. Differential mode is forced off and the intensity modifier is
  zeroed. Every visited pixel is overwritten with a debug colour: red for the
  first subblock and blue for the second.
  - The byte swap is a function on `bv64`, proved to reverse the bytes and to be
    an involution.
  - `DecompressBlock` writes into the caller's array and is proved to produce
    `BlockImage`, a fold of the two loops' writes. Lemmas then say which bytes
    of the 4x4 tile end red, which end blue and which are left alone.
  - `DecompressTexture` allocates the buffer and tiles the blocks in the C
    order: `tx` is the outer loop and `ty` the inner one. It is proved to
    produce `Decoded`, whose bytes `DecodedTile` states block by block.

Supporting modules: `Bits` (powers of two, a bitwise AND on naturals, and the
mask/remainder facts behind `x & (2^k - 1)` and `x & ~(2^12 - 1)`), and
`Wrappers` (`Option`).

Some points about the JIT cache worth knowing:
- Eviction takes the head of the LRU list. On that path no slot is empty.
- `Get` returns the backend of the chosen slot, from which the C code fetches
  the native code.
- The zero-initialised cache has distinct stored hashes and its empty slots
  last (`EmptyHasSlotInvariants`), and every request with a non-zero hash keeps
  both (`LookupKeepsSlotInvariants`). So while every request so far had a
  non-zero hash, a hash already in the cache is a hit and is not rebuilt
  (`LookupHits`).
- A request for hash 0 on a full cache rebuilds a slot that then looks empty
  (`ZeroHashOnFullCacheRebuilds`). A later request for a hash already stored
  elsewhere can land in that slot, so the same hash ends up in two slots
  (`ZeroHashLetsHashRepeat`).

## Model

| member | source | states |
|---|---|---|
| ShaderJit.FirstFit | src/pica/shaderjit/shaderjit.c:11-16 | the scan result is the lowest index at or after `from` whose slot holds h or is empty; None exactly when no slot fits |
| ShaderJit.LruUse | src/pica/shaderjit/shaderjit.c:20 | LRU_use: the promoted index becomes the last (most recent) entry, preceded by the list with that index taken out |
| ShaderJit.LruEject | src/pica/shaderjit/shaderjit.c:18 | LRU_eject: the head of the recency list, the least recently used slot; its use on a full scan is stated by Choose and Lookup |
| ShaderJit.LruUseKeepsOrder | src/pica/shaderjit/shaderjit.c:20 | promoting a slot keeps the recency list a permutation of the slot indices |
| ShaderJit.Choose | src/pica/shaderjit/shaderjit.c:10-19 | the chosen slot is the first fitting one when some slot fits, else the least recently used one |
| ShaderJit.Install | src/pica/shaderjit/shaderjit.c:21-25 | after the install the slot holds h; when it already held h nothing changes; otherwise it owns a backend with the next fresh id; other slots are untouched |
| ShaderJit.Lookup | src/pica/shaderjit/shaderjit.c:8-27 | the chosen slot ends holding h; scan order wins, and eviction of the LRU slot happens only when nothing fits; the chosen slot is promoted on every path; rebuild iff the hash differed, releasing the old backend and installing one no slot owned; other slots are unchanged; the cache invariant survives |
| ShaderJit.InstallKeepsOwned | src/pica/shaderjit/shaderjit.c:21-25 | a rebuilt backend is fresh: no two slots share a backend and no slot owns the new id |
| ShaderJit.InstallKeepsSlotInvariants | src/pica/shaderjit/shaderjit.c:11-25 | storing a non-zero hash in the slot the scan chose keeps stored non-zero hashes distinct and empty slots a suffix |
| ShaderJit.LookupKeepsSlotInvariants | src/pica/shaderjit/shaderjit.c:11-25 | a request for a non-zero hash keeps stored hashes distinct and empty slots a suffix |
| ShaderJit.EmptyHasSlotInvariants | src/pica/shaderjit/shaderjit.c:11-16 | the zero-initialised cache has its non-zero hashes distinct and its empty slots last, the base case for LookupKeepsSlotInvariants |
| ShaderJit.LookupHits | src/pica/shaderjit/shaderjit.c:11-25 | while stored hashes are distinct and empty slots come last, a request for a non-zero hash some slot holds chooses that slot and rebuilds nothing |
| ShaderJit.ZeroHashTakesFirstEmpty | src/pica/shaderjit/shaderjit.c:12-21 | a request for hash 0 takes the first empty slot and rebuilds nothing |
| ShaderJit.ZeroHashOnFullCacheRebuilds | src/pica/shaderjit/shaderjit.c:11-25 | a request for hash 0 on a full cache evicts the LRU slot and rebuilds it, leaving hash 0 in it |
| ShaderJit.TwoSlotScenario | src/pica/shaderjit/shaderjit.c:8-27 | with two slots, requests A, B, A, C rebuild on A, B and C but not on the second A, and C evicts B, leaving A and C |
| ShaderJit.ZeroHashLetsHashRepeat | src/pica/shaderjit/shaderjit.c:11-25 | with two slots, requests A, B, 0, B evict A for hash 0, and the second B then takes that slot although slot 1 holds B, leaving B in both slots |
| ShaderJit.LookupKeepsNoneFreed | src/pica/shaderjit/shaderjit.c:21-25 | the backend freed on a rebuild is not owned by any slot afterwards, so no slot ever refers to freed code |
| ShaderJit.ShaderCache.Scan | src/pica/shaderjit/shaderjit.c:10-19 | the scan loop with its LRU fallback returns the slot Choose specifies |
| ShaderJit.ShaderCache.Promote | src/pica/shaderjit/shaderjit.c:21-25 | the in-place hash and backend update performs Install and records the freed backend |
| ShaderJit.ShaderCache.Get | src/pica/shaderjit/shaderjit.c:8-27 | the in-place request leaves exactly the state Lookup describes and returns the chosen slot's backend |
| Memory.InitialBlocks | src/memory.c:37-45 | the initial list covers the address space in one free block with perm 0, and is coalesced |
| Memory.AddressSpace.constructor | src/memory.c:26-46 | x3ds_memory_init leaves the single initial block |
| Memory.Find | src/memory.c:151-158 | the found block holds the page and no earlier block does; None exactly when no block holds it |
| Memory.ChainCovers | src/memory.c:151-158 | a list chained from lo to hi holds a page iff the page is in [lo, hi) |
| Memory.QueryNeverNull | src/memory.c:151-158 | in a well-formed list every page of a 32-bit address is found |
| Memory.TrimRight | src/memory.c:71-81 | the removal loop of insert_vmblock as a function; its effect is stated by TrimShape, TrimKeepsCoalesced and TrimToEmpty |
| Memory.Around | src/memory.c:82-102 | the split or shortening of the block holding n's start; its effect is stated by AroundShape and AroundKeepsCoalesced |
| Memory.Cut | src/memory.c:59-102 | the search, trim and split of insert_vmblock, giving the blocks before n and after n; stated by CutShape and CutKeepsCoalesced |
| Memory.MergeNext | src/memory.c:103-108 | the merge of n with the following block of equal perm and state, never the sentinel; stated by MergeNextKeeps |
| Memory.MergePrev | src/memory.c:109-114 | the merge of the preceding block of equal perm and state over n; stated by MergePrevKeeps |
| Memory.Insert | src/memory.c:59-115 | insert_vmblock as a function of the block list; InsertOverlays, InsertKeepsWf and InsertKeepsCoalesced state what it does |
| Memory.FirstHolding | src/memory.c:60-64 | the search loop stops at the first block holding the page, or at the sentinel |
| Memory.TrimLoop | src/memory.c:71-81 | the removal loop computes TrimRight |
| Memory.TrimShape | src/memory.c:71-81 | trimming leaves a chain that starts at n's end and keeps the attributes of every page from n's end on |
| Memory.TrimToEmpty | src/memory.c:71-81 | a block ending exactly at n's end is trimmed to an empty block, which stays in the list |
| Memory.CutShape | src/memory.c:59-102 | before merging, the left part reaches n's start and the right part starts at n's end, and both keep their pages' attributes |
| Memory.AroundShape | src/memory.c:82-102 | splitting or shortening the block holding n's start keeps the pages outside n as they were |
| Memory.MergeKeepsAttrs | src/memory.c:103-114 | joining two adjacent blocks of equal perm and state keeps the chain and every page's attributes |
| Memory.MergeNextKeeps | src/memory.c:103-108 | merging n with the block after it keeps the chain and every page's attributes |
| Memory.MergePrevKeeps | src/memory.c:109-114 | merging the block before n with n keeps the chain and every page's attributes |
| Memory.InsertAttrsAt | src/memory.c:59-115 | after an insert, page pg has n's perm and state if n covers it, else its old ones |
| Memory.InsertKeepsWf | src/memory.c:59-115 | an insert keeps the list sorted, starting at 0, contiguous and ending at 2^20 |
| Memory.InsertOverlays | src/memory.c:59-115 | an insert keeps the list well formed, gives n's pages n's attributes and leaves every other page's as it was |
| Memory.CutKeepsCoalesced | src/memory.c:59-102 | trimming and splitting do not create equal-attribute neighbours |
| Memory.InsertKeepsCoalesced | src/memory.c:59-115 | the merges keep neighbouring blocks distinct in perm or state, except at an empty block left at the top |
| Memory.AddressSpace.InsertVMBlock | src/memory.c:59-115 | the in-place insert computes Insert and keeps the list well formed |
| Memory.AddressSpace.VMQuery | src/memory.c:151-158 | returns the first block holding the page of addr, or None |
| Memory.PageFloor | src/memory.c:128 | the result is the page boundary at or below x |
| Memory.PageCeil | src/memory.c:129 | the result is a page multiple below 2^32; it is 0 iff size is 0 or the u32 addition wraps; otherwise it is the least page multiple at or above size |
| Memory.PageMask | src/memory.c:128 | the u32 mask ~(PAGE_SIZE - 1) rounds down to the page boundary |
| Memory.AllocBlock | src/memory.c:127-136 | no block iff the rounded size is 0; otherwise a non-empty block in the address space with the requested perm and state, spanning exactly the rounded byte range |
| Memory.AllocComputes | src/memory.c:128-134 | x3ds_vmalloc's masks and shifts compute PageFloor, PageCeil and AllocBlock's block |
| Memory.AlignedAllocCovers | src/memory.c:127-136 | with an aligned base, every requested byte lies in the inserted block |
| Memory.UnalignedAllocMissesEnd | src/memory.c:127-136 | rounding base and size independently can leave the last requested byte outside the block |
| Memory.AddressSpace.VMAlloc | src/memory.c:127-149 | nothing changes when the rounded size is 0; otherwise the block is inserted and used_memory grows by the rounded size |
| Bits.MaskIsMod | src/types.h:50 | x & (2^k - 1) is x mod 2^k |
| Bits.MaskClearsLow | src/memory.c:128-129 | x & (2^n - 2^k) clears the k low bits of x mod 2^n |
| Types.WindowPush | src/types.h:49-50 | writing after the last of fewer than N elements appends to the window |
| Types.WindowPop | src/types.h:51-52 | advancing the head drops the oldest element of the window |
| Types.WrapKeepsMod | src/types.h:42-44 | the u32 wrap of a counter does not change it modulo the power-of-two ring size |
| Types.PushStep | src/types.h:49-50 | the masked tail is the next cell; the counter invariant survives the u32 increment; below capacity the value joins the end |
| Types.PopStep | src/types.h:51-52 | the masked head is the next cell; the counter invariant survives the u32 decrement; a non-empty ring yields its oldest element and keeps the rest |
| Types.NextIndex | src/types.h:54-56 | the foreach step (i + 1) & (N - 1) moves to the next cell around the ring |
| Types.Fifo.constructor | src/types.h:39-45 | a zeroed FIFO of 2^k cells is empty with all counters 0 |
| Types.Fifo.Push | src/types.h:49-50 | stores v in the tail cell, advances tail modulo N and size modulo 2^32, and below capacity appends v to the contents |
| Types.Fifo.Pop | src/types.h:51-52 | returns the head cell, advances head modulo N and counts size down modulo 2^32; when non-empty returns the oldest element and removes it |
| Types.Fifo.Peek | src/types.h:53 | when non-empty, the value the next pop returns |
| Types.Fifo.Foreach | src/types.h:54-56 | visits exactly size cell indices, from head onward, wrapping modulo N, in contents order |
| Types.Fifo.Clear | src/types.h:57 | zeroes cell 0 and the three counters, leaving the FIFO empty |
| Types.Grow | src/types.h:73-74 | the new capacity exceeds the old one and stays 8 times a power of two |
| Types.CapAfterBounds | src/types.h:71-79 | after n pushes the capacity holds the n elements, is 8 doubled some number of times, and is below 2n once past 8 |
| Types.Vec.constructor | src/types.h:66 | Vec_init: no storage, no elements |
| Types.Vec.Push | src/types.h:71-79 | returns the old size, appends e and keeps earlier elements, and grows the capacity only when full |
| Etc1.ByteSwap | src/pica/etc1.c:82-84 | the three masked swaps of each block; ByteSwapReverses and ByteSwapInvolution state what they do |
| Etc1.ByteSwapReverses | src/pica/etc1.c:82-84 | byte k of the swapped block is byte 7 - k of the block |
| Etc1.ByteSwapInvolution | src/pica/etc1.c:82-84 | swapping twice gives the block back |
| Etc1.TexelIndex | src/pica/etc1.c:42-43 | the index is below 4; its low bit is the pixel's idxlo bit and its high bit the idxhi bit |
| Etc1.Modifier | src/pica/etc1.c:3-8 | the table lookup is in bounds for every codeword and index; indices 0 and 1 darken and 2 and 3 lighten by mirrored amounts |
| Etc1.PixelOf | src/pica/etc1.c:33-41 | every visited pixel has x < 4, y < 4 and bit index y + 4x < 16, and lies in its subblock |
| Etc1.PixelPeriod | src/pica/etc1.c:32-40 | iterations i and i + 4 visit the same pixel |
| Etc1.VisitedPixels | src/pica/etc1.c:32-61 | a loop visits exactly the pixels of its subblock whose x and y have equal parity |
| Etc1.SubblocksDisjoint | src/pica/etc1.c:32-61 | the two loops never visit the same pixel |
| Etc1.Off | src/pica/etc1.c:46-51 | every byte written for a pixel of the block lies in the block's span of the buffer |
| Etc1.OtherPixelMisses | src/pica/etc1.c:46-51 | in an image at least 4 pixels wide, the bytes of two distinct block pixels do not overlap |
| Etc1.Store | src/pica/etc1.c:46-48 | three stores paint the pixel |
| Etc1.PaintTwice | src/pica/etc1.c:46-51 | the debug colour stores replace the colour stores |
| Etc1.Visit | src/pica/etc1.c:32-52 | one loop iteration leaves the visited pixel in its subblock's debug colour and changes nothing else |
| Etc1.Loop | src/pica/etc1.c:32-73 | the buffer after the first n iterations of the loop for one subblock, keeping the buffer's length; LoopPaints and LoopKeeps state its contents |
| Etc1.BlockImage | src/pica/etc1.c:10-74 | the buffer after both loops of etc1_decompress_block, keeping its length; BlockShade and BlockKeeps state its contents |
| Etc1.LoopPaints | src/pica/etc1.c:32-52 | every pixel visited by the first n iterations holds the loop's colour |
| Etc1.LoopKeeps | src/pica/etc1.c:32-52 | bytes outside the pixels visited so far are untouched |
| Etc1.LoopHits | src/pica/etc1.c:53-73 | after the loop, each of its pixels holds its colour |
| Etc1.LoopMisses | src/pica/etc1.c:53-73 | after the loop, pixels it does not visit are unchanged |
| Etc1.BlockShade | src/pica/etc1.c:10-74 | each tile byte ends red where the first loop writes, blue where the second does, and unchanged elsewhere |
| Etc1.BlockKeeps | src/pica/etc1.c:10-74 | bytes outside the 4x4 tile are untouched |
| Etc1.DecompressBlock | src/pica/etc1.c:10-74 | the buffer after the block is BlockImage of the buffer before it |
| Etc1.SrcIndex | src/pica/etc1.c:81 | the source index of block (tx, ty) is inside the (w/4)(h/4) blocks |
| Etc1.SrcBlock | src/pica/etc1.c:81 | block (a, b) is source word b * (w / 4) + a |
| Etc1.BlockInTexture | src/pica/etc1.c:77-85 | every byte of block (tx, ty)'s tile is inside the 3wh buffer |
| Etc1.TileOffset | src/pica/etc1.c:85 | pixel (x, y) of the block at dst + 12(ty w + tx) is pixel (4tx + x, 4ty + y) of the image |
| Etc1.Locate | src/pica/etc1.c:85 | a byte's block, pixel and channel are recovered from its index |
| Etc1.Reassemble | src/pica/etc1.c:85 | every byte index is some block's pixel's channel |
| Etc1.TileMisses | src/pica/etc1.c:85 | a block's writes do not touch another block's bytes |
| Etc1.TextureStep | src/pica/etc1.c:79-86 | decoding block (tx, ty) adds exactly that block's tile to the partial image |
| Etc1.DecodeTile | src/pica/etc1.c:81-85 | one inner iteration reads, byte-swaps and decodes block (tx, ty) into its tile |
| Etc1.Decoded | src/pica/etc1.c:76-90 | the texture etc1_decompress_texture produces, byte by byte; DecodedTile states it per block |
| Etc1.DecodedTile | src/pica/etc1.c:79-85 | the decoded texture holds, at row 4b + y and column 4a + x, the debug shade that the flip bit of byte-swapped source word b * (w / 4) + a selects |
| Etc1.DecompressTexture | src/pica/etc1.c:76-90 | returns a fresh buffer of 3wh bytes equal to the decoded texture: in the tile of each whole block, the pixels the two loops write hold their debug colour; every other byte, in those tiles or outside them, is 0 |

## Left out

- The XXH3 hash of the instruction memory is a function parameter of `Get`. The backend calls (`shaderjit_backend_free`, `_init`, `_get_code`) are modelled as releasing an id into a ghost `freed` set and issuing a fresh id. `Get` returns the chosen slot's backend instead of native code.
- `LRU_use`, `LRU_eject` and `VSH_MAX` are defined in `gpu.h`, which is not part of this model. They are modelled as moving an index to the most-recent end of a recency list, taking its head, and as the capacity given to the constructor.
- `x3ds_memory_init`'s `mmap` of the guest space, the SIGSEGV handler, `x3ds_memory_destroy`, the `mmap` in `x3ds_vmalloc`, and the logging and `print_vmblocks` output are left out because they are I/O. The constants `PAGE_SIZE` and `MEMST_FREE` come from headers that are not part of this model. They are taken as 0x1000 and 0.
- The block list is modelled as a sequence, not as linked nodes with `prev` and `next` pointers and `malloc`/`free`. Node identity and the pointer rewiring are therefore not captured, only the resulting order of blocks.
- Memory.AddressSpace.VMAlloc: requires the rounded range to end below 2^32. The C code computes `(base + size) >> 12` in u32 arithmetic, so a range reaching the top of the address space gets an end page that wraps below its start page, and `insert_vmblock` is not defined for such a block.
- Memory.AddressSpace.InsertVMBlock: requires `startpg < endpg <= 2^20` and a well-formed list, which is what `x3ds_vmalloc` supplies.
- Memory.AddressSpace.constructor: `used_memory` is not set by `x3ds_memory_init`, so the constructor takes it as a parameter. `used_memory` is an unbounded counter, and its C integer width is not modelled.
- Types.Fifo.Push: states first-in first-out order only while size is below N. A push into a full ring overwrites the oldest element, and the C code does not guard against that.
- Types.Fifo.constructor: `FIFO_MAX` is taken as a power of two, `2^logMax` with `logMax <= 31`, which the masking in the macros assumes.
- Types.Vec.Push: `realloc` leaves the new cells beyond the old contents indeterminate. The model fills them with the pushed value, and `Elements()` never reads them. Allocation failure is not modelled.
- `Vec_assn` and `Vec_free` are left out: they copy or release a pointer and have no state of their own to specify.
- `etc1.h`, which gives the bit layout of `etc1block`, is not part of this model. The unpacking of a swapped block into its fields is the parameter `layout` of `DecompressTexture`.
- The differential-mode branch of `etc1_decompress_block` is dead, because `blk.diff` is cleared just before the test, so it is not modelled. The modifier lookup is performed (in bounds) and then discarded, as in the C code.
- Etc1.DecompressTexture: requires `3 * width * height < 2^32`, so that the u32 products in the allocation and the block offsets do not wrap. `malloc` returns uninitialised memory and may fail. The model starts from a zeroed buffer and does not model failure. So every byte the decoder never writes reads as 0 here, where C leaves it uninitialised. These bytes are the ones outside the tiles of whole blocks, and the 8 pixels of every tile whose x and y differ in parity, which neither loop writes.
- Etc1.DecompressTexture: the source words are a sequence of at least `(width / 4) * (height / 4)` blocks, which the caller guarantees in the C code.
