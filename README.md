# zpp allocator: a verified model of its block engine

`zpp_allocator.h` is a first-fit arena allocator. A caller hands it a byte buffer. The buffer is
trimmed to its first address aligned to `alignof(std::max_align_t)` and split into blocks. Each
block starts with a header: `m_next` and `m_prev`, which link every block in address order (the
full list), and `m_size`, the block's total size with its low bit used as the "allocated" flag.
A free block carries two more links, `m_next_free` and `m_prev_free`. These chain the free blocks
in address order (the free list), with `m_first_free` at its head.

- `allocate` walks the free list for the first block whose size holds the request plus the
  header, rounded up to the alignment. It splits off the rest when the rest can hold a free node.
- `deallocate` walks the full list backwards to the nearest free block, links the released block
  after it on the free list (or at the head), and merges it with free-list neighbours that touch
  it in memory.
- `m_allocated` counts the bytes held by allocated blocks.

The model has these modules:

- `Layout`: the constants for an LP64 target (`A = 16`, header `H = 32`, node `N = 48`), the
  `alignment` rounding, the request footprint in exact and in `std::size_t` arithmetic, and the
  packed size word (`size()`, `is_free()`, `set_free()`, `set_allocated()`, `data()`,
  `from_data()`, `data_size()`).
- `Blocks`: the abstract view of an arena as a sequence of `(start, size, free)` blocks. It holds
  the invariants the engine keeps:
  - the blocks tile the arena, each at least a node;
  - sizes are even and starts aligned;
  - no two neighbours are both free;
  - the free list is the free starts in address order;
  - `m_allocated` is the sum of allocated sizes.
  It also holds `FirstFit`, `Carve` (what `allocate` does to the view) and `Release` (what
  `deallocate` does to it), with the lemmas that both keep the invariants and that `Release`
  undoes `Carve`.
- `Links`: null-terminated doubly linked lists stored as two maps from address to `Ptr`, with the
  splice and unlink lemmas the node operations need.
- `Views` and `Ranks`: the link between the engine's maps and the abstract view, and the position
  ("rank") of a block on the free list.
- `Engine`: `class List`, the `list` engine. Its fields are the five per-header maps (`next`,
  `prev`, `size`, `nextFree`, `prevFree`), `firstFree`, `bytesAllocated` and `first`, with ghost
  sequences for the order of both lists. Every node operation (`append_to_list`, `split`, `merge`,
  and the rest) is a method that rewrites these maps in place. `allocate` and `deallocate` are
  proved against `Carve` and `Release` on the view.
- `ByteAllocator`: `class Allocator`, the `allocator<std::byte>` front end, built on `List`.

Addresses are natural numbers and a null pointer is `Null`. Methods that act on a node take the
node's position in the lists as ghost parameters; nothing at run time depends on them.

## Model

| member | source | states |
|---|---|---|
| `Layout.Alignment` | zpp_allocator.h:255-261 | The padding is less than `A` and rounds the size up to a multiple of `A`. |
| `Layout.AlignmentIsLeast` | zpp_allocator.h:255-261 | Any padding that reaches a multiple of `A` is at least `alignment`, so the rounding is the least one. |
| `Layout.AlignmentAsWritten` | zpp_allocator.h:255-261 | `alignment` in `std::size_t` arithmetic stays within `std::size_t`, and equals the exact padding whenever `size + A - 1` does not wrap. |
| `Layout.FootprintAsWritten` | zpp_allocator.h:347-351 | The footprint `allocate` computes, in wrapping arithmetic. For every request up to `MaxRequest` it is a multiple of `A` between `request + H` and `request + H + A`. |
| `Layout.FootprintAsWrittenTooSmall` | zpp_allocator.h:347-351 | For requests that do not wrap, the as-written footprint is smaller than a node exactly when the request is 0. |
| `Layout.FootprintAsWrittenWraps` | zpp_allocator.h:347-351 | Every request past `MaxRequest` gets a footprint of at most `H` bytes, less than the request itself. |
| `Layout.Footprint` | zpp_allocator.h:347-351 | The corrected footprint is a multiple of `A`, holds a node and the header plus request, and exceeds the next multiple of `A` only to reach `N`. It fits in `std::size_t` exactly when the request is at most `MaxRequest`. |
| `Layout.FootprintAgrees` | zpp_allocator.h:347-351 | For every request from 1 to `MaxRequest`, the as-written footprint equals the corrected one. |
| `Layout.AlignedEven` | zpp_allocator.h:240-253 | An aligned size is even, so it leaves the flag bit clear. |
| `Layout.PackedWord` | zpp_allocator.h:240-253 | `size()` masks the flag: it is even and within one of the word. `set_free` and `set_allocated` set the flag and keep the size. A word is free exactly when it equals its size. |
| `Layout.FreedRest` | zpp_allocator.h:201-212 | Cutting an aligned footprint from a free word leaves a free word, which `set_free` does not change. |
| `Layout.Data` | zpp_allocator.h:283-287 | The payload of an aligned header is aligned, because the header size is a multiple of `A`. |
| `Layout.FromData` | zpp_allocator.h:299-309 | `from_data` inverts `data`: `data(from_data(p)) == p`. |
| `Layout.DataSize` | zpp_allocator.h:294-297 | The payload capacity plus the header never exceeds the word. |
| `Blocks.FirstFit` | zpp_allocator.h:353-383 | The index of the first free block, in address order, holding the footprint; no earlier free block holds it; `|v|` when none does. |
| `Blocks.CarvedBlock` | zpp_allocator.h:361-380 | After `Carve`, the block at the chosen index starts where the free block did and is allocated. It holds at least the footprint, and more only when the rest could not hold a node. The blocks before it are unchanged. |
| `Blocks.CarveTiles` | zpp_allocator.h:201-212 | Carving keeps the blocks tiling the arena, each at least a node. |
| `Blocks.CarveEven` | zpp_allocator.h:201-212 | Carving an even footprint keeps every size even. |
| `Blocks.CarveAligned` | zpp_allocator.h:201-212 | Carving an aligned footprint keeps every start aligned. |
| `Blocks.CarveCoalesced` | zpp_allocator.h:201-212 | Carving keeps "no two neighbours free": the remainder's successor was not free. |
| `Blocks.CarveAllocated` | zpp_allocator.h:375 | Carving adds the taken size to the allocated bytes. |
| `Blocks.CarveFreeStarts` | zpp_allocator.h:361-375 | The free starts lose the block's start and gain the remainder's start, in its place, when the block splits. |
| `Blocks.ReleaseUndoesCarve` | zpp_allocator.h:386-413 | Releasing a block just carved from a free block of a coalesced view gives the original view back. |
| `Blocks.ReleaseTiles` | zpp_allocator.h:214-238 | Release with merging keeps the tiling. |
| `Blocks.ReleaseEven` | zpp_allocator.h:214-224 | Release keeps every size even. |
| `Blocks.ReleaseAligned` | zpp_allocator.h:214-238 | Release keeps every start aligned. |
| `Blocks.ReleaseCoalesced` | zpp_allocator.h:226-238 | Release merges with both free neighbours, so no two neighbours are free afterwards. |
| `Blocks.ReleaseAllocated` | zpp_allocator.h:394 | Release takes exactly the released block's size off the allocated bytes. |
| `Blocks.ReleaseFreeStarts` | zpp_allocator.h:397-412 | The free starts after release are those before and after the merged range, with the merged block's start between them. |
| `Blocks.Ordered` | zpp_allocator.h:436-443 | In a tiling every block ends at or before every later block starts, and all blocks lie within the arena. |
| `Blocks.Disjoint` | zpp_allocator.h:436-443 | Two distinct blocks of a tiling never overlap. |
| `Blocks.FreeStartsIncrease` | zpp_allocator.h:150-172 | The free starts of a tiling are strictly increasing: the free list is in address order. |
| `Blocks.TotalOfTiling` | zpp_allocator.h:469-472 | The block sizes of a tiling add up to the arena size. |
| `Blocks.Covers` | zpp_allocator.h:459-462 | Every address of the arena lies in some block. |
| `Blocks.AllocatedBound` | zpp_allocator.h:464-467 | The allocated bytes never exceed the arena. |
| `Blocks.NothingAllocated` | zpp_allocator.h:464-467 | The allocated bytes are 0 exactly when every block is free. |
| `Blocks.AllFreeIsOneBlock` | zpp_allocator.h:386-413 | Once nothing is allocated, a coalesced tiling is one free block spanning the arena. |
| `Ranks.RankStart` | zpp_allocator.h:353 | A free block sits on the free list at its rank, the number of free blocks before it. |
| `Ranks.NotListed` | zpp_allocator.h:386-413 | An allocated block's start is not on the free list. |
| `Ranks.NextFreeAbuts` | zpp_allocator.h:226-230 | The free-list successor of a position touches a block in memory exactly when the block's address successor is free. Testing the free-list neighbour is enough. |
| `Ranks.PrevFreeAbuts` | zpp_allocator.h:232-237 | The nearest free block before a block touches it exactly when the block's address predecessor is free. |
| `Ranks.FirstFitAt` | zpp_allocator.h:353-357 | The first free-list entry whose size holds the footprint is the first fit of the view. |
| `Ranks.FirstFitNone` | zpp_allocator.h:383 | When no free block holds the footprint, there is no first fit. |
| `Ranks.CarveFreeList` | zpp_allocator.h:361-372 | The free list after allocation is the old one, minus the chosen block and plus the remainder after it when the block splits. This is the free-starts filter of `Carve`. |
| `Ranks.ReleaseFreeList` | zpp_allocator.h:397-412 | Inserting the released block at its rank, then joining it with the neighbours it merges with, gives the free starts of `Release`. |
| `Views.ReleaseView` | zpp_allocator.h:386-413 | The maps after freeing the word and merging the joined neighbours describe `Release` of the view. |
| `Engine.SplitFresh` | zpp_allocator.h:204 | The remainder's header address is on neither list. |
| `Engine.SplitNoMerge` | zpp_allocator.h:206 | The merge that `append_to_freelist` runs inside `split` finds nothing: the next free block does not start where the split block ends. |
| `Engine.SearchFound` | zpp_allocator.h:353-357 | When the free-list walk stops at its `j`-th entry, that entry is the first fit of the view. |
| `Engine.SearchExhausted` | zpp_allocator.h:353-383 | When the walk runs off the free list, no block fits. |
| `Engine.CarveLayout` | zpp_allocator.h:345-383 | Carving keeps tiling, even sizes, alignment and coalescing, and adds the carved size to the allocated bytes. |
| `Engine.TakeSplitArranged` | zpp_allocator.h:361-375 | After a split, unlink, head update and count, the maps satisfy the engine invariant and describe `Carve` of the view. |
| `Engine.TakeWholeArranged` | zpp_allocator.h:366-375 | After unlinking a block that is not split, the maps satisfy the engine invariant and describe `Carve` of the view. |
| `Engine.ReleaseNextFlag` | zpp_allocator.h:226-230 | After the released block is inserted at its rank, `merge`'s test on the stored words holds exactly when the address successor is free. |
| `Engine.ReleasePrevFlag` | zpp_allocator.h:232-237 | The same for the free-list predecessor and the address predecessor. |
| `Engine.ReleaseArranged` | zpp_allocator.h:386-413 | The state `deallocate` leaves, by link, merge, head update and count, satisfies the engine invariant and describes `Release` of the view. |
| `Engine.ReleaseLayout` | zpp_allocator.h:386-413 | Release keeps the layout invariants and keeps the allocated count non-negative. |
| `Engine.ReleaseAlone` | zpp_allocator.h:406-411 | With an empty free list, the released block merges with nothing and takes the head position. |
| `Engine.FlaggedFreeHead` | zpp_allocator.h:406-412 | The as-written empty-list state is not a valid engine state: the single free-list entry is still flagged allocated. |
| `Engine.List.constructor` | zpp_allocator.h:319-323 | The list is one free node over the whole arena, with nothing allocated. |
| `Engine.List.SetFree` | zpp_allocator.h:245-248 | Only the node's word changes: its flag is cleared and its size is kept. |
| `Engine.List.SetAllocated` | zpp_allocator.h:250-253 | Only the node's word changes: its flag is set and its size is kept. |
| `Engine.List.AppendToList` | zpp_allocator.h:124-133 | `p` is spliced after `n` on the full list. The list stays well linked and distinct; the free list and sizes are unchanged. |
| `Engine.List.PrependToList` | zpp_allocator.h:140-148 | `p` is spliced before `n` on the full list, which stays well linked. |
| `Engine.List.UnlinkFromList` | zpp_allocator.h:174-185 | `n`'s neighbours are linked to each other. `n` leaves the full list, which stays well linked. |
| `Engine.List.UnlinkFromFreelist` | zpp_allocator.h:187-199 | `n` leaves the free list, its free neighbours are linked to each other, and `n` is flagged allocated. |
| `Engine.List.MergeNext` | zpp_allocator.h:214-224 | `n` absorbs its successor's word. The successor leaves both lists, which stay well linked. |
| `Engine.List.Merge` | zpp_allocator.h:226-238 | Exactly the free-list neighbours that touch `n` in memory are merged. The words, both lists and the free list are joined accordingly. |
| `Engine.List.InsertFreeAfter` | zpp_allocator.h:150-158 | `p` is linked after `n` on the free list and flagged free. |
| `Engine.List.InsertFreeBefore` | zpp_allocator.h:162-170 | `p` is linked before `n` on the free list and flagged free. |
| `Engine.List.LinkFreeAfter` | zpp_allocator.h:152-157 | The free links are spliced after `n`; nothing else changes. |
| `Engine.List.LinkFreeBefore` | zpp_allocator.h:164-169 | The free links are spliced before `n`; nothing else changes. |
| `Engine.List.AppendToFreelist` | zpp_allocator.h:150-160 | `append_to_freelist`: link after `n`, flag free, merge. The new state is that join of the inserted list. |
| `Engine.List.PrependToFreelist` | zpp_allocator.h:162-172 | `prepend_to_freelist`: link before `n`, flag free, merge. |
| `Engine.List.NewNode` | zpp_allocator.h:63-66 | A node holding the given word, with null links on both lists, is placed at an address on neither list. |
| `Engine.List.LinkRemainder` | zpp_allocator.h:204-206 | The remainder node is created and linked after `n` on both lists, and no merge happens. |
| `Engine.List.Split` | zpp_allocator.h:201-212 | A free node of the rest of the word is placed `fp` bytes in and linked right after `n` on both lists, and `n` shrinks to `fp`. |
| `Engine.List.Unhook` | zpp_allocator.h:366-375 | Unlinks the chosen node and flags it allocated. Moves `m_first_free` to its free successor when it was the head, and counts its size. |
| `Engine.List.TakeSplit` | zpp_allocator.h:361-375 | The split path of `allocate` keeps the invariant and performs `Carve`. |
| `Engine.List.TakeWhole` | zpp_allocator.h:366-375 | The unsplit path of `allocate` keeps the invariant and performs `Carve`. |
| `Engine.List.Take` | zpp_allocator.h:361-375 | Splits when the rest holds a node, then takes the block. Keeps the invariant and performs `Carve`. |
| `Engine.List.Allocate` | zpp_allocator.h:345-383 | Returns null exactly when no free block fits, and the state is then unchanged. Otherwise it returns the first fit's header, the state is `Carve` of the old view, and the invariant holds. |
| `Engine.List.AllocationSize` | zpp_allocator.h:415-418 | The capacity is the block's size less the header, and at least `N - H`. |
| `Engine.List.Recreate` | zpp_allocator.h:388-394 | The node gets null free links and its size leaves the count; the engine is otherwise as before. |
| `Engine.List.FindPrevFree` | zpp_allocator.h:397-403 | Returns the nearest earlier block whose word is free, with no free block between. Null means no earlier block is free. |
| `Engine.List.ReleaseAfter` | zpp_allocator.h:401-402 | Appending after the nearest free predecessor and merging gives the invariant and `Release` of the view. |
| `Engine.List.ReleaseFirst` | zpp_allocator.h:406-407 | With no free predecessor, prepending to the free list and merging gives `Release` of the view, with the block as the new head. |
| `Engine.List.StartFreelist` | zpp_allocator.h:408-411 | With an empty free list, the node becomes the whole free list with null links. |
| `Engine.List.LinkFirst` | zpp_allocator.h:405-412 | The head branch of `deallocate`. It yields the invariant and `Release` when the free list was non-empty. Otherwise the as-written state is the node alone on the free list with its word untouched. |
| `Engine.List.DeallocateAsWritten` | zpp_allocator.h:386-413 | `deallocate` as written. With a non-empty free list it keeps the invariant and performs `Release`. With an empty one it leaves the block on the free list still flagged allocated. |
| `Engine.List.Deallocate` | zpp_allocator.h:386-413 | `deallocate` with `set_free` on the empty-list path. It always keeps the invariant and performs `Release`. |
| `ByteAllocator.UsableAsWritten` | zpp_allocator.h:427-433 | The trimmed arena ends where the caller's buffer ends. |
| `ByteAllocator.OddArenaFlagged` | zpp_allocator.h:319-323 | An odd trimmed size, written as the first node's word, flags that node allocated and drops the last byte from its size. |
| `ByteAllocator.OddArenaExample` | zpp_allocator.h:427-433 | A 57-byte buffer at address 8 is trimmed to an odd 49 bytes. |
| `ByteAllocator.Usable` | zpp_allocator.h:427-433 | The corrected arena size is even, at most one byte below the trimmed size, and a free word. |
| `ByteAllocator.AllocationFits` | zpp_allocator.h:436-443 | The payload of the carved block is aligned, holds the request and lies inside its block, which overlaps no other block. |
| `ByteAllocator.HugeRequestFails` | zpp_allocator.h:347-359 | With the corrected footprint, a request past `MaxRequest` fits no block of an arena within `std::size_t`. |
| `ByteAllocator.Allocator.constructor` | zpp_allocator.h:427-433 | The arena starts at the buffer's first aligned address and is one free block of the corrected usable size. |
| `ByteAllocator.Allocator.Allocate` | zpp_allocator.h:436-443 | Null exactly when no block holds the corrected footprint, so always for a request past `MaxRequest`, where the source differs (see Left out). Otherwise the payload of the first fit: aligned, with capacity at least the request, and the state is `Carve`. |
| `ByteAllocator.Allocator.Deallocate` | zpp_allocator.h:445-451 | Null changes nothing. Otherwise the block whose header is `H` bytes before the pointer is released (`Release`), through the corrected engine (see Left out). |
| `ByteAllocator.Allocator.AllocationSize` | zpp_allocator.h:453-457 | The payload capacity runs from the pointer to the end of its block. |
| `ByteAllocator.Allocator.ContainsExactlyTheBlocks` | zpp_allocator.h:459-462 | `contains` holds exactly for the addresses of the blocks: the half-open range from the arena start up to one past its end. |
| `ByteAllocator.Allocator.Allocated` | zpp_allocator.h:464-467 | `allocated()` is the sum of the allocated blocks' sizes and at most `size()`. |
| `ByteAllocator.Allocator.Size` | zpp_allocator.h:469-472 | `size()` is the sum of all block sizes, that is the arena size rounded down to even (see Left out). |

## Left out

- The typed `allocator<Type>`, `heap<Index>` and `static_allocator` (zpp_allocator.h:479-556) are not part of this model. They scale sizes by `sizeof(Type)` and manage static storage, with no block bookkeeping.
- The `list` move constructor and move assignment (zpp_allocator.h:325-340) are left out: they move ownership and do not touch the blocks.
- `std::launder`, placement `new` and the switch between the header and node representations are identities on the model's maps.
- Payload bytes are not modelled, so the model cannot show that writing a freed block's links past its end overwrites the next header when its footprint is below a node (finding 2). `Engine.List.Allocate` uses the corrected `Footprint`.
- `Engine.List.Allocate`: uses the corrected footprint rather than the as-written one, for findings 2 and 4. The as-written footprint is modelled and its failures are proved in `Layout`.
- `ByteAllocator.Allocator.Allocate`: is built on `Engine.List.Allocate` and so on the corrected `Footprint`. `Layout.FootprintAgrees` proves the two footprints equal for every request from 1 to `MaxRequest`. They differ in two places. `allocate(0)` takes 32 bytes in the source and 48 in the model (finding 2). A request past `MaxRequest` is always refused by the model, but the source wraps it to a footprint of at most 32 bytes and returns a block whenever one is free (finding 4; `allocate(SIZE_MAX)` gets a 32-byte block).
- `ByteAllocator.Allocator.Deallocate`: calls the corrected `Engine.List.Deallocate`, not `Engine.List.DeallocateAsWritten`. The two differ only when the free list is empty before the call. There the source leaves the new head flagged allocated (finding 1), while the model releases it.
- `ByteAllocator.Allocator.Size` and `ByteAllocator.Allocator.Contains`: use the corrected arena size from `ByteAllocator.Usable`, the trimmed size rounded down to even, where the source uses the trimmed size itself (`m_memory.size()`). The two differ only for an odd trimmed size (finding 3). For the 57-byte buffer at address 8 of `ByteAllocator.OddArenaExample`, the source's `size()` is 49 and `contains(data + 48)` holds. The model gives 48 and false.
- `Engine.List.constructor`: requires an aligned start, at least a node and an even size. The as-written odd case is finding 3, and `ByteAllocator.Usable` supplies an even size.
- Addresses are unbounded naturals. `address() + size` and the trimming of the buffer's start are exact; their wrap-around near the top of the address space is not modelled.
- `deallocate`'s size argument is ignored by the source and is not a parameter of the model.
- Deallocating a pointer that is not a live allocation is undefined in the source. The model requires the pointer to be the payload of an allocated block, named by its ghost position.
- `contains` is a predicate without its own contract. `ByteAllocator.Allocator.ContainsExactlyTheBlocks` states what it means.
- `m_first` is kept as the constant `first`; `prepend_to_list` in front of it would leave it stale, but the engine never does that.

## Findings

| source | as written | input that shows it | evidently intended | confidence | as-written member | corrected member |
|---|---|---|---|---|---|---|
| zpp_allocator.h:406-412 | With an empty free list, `deallocate` makes the node `m_first_free` without `set_free`, so it stays flagged allocated. | In a 96-byte aligned arena, call `allocate(16)` twice; the two 48-byte blocks fill the arena. Free the first (it becomes head, still flagged). Free the second: the prev walk skips the first as allocated, so it is prepended before it. The free list is then `[48, 0]`, out of address order, and nothing merges. `allocate(50)` then fails on a wholly free arena. | The node is flagged free on that path too. | not executed | `Engine.List.DeallocateAsWritten`, `Engine.FlaggedFreeHead` | `Engine.List.Deallocate` |
| zpp_allocator.h:347-351 | The footprint is the request plus the header, rounded to `A`. For a request of 0 that is 32 bytes, less than a node (48). | `allocate(0)` on a 4096-byte arena splits off a 32-byte block. Freeing it recreates a 48-byte node there, whose null free links overwrite `m_next` and `m_prev` of the next block's header. | The footprint is at least `sizeof(node)`. | not executed | `Layout.FootprintAsWritten`, `Layout.FootprintAsWrittenTooSmall` | `Layout.Footprint` |
| zpp_allocator.h:427-433 | The trimmed buffer size is written unchanged as the first node's word, so an odd size sets the allocated flag. | A 57-byte buffer at address 8 is trimmed to 49 bytes. The first node's word is 49: flagged allocated, with size 48. | The size is rounded down to an even number, so the node is free. | not executed | `ByteAllocator.UsableAsWritten`, `ByteAllocator.OddArenaFlagged`, `ByteAllocator.OddArenaExample` | `ByteAllocator.Usable` |
| zpp_allocator.h:347-351 | `size += sizeof(header)` and `size += alignment(size)` wrap modulo 2^64. | `allocate(2^64 - 40)` gets footprint 0, so `split(0)` places the new node at the block's own address. `allocate(2^64 - 1)` gets footprint 32. | A request whose footprint does not fit in `std::size_t` is refused (null). | not executed | `Layout.FootprintAsWritten`, `Layout.FootprintAsWrittenWraps` | `Layout.Footprint`, `ByteAllocator.HugeRequestFails` |
