# A model of the kernel's memory management

This project models, in Dafny, how a small x86 kernel hands out memory, and proves what that
code keeps true. The centre is the heap allocator `liballoc.c` with its page source in `rise.c`:
every chunk of pages is a chain of boundary tags, the free tags are threaded through 32 doubly
linked lists by size class, and a counter per class tracks whole empty chunks. Around it stand
the spinlock that guards it, the bitmap of page frames, the two-level page table, and the number
and format printer of the serial port.

## How it is built

The allocator appears twice. `LibAlloc` is the program: a class per C structure, tag records that
point at each other, arrays of list heads and counters, loops where the program loops. `TagOps`
and `Calls` say what each helper and each call does to the state read as a value (`World`):
headers by address, list heads, counters, page source. Every method of `LibAlloc` is proved to
leave exactly the state its function gives, and the lemmas are about those functions. `Outcomes` says
a second time, in terms of tags, sizes, lists and grants alone, what malloc and free come to, so that
neither text rests on the other's wording.

| file | what it holds |
|---|---|
| `Machine.dfy` | 32-bit words, constants, powers of two, sums over maps |
| `PageSource.dfy` | the page source: a cursor that only moves up, and the grants made and returned |
| `World.dfy` | the allocator's state as a value, the size classes, the invariant `Inv` |
| `TagOps.dfy`, `Calls.dfy` | the helpers, and malloc, free and realloc, as functions of the state |
| `ListLemmas.dfy`, `ChainLemmas.dfy`, `FileLemmas.dfy` | lists, chains and counters under each helper |
| `FreeLemmas.dfy`, `MallocLemmas.dfy` | free and malloc keep `Inv` and change exactly one live block |
| `Outcomes.dfy` | what malloc and free do, said once more without their steps |
| `Overcommit.dfy` | exactly which requests break the allocator, and the largest that never does |
| `Theorems.dfy` | privacy of blocks, tiling, conservation, coalescing, waste |
| `Reallocation.dfy` | realloc, and exactly when its copy leaves the headers alone |
| `Runs.dfy`, `Footprint.dfy` | whole runs against an abstract allocator; which headers a call writes |
| `Memory.dfy` | the word-then-byte copy |
| `Readiness.dfy`, `LibAlloc.dfy` | the program over records and arrays, and what its steps rely on |
| `PageHooks.dfy` | the page source together with the page tables it changes |
| `CriticalSection.dfy`, `Spinlock.dfy` | malloc and free cut into stages, and any number of threads running them |
| `Progress.dfy` | who can go on when: the lock comes free, waiting threads wait, calls complete |
| `Interference.dfy` | what each stage writes, beside the blocks other threads hold |
| `FrameBitmap.dfy`, `PageTables.dfy`, `Serial.dfy` | page frames, page tables, numbers and formats |
| `PowerUp.dfy` | the classes put to use from power-up on |

The invariant `World.Inv` has five parts: the tags of every held chunk tile it (`Tiling`); every
free list is a NULL-terminated doubly linked list without repetition that holds exactly the tags
with its index (`Lists`); a free tag is filed by its size and a live one wastes at most 319 bytes
(`Sized`); no two neighbours are both free (`Coalesced`); and every counter is the number of whole
chunks in its list, at most five (`Counts`). `World.Live` is the abstract allocator: the size of
each live block by the address of its header.

Sizes and addresses are 32-bit words. Every sum with a request's size or a page count in it is
wrapped as the program wraps it, and `heap_cur` and `heap_end` are compared as signed words, as the
code does. Sums of addresses and sizes of tags in use are left unwrapped: in a state in order they
end at or below the cursor, which stays below 2^31.

## Where the code differs from what is said about it

- The guard of `liballoc_alloc` does not always keep grants inside the heap: a request whose end
  lies at or above 2^31, or whose header addition wraps, passes it (`Overcommit.FooledOnce` is a
  4 MiB heap that grants almost 2 GiB). `MallocLemmas.OvercommitsExactly` says which sizes fool it,
  and `Overcommit.MallocSafeExactly` that malloc keeps the invariant for all other requests and for
  no others. For a heap that ends at or below 2^30 the requests that are safe in every state are
  exactly those up to 2^30 less the 32 bytes of the header (`Overcommit.RequestBoundExact`;
  `Overcommit.LargeFools` gives the state that any larger one fools).
- A realloc whose inner malloc fails goes on to copy the old block to address 0 and to free it.
  Where the copy ends below every header in use, the block is gone although NULL is returned
  (`Reallocation.ReallocRefines`). Where it does not, what the block holds decides what becomes of
  the headers in its way: the allocator stays in order whatever the block holds if and only if
  there is a new block or the copy ends below every header in use
  (`Reallocation.ReallocSafeExactly`), and a copy over the block's own header can keep free from
  releasing it at all (`Reallocation.BlockMayStay`). Two calls are enough: in a 4 MiB heap at 1 MiB,
  a malloc of 1.5 MiB and a realloc of it to 3 MiB (`Reallocation.TwoCalls`).
- `BLOCK_ALIGN` adds a page even to an aligned address, so freeing a frame clears the right bit
  exactly when the first frame's base is not aligned (`FrameBitmap.FreeFindsTheBit`). With an
  aligned base, which is what every new page table leaves behind, two frames taken, the first given
  back and another taken is enough to hand out a frame twice (`FrameBitmap.AlignedHandsOutTwice`).
- The scan for a free frame runs on past the 262144 frames of the bitmap into the words behind it.
- The end address of `allocate_region` and `free_region` is inclusive. Releasing a chunk also
  unmaps the page its end address lies on, and whatever else shares its first page
  (`PageTables.ReleaseUnmaps`), so that a chunk next to it can lose a page
  (`PageHooks.ReturnSparesOthersExactly`); the loops do not end when the end lies on the last page of the
  address space (`PageTables.RegionLoopsEnd`).
- The word-then-byte copy is a byte copy except when the destination starts one to three bytes
  past the source and a whole word is copied (`Memory.WordCopyExact`). realloc is never in that
  case, since its two blocks do not overlap and address 0 lies before them.
- The comment on `%0` promises a width; the code treats `%0` as a conversion of its own that
  prints in hexadecimal, and the characters after it as ordinary text. The model follows the code.
- `liballoc_free` returns 1 where the header promises 0 for success; no caller reads it.

## Model

| member | source | states |
|---|---|---|
| `World.Log2Brackets` | src/kernel/kernel/liballoc.c:39-42 | The exponent n of a size satisfies 2^n <= size < 2^(n+1), for every size. |
| `World.Log2Unique` | src/kernel/kernel/liballoc.c:53-65 | Only one exponent satisfies that bracket, so the search by shifting finds it. |
| `World.ClassRange` | src/kernel/kernel/liballoc.c:297-299 | Every 32-bit size has a class among the lists 8 to 31; class 31 is reached exactly from 2^31 on. |
| `World.ClassExactly` | src/kernel/kernel/liballoc.c:43-66 | The class of every 32-bit size below 512 is 8; of any other it is 9 to 31, with 2^class <= size < 2^(class+1). |
| `World.InitialInv` | src/kernel/kernel/liballoc.c:286-295 | Before the first call, with all globals zero, the whole invariant holds and nothing is live. |
| `LibAlloc.GetExp` | src/kernel/kernel/liballoc.c:43-66 | The shifting loop returns -1 below 256 and otherwise the exponent, in 8 to 31, with its bracket. |
| `LibAlloc.ListFor` | src/kernel/kernel/liballoc.c:422-424 | The list chosen for a size is its class, always a valid index. |
| `PageSource.TakeIsGrown` | src/kernel/kernel/rise.c:28-38 | For a grant that ends below the heap's end no 32-bit sum wraps and the guard lets it pass. |
| `PageSource.AllowsExactly` | src/kernel/kernel/rise.c:28-30 | For up to 2^20 pages the guard lets exactly those grants pass that end below the heap's end, or in the upper half of the address space, or wrapped around below the end. |
| `PageSource.TakeOk` | src/kernel/kernel/rise.c:26-42 | Such a grant keeps all grants disjoint, consecutive and inside the heap, and the page accounts right. |
| `PageSource.GiveBackOk` | src/kernel/kernel/rise.c:44-49 | Returning a held chunk returns exactly one grant, never returned before, and keeps the accounts. |
| `PageSource.RunWideBound` | src/kernel/kernel/rise.c:26-42 | The pages ever granted fit in the heap, however many came back; a 4 MiB heap grants at most 1023 pages in 63 chunks. |
| `PageHooks.Hooks.LiballocAlloc` | src/kernel/kernel/rise.c:26-42 | The whole hook: exactly when the guard passes, the cursor moves and the pages from the chunk's first to the one of its end address are mapped; else neither changes. |
| `PageHooks.Hooks.LiballocFree` | src/kernel/kernel/rise.c:44-49 | The whole hook: the same pages are unmapped, the cursor stays, and the result is 1. |
| `PageHooks.GrantIsMapped` | src/kernel/kernel/rise.c:34-38 | A grant the heap has room for ends below the last page, so its region loop ends, and every byte of its chunk is mapped. |
| `PageHooks.ReturnSparesOthersExactly` | src/kernel/kernel/rise.c:44-49 | With every held byte mapped, returning a chunk keeps every byte of the other held chunks mapped if and only if none of them begins where it ends and none ends where it begins in the middle of a page. |
| `ListLemmas.LinksMutual` | src/kernel/kernel/liballoc.c:156-164 | A listed tag's neighbours in the list are two further tags of the same index that point back at it, and it is the head exactly when it has no predecessor. |
| `ListLemmas.FiledAt` | src/kernel/kernel/liballoc.c:156-169 | A free tag stands at exactly one place of the list of its index. |
| `ListLemmas.RemoveTagEffect` | src/kernel/kernel/liballoc.c:156-169 | remove_tag changes the tag's own links and index and one link on each side, in no other header and in no chain. |
| `ListLemmas.RemoveTagLists` | src/kernel/kernel/liballoc.c:156-169 | After remove_tag every one of the 32 lists is well formed again and every tag is in the list of its index or in none. |
| `ListLemmas.InsertTagEffect` | src/kernel/kernel/liballoc.c:135-154 | insert_tag changes only the tag's index and successor and the old head's predecessor; the head was another tag. |
| `ListLemmas.InsertTagLists` | src/kernel/kernel/liballoc.c:135-154 | After insert_tag of a tag that is in no list every list is well formed, although the tag's own links are never cleared there. |
| `LibAlloc.Allocator.InsertTag` | src/kernel/kernel/liballoc.c:135-154 | The method over records leaves exactly the state of the specification, for a given list and for a list chosen by size. |
| `LibAlloc.Allocator.RemoveTag` | src/kernel/kernel/liballoc.c:156-169 | The same for remove_tag. |
| `ChainLemmas.Neighbours` | src/kernel/include/kernel/liballoc.h:38-39 | Split neighbours point at each other, the right one starts where the tag ends, and addresses increase along the chain. |
| `ChainLemmas.MeltLeftEffect` | src/kernel/kernel/liballoc.c:172-183 | melt_left adds the sizes, takes over the right link and redirects one left link; every other header and every list is as before. |
| `ChainLemmas.MergedTiling` | src/kernel/kernel/liballoc.c:172-199 | After a merge from either side every chunk is still tiled exactly, with mutual links. |
| `ChainLemmas.MergedWholes` | src/kernel/kernel/liballoc.c:403-418 | Merging turns no listed split tag into a whole one and no whole one into a split one. |
| `ChainLemmas.MergedLive` | src/kernel/kernel/liballoc.c:403-418 | Merging with a free neighbour changes no live block. |
| `ChainLemmas.CutEffect` | src/kernel/kernel/liballoc.c:201-221 | split_tag leaves the tag its header and payload, gives all the rest to the new tag, redirects one link, and touches no other header. |
| `ChainLemmas.CutTiling` | src/kernel/kernel/liballoc.c:201-221 | After the cut the chunk is still tiled exactly. |
| `ChainLemmas.CutPointIsNew` | src/kernel/kernel/liballoc.c:205-206 | The new header lies where no tag in use has its header. |
| `ChainLemmas.CutCoalesced` | src/kernel/kernel/liballoc.c:217-219 | The rest of a cut has no free neighbour. |
| `ChainLemmas.CutWholes` | src/kernel/kernel/liballoc.c:201-226 | Cutting leaves the whole chunks of every list as they are. |
| `ChainLemmas.CutLive` | src/kernel/kernel/liballoc.c:201-226 | Cutting makes the tag's block the one live block more. |
| `ChainLemmas.MeltUndoesCut` | src/kernel/kernel/liballoc.c:172-221 | melt_left undoes the cut of split_tag: the chunks and every header in use are back, word for word. |
| `LibAlloc.Allocator.MeltLeft` | src/kernel/kernel/liballoc.c:172-183 | The method over records leaves exactly the state of the specification and returns the left neighbour. |
| `LibAlloc.Allocator.AbsorbRight` | src/kernel/kernel/liballoc.c:186-199 | The same for absorb_right, which takes the neighbour off its list first. |
| `LibAlloc.Allocator.SplitTag` | src/kernel/kernel/liballoc.c:201-226 | The same for split_tag, which writes a new header behind the payload and files it by size. |
| `ChainLemmas.GrownTiling` | src/kernel/kernel/liballoc.c:252-263 | A new chunk is one tag that fills it, at an address where no tag was, and all other chunks stay tiled. |
| `ChainLemmas.WholeIsChunk` | src/kernel/kernel/liballoc.c:426-427 | A tag without split neighbours is a whole chunk of the page source and shares it with no other tag. |
| `ChainLemmas.ReleaseTiling` | src/kernel/kernel/liballoc.c:427-437 | Handing a whole chunk back leaves the other chunks tiled and the page source in order. |
| `LibAlloc.Allocator.AllocateNewTag` | src/kernel/kernel/liballoc.c:232-275 | NULL and no change when the page source refuses; otherwise a fresh record at the old cursor in the state of the specification. |
| `Calls.FirstFit` | src/kernel/kernel/liballoc.c:302-314 | The search position is the first tag that passes the fit test; none before it does. |
| `LibAlloc.Allocator.Search` | src/kernel/kernel/liballoc.c:302-314 | The walk along `next` ends at the first tag of the request's list whose real size less 32 is, in 32-bit words, at least the request and 32, every tag before it failing that test; at NULL only when all fail it. |
| `LibAlloc.Allocator.Reuse` | src/kernel/kernel/liballoc.c:325-330 | A fitting tag leaves its list, and the count of whole chunks goes down exactly when it is one. |
| `LibAlloc.Allocator.Obtain` | src/kernel/kernel/liballoc.c:297-330 | The first part of malloc returns the listed candidate, else a new chunk, else NULL, in the state of the specification. |
| `LibAlloc.Allocator.Place` | src/kernel/kernel/liballoc.c:334-363 | The second part notes the size and cuts off the remainder exactly when it has at least 256 bytes beside its header. |
| `LibAlloc.Allocator.Initialize` | src/kernel/kernel/liballoc.c:286-295 | The clearing loop of the first call changes nothing, because nothing has been handed out. |
| `LibAlloc.Allocator.Malloc` | src/kernel/kernel/liballoc.c:278-375 | The method keeps records and invariant in step, leaves the state of the specification, serves the request (see MallocServes), and has the outcome that `Outcomes.MallocExactly` states. |
| `MallocLemmas.OvercommitsExactly` | src/kernel/kernel/rise.c:28-30 | Exactly which 32-bit sizes the signed, wrapping guard grants although they do not fit. |
| `MallocLemmas.GrantExact` | src/kernel/kernel/liballoc.c:238-253 | Unless fooled, the page source grants exactly the requests whose rounded pages end below the heap's end, and the page count does not wrap. |
| `MallocLemmas.CandidateFits` | src/kernel/kernel/liballoc.c:304-310 | The tag the search finds is a free tag of the request's class with room for the payload and two headers, for every 32-bit size. |
| `MallocLemmas.CandidateExact` | src/kernel/kernel/liballoc.c:302-314 | The wrapped fit test comes to real size >= request + 64: the tag used is the first such one of the list, and there is none exactly when every tag is smaller. |
| `MallocLemmas.ReuseCounts` | src/kernel/kernel/liballoc.c:326-330 | Reusing a listed tag keeps every counter equal to the number of whole chunks in its list. |
| `MallocLemmas.RemainderExact` | src/kernel/kernel/liballoc.c:342-347 | The signed remainder test and getexp together mean: at least 256 bytes would be left beside a second header. |
| `MallocLemmas.NewTagOk` | src/kernel/kernel/liballoc.c:232-275 | A new chunk leaves everything in order, has room for the request, and is exactly the rounded size. |
| `MallocLemmas.SplitOk` | src/kernel/kernel/liballoc.c:344-352 | Splitting a tag in use restores the full invariant and makes its block live. |
| `MallocLemmas.ObtainOk` | src/kernel/kernel/liballoc.c:297-330 | What the first part of malloc finds, a listed tag or a new chunk, is in no list, has room for the request, and no live block has changed. |
| `MallocLemmas.PlaceOk` | src/kernel/kernel/liballoc.c:334-363 | Whether it splits or not, the end of malloc restores the invariant and adds exactly the requested block. |
| `MallocLemmas.MallocFailsExactly` | src/kernel/kernel/liballoc.c:297-322 | malloc returns NULL exactly when every tag of the request's own list is smaller than the request and 64 bytes and the needed pages reach the heap's end; it then changes nothing. |
| `MallocLemmas.MallocKeepsInv` | src/kernel/kernel/liballoc.c:278-375 | malloc keeps the invariant and, when it succeeds, adds exactly the returned block, which was not live. |
| `MallocLemmas.MallocServes` | src/kernel/kernel/liballoc.c:278-375 | The block returned has the size asked for, was not live and is the only change to the live blocks; NULL and no change exactly in the case above. |
| `Outcomes.NeedExactly` | src/kernel/kernel/liballoc.c:234-246 | A new chunk is whole pages, at least 16 of them, room for the request and its header, and by less than a page more unless it is the 16. |
| `Outcomes.MallocExactly` | src/kernel/kernel/liballoc.c:278-375 | For every request that can be trusted: the first listed tag with real size >= request + 64 is used, else a chunk at the old cursor when it ends below the heap's end, else NULL and no change; the tag used leaves its list, keeps 32 + request bytes if 320 or more are over, the rest going to the front of the list of its class; no other tag, list or grant changes. |
| `Overcommit.FooledOnce` | src/kernel/kernel/rise.c:30 | A 4 MiB heap at 1 MiB passes the guard for a request of 0x7ff00000 bytes. |
| `Overcommit.FooledSource` | src/kernel/kernel/rise.c:30-40 | A request that fools the guard leaves a page source whose grants are no longer inside the heap. |
| `Overcommit.FooledBySize` | src/kernel/kernel/liballoc.c:205-257 | A size whose sum with the header wraps gets sixteen pages, the address of what is cut off wraps onto the tag's own header, and the invariant is broken. |
| `Overcommit.MallocSafeExactly` | src/kernel/kernel/liballoc.c:278-375 | For every state in order and every 32-bit size, malloc keeps the invariant if and only if some tag of the request's list has room for it and 64 bytes, or the guard is not fooled. |
| `Overcommit.SmallIsSafe` | src/kernel/kernel/rise.c:30 | With a heap that ends at or below 2^30, a request that stays within 2^30 with its header fools the guard in no state. |
| `Overcommit.LargeFools` | src/kernel/kernel/rise.c:30 | For every larger 32-bit size there is a page source in order, of such a heap, that it fools. |
| `Overcommit.RequestBoundExact` | src/kernel/kernel/rise.c:28-30 | Both together: a size is safe in every state of every such heap if and only if it is at most 2^30 less 32. |
| `FreeLemmas.MeltOk` | src/kernel/kernel/liballoc.c:403-410 | After at most one turn of the melt-left loop the tag has no free left neighbour, all is in order, and no live block has changed. |
| `FreeLemmas.MeltStops` | src/kernel/kernel/liballoc.c:404 | After one turn the loop's test fails: two turns never happen. |
| `FreeLemmas.AbsorbOk` | src/kernel/kernel/liballoc.c:412-418 | The same on the right, with the left side still closed. |
| `FreeLemmas.AbsorbStops` | src/kernel/kernel/liballoc.c:413 | After one turn of the melt-right loop its test fails. |
| `FreeLemmas.PagesBackExact` | src/kernel/kernel/liballoc.c:430-437 | What free hands to the page source is exactly a grant, base and page count, not returned before; rounding up and the minimum change nothing. |
| `FreeLemmas.CountsAfterInsert` | src/kernel/kernel/liballoc.c:427-457 | Filing a whole chunk with its counter raised keeps every counter exact and at most five. |
| `FreeLemmas.ShelveOk` | src/kernel/kernel/liballoc.c:421-457 | Each of the three endings of free restores the full invariant and leaves the live blocks alone. |
| `FreeLemmas.FreeKeepsInv` | src/kernel/kernel/liballoc.c:378-465 | free of a live block keeps the invariant and removes exactly that block. |
| `Outcomes.FreeExactly` | src/kernel/kernel/liballoc.c:378-465 | For every live block: its tag and its free neighbours become one tag with all their bytes, and leave the lists; it goes to the front of the list of its class, or, if it fills its chunk and five of that class are kept, the chunk is returned and none of the tags remain. No other tag, list or grant changes. |
| `Outcomes.ChunkAllFree` | src/kernel/kernel/liballoc.c:403-427 | The joined tag fills its chunk if and only if every other tag of the chunk is free. |
| `Outcomes.ReturnsExactly` | src/kernel/kernel/liballoc.c:427-451 | The page source takes the chunk back if and only if every other tag of it is free and the counter of its class is five; in all other cases the page source is unchanged. |
| `Readiness.LoopsRunOnce` | src/kernel/kernel/liballoc.c:403-418 | For a tag taken into work between coalesced neighbours, each loop over records ends after at most one turn. |
| `LibAlloc.Allocator.MeltAll` | src/kernel/kernel/liballoc.c:403-410 | The loop over records leaves the state of at most one melt and returns the tag it ended at. |
| `LibAlloc.Allocator.AbsorbAll` | src/kernel/kernel/liballoc.c:412-418 | The same for the melt-right loop. |
| `LibAlloc.Allocator.Shelve` | src/kernel/kernel/liballoc.c:421-457 | The method takes the same one of three endings as the specification; which one it is, `Outcomes.ReturnsExactly` states. |
| `LibAlloc.Allocator.Free` | src/kernel/kernel/liballoc.c:378-465 | The method keeps records and invariant in step, takes exactly the block at the address out of the live ones, and has the outcome that `Outcomes.FreeExactly` and `Outcomes.ReturnsExactly` state; nothing changes where there is no live block. |
| `Readiness.LinksStayInUse` | src/kernel/include/kernel/liballoc.h:38-42 | No tag in use and no list head points at an address without a tag in use, so writing a header there is seen through no link. |
| `Theorems.PayloadIsPrivate` | src/kernel/kernel/liballoc.c:334-374 | In every state in order a live payload meets no header in use and no other live payload, and lies inside a held chunk and below the heap's end. |
| `Theorems.BoundedWaste` | src/kernel/kernel/liballoc.c:342-359 | Every live block satisfies size + 32 <= real_size <= size + 319. |
| `Theorems.ChainSize` | src/kernel/include/kernel/liballoc.h:38-39 | Following split_right from any tag reaches exactly the end of its chunk and never leaves it. |
| `Theorems.ChainAbuts` | src/kernel/include/kernel/liballoc.h:38-39 | Each tag of a chain starts where the one before it ends. |
| `Theorems.ChainComplete` | src/kernel/include/kernel/liballoc.h:38-39 | Every tag of a chunk is met from the chunk's base. |
| `Theorems.ChunkIsTiled` | src/kernel/kernel/liballoc.c:172-226 | The tags of a held chunk are one chain whose sizes add up to its pages, without gap or overlap. |
| `Theorems.SizesAddUp` | src/kernel/kernel/liballoc.c:26-29 | The real sizes of all tags add up to the bytes of all held chunks. |
| `Theorems.Conservation` | src/kernel/kernel/liballoc.c:269 | The real sizes of all tags add up to 4096 times the pages obtained less the pages returned, which is what `l_allocated` tracks. |
| `Theorems.EmptyHeapIsWhole` | src/kernel/kernel/liballoc.c:403-451 | With nothing live, in whatever order the frees came, every held chunk is a single free tag and at most five chunks per class remain. |
| `Theorems.ListsByClass` | src/kernel/kernel/liballoc.c:421-457 | A tag is in list i exactly when its index is i, and exactly when it is free and i is the class of its room. |
| `Theorems.CountersExact` | src/kernel/kernel/liballoc.c:326-451 | Every counter is the number of whole chunks in its list, and at most five. |
| `Runs.MallocRefines` | src/kernel/kernel/liballoc.c:278-375 | malloc is a step of the abstract allocator: the returned block is new, all others keep their sizes. |
| `Runs.FreeRefines` | src/kernel/kernel/liballoc.c:378-465 | free of NULL, of a live block, or where the magic word is missing is a step of the abstract allocator. |
| `Runs.StepRefines` | src/kernel/kernel/liballoc.c:278-465 | Every legal call keeps the invariant and is a step of the abstract allocator. |
| `Runs.RunRefines` | src/kernel/kernel/liballoc.c:278-465 | So is every run of calls, of any length and in any order. |
| `Runs.BytesInUse` | src/kernel/kernel/liballoc.c:367-398 | Over every run the live sizes add up to the bytes requested less the bytes released, which is what `l_inuse` tracks. |
| `Runs.RunMovesUp` | src/kernel/kernel/rise.c:37-38 | Over every run the cursor never goes back, and the grants made before stay, in order, the first ones on record. |
| `Runs.HeapOverARun` | src/kernel/kernel/vmm.c:213-215 | From power-up with the 4 MiB heap, after every run: each grant made on the way is on record, the grants follow each other without a gap from the heap's start to the cursor, they are at most 1023 pages in 63 chunks, and the tags account for every page not returned. |
| `Footprint.MallocWrites` | src/kernel/kernel/liballoc.c:201-375 | malloc writes only headers that are in use when it returns. |
| `Footprint.FreeWrites` | src/kernel/kernel/liballoc.c:378-465 | free writes only headers that were in use when it was called. |
| `Footprint.MallocSparesPayloads` | src/kernel/kernel/liballoc.c:201-375 | No header malloc writes meets a live payload, old or new. |
| `Footprint.FreeSparesPayloads` | src/kernel/kernel/liballoc.c:378-465 | No header free writes meets a live payload, not even the one being freed. |
| `Memory.WordCopyRefines` | src/kernel/kernel/liballoc.c:78-99 | The word-then-byte copy is the plain byte copy unless the destination starts one to three bytes past the source and a word is copied. |
| `Memory.WordCopyDiffers` | src/kernel/kernel/liballoc.c:85-88 | In that case there is a memory on which the two copies differ. |
| `Memory.WordCopyExact` | src/kernel/kernel/liballoc.c:78-99 | Both together: the copies agree on all memories if and only if that case does not arise. |
| `Memory.CopyBetweenApart` | src/kernel/kernel/liballoc.c:78-99 | Between ranges that do not meet, exactly the destination bytes change, each to its source byte. |
| `Memory.ByteCopyAt` | src/kernel/kernel/liballoc.c:95-98 | Where each byte of the plain copy comes from: from the source, unless that begins below the destination; then from the bytes between the two, over and over. |
| `Memory.CopyOrigins` | src/kernel/kernel/liballoc.c:78-99 | The word-then-byte copy leaves every byte of memory from that same place, outside the one case in which the copies differ. |
| `Memory.MemCpy` | src/kernel/kernel/liballoc.c:78-99 | The two loops over the byte array leave the word-then-byte copy of the old contents. |
| `Reallocation.BlocksApart` | src/kernel/kernel/liballoc.c:506-507 | Two live blocks leave room to copy between them without overlap, inside memory. |
| `Reallocation.ReallocInBetween` | src/kernel/kernel/liballoc.c:506-507 | Unless a copy to address 0 reaches a header in use, the old block is still live after the inner malloc, and apart from where its bytes go. |
| `Reallocation.OrderAfterCopyExactly` | src/kernel/kernel/liballoc.c:507 | Writing any data over the first n bytes of memory leaves the allocator in order if and only if it meets no header in use, that is, n is at most the lowest address of one. |
| `Reallocation.ReallocSafeExactly` | src/kernel/kernel/liballoc.c:506-507 | The allocator is in order after the copy, whatever the old block holds, if and only if the inner malloc succeeded or the copy to address 0 ends below every header in use. |
| `Reallocation.OwnHeaderExactly` | src/kernel/kernel/liballoc.c:507-508 | free finds the block's magic word after the copy, whatever the block holds, if and only if the inner malloc succeeded or the copy ends below the block's own header. |
| `Reallocation.BlockMayStay` | src/kernel/kernel/liballoc.c:506-508 | Otherwise there are contents with which free does nothing and the block stays live, in a state out of order. |
| `Reallocation.TwoCalls` | src/kernel/kernel/liballoc.c:483-511 | A malloc of 1.5 MiB and a realloc of it to 3 MiB, in a 4 MiB heap at 1 MiB, fail in that way. |
| `Reallocation.ReallocRefines` | src/kernel/kernel/liballoc.c:483-511 | When the copy stays clear of the headers in use, and whatever it makes of all others: realloc keeps the invariant, exchanges one live block for another of the new size, fails exactly when malloc does, and has then freed the old block all the same. |
| `Reallocation.ReallocIsARun` | src/kernel/kernel/liballoc.c:483-511 | realloc leaves the headers, and returns the address, of a run of one or two calls that its caller may make. |
| `LibAlloc.Allocator.MoveBytes` | src/kernel/kernel/liballoc.c:507 | The copy inside realloc moves the bytes and changes no other byte. |
| `LibAlloc.Allocator.Realloc` | src/kernel/kernel/liballoc.c:483-511 | For size zero, for NULL and for a live block, with a new block or with a copy to address 0 that ends below every header in use: the state of the specification; for a block, each of its bytes that the new size has room for is, at the same offset from the result, what it was, and every other byte of memory is unchanged; for size zero it is a free, for NULL a malloc. |
| `CriticalSection.FinishMalloc` | src/kernel/kernel/liballoc.c:284-374 | The stages of malloc, one helper call at a time, add up to malloc. |
| `CriticalSection.FinishFree` | src/kernel/kernel/liballoc.c:386-465 | The stages of free add up to free. |
| `Spinlock.ExchangeKeeps` | src/kernel/include/kernel/spinlock.h:28-33 | The atomic exchange keeps the system invariant, whether it takes the lock or not. |
| `Spinlock.WorkOnKeeps` | src/kernel/kernel/liballoc.c:284-374 | A stage inside the critical section keeps the system invariant, whatever state the allocator is in between. |
| `Spinlock.UnlockKeeps` | src/kernel/include/kernel/spinlock.h:40-44 | Releasing the lock keeps it: the call of the holder is then complete. |
| `Spinlock.ActKeeps` | src/kernel/include/kernel/spinlock.h:28-44 | Every action of every thread keeps it. |
| `Spinlock.ScheduleKeeps` | src/kernel/include/kernel/spinlock.h:28-44 | So does every interleaving of any number of threads. |
| `Spinlock.EveryInterleaving` | src/kernel/kernel/rise.c:14-24 | In every interleaving the lock word is nonzero exactly while one thread, and only one, is inside; the calls completed have returned what they return when made one after the other; and whenever the word is 0 the state is that of those calls and the full invariant holds. |
| `Progress.HolderLeaves` | src/kernel/include/kernel/spinlock.h:40-44 | The thread inside needs no other: its own remaining stages and one unlock complete its call, with the result the call has on the last quiet state, hand it the block, and bring the word back to 0. |
| `Progress.LockComesFree` | src/kernel/include/kernel/spinlock.h:28-44 | From every reachable state with the lock taken, at most five stages and one unlock of one thread do so. |
| `Progress.WaiterCompletes` | src/kernel/include/kernel/spinlock.h:26-44 | From every reachable state in which the word is 0, a thread that waits, spinning or about to exchange, completes its call by its own actions: it reads the word if it spins, exchanges, works and unlocks. |
| `Progress.CallCompletes` | src/kernel/kernel/rise.c:14-24 | From every reachable state in which the word is 0, an idle thread can have any call it may ask for made without another thread: call and result are recorded, it owns the block from then on, or no longer, and nothing else about the threads has changed. |
| `Progress.WaitsWhileHeld` | src/kernel/include/kernel/spinlock.h:26-37 | Over every interleaving in which the word is never 0, a waiting thread waits for the same call, and spins on reads from its first exchange on. |
| `Spinlock.BlocksOfThreadsApart` | src/kernel/kernel/rise.c:14-24 | In every interleaving, and whatever the thread inside is doing, the blocks threads hold or are on their way to free are live and do not overlap. |
| `Spinlock.HandOverClaims` | src/kernel/kernel/rise.c:14-24 | A block passed from thread to thread is claimed by the receiver instead of the giver, and all other claims stay. |
| `Spinlock.NoBlockIsLost` | src/kernel/kernel/rise.c:14-24 | After every interleaving each block live between calls was live at the start and is claimed by no thread, or exactly one thread claims it; a block live at the start stays live. |
| `Interference.WorkIsMidway` | src/kernel/kernel/liballoc.c:297-457 | Each stage of a call turns the state the earlier stages left into the one the next stage expects. |
| `Interference.MallocStageWrites` | src/kernel/kernel/liballoc.c:297-360 | Each stage of malloc writes only headers that are in use when the call returns. |
| `Interference.FreeStageWrites` | src/kernel/kernel/liballoc.c:403-457 | Each stage of free writes only headers that were in use when the call began. |
| `Interference.StageSparesPayloads` | src/kernel/kernel/liballoc.c:284-464 | No header a stage changes meets a payload that was live when the call began. |
| `Interference.StagesSpareClaims` | src/kernel/kernel/rise.c:14-24 | In every interleaving, no header changed by any stage of the thread inside meets a block that any thread holds or is on its way to free. |
| `FrameBitmap.OrBits` | src/kernel/include/kernel/pmm.h:33 | OR sets exactly the bits of either operand. |
| `FrameBitmap.AndNotBits` | src/kernel/include/kernel/pmm.h:34 | AND with a complement clears exactly the bits of the mask. |
| `FrameBitmap.PowerBits` | src/kernel/include/kernel/pmm.h:33-34 | A shifted one has that bit and no other. |
| `FrameBitmap.ShiftedBit` | src/kernel/include/kernel/pmm.h:35 | Shifting and masking with one tests exactly that bit. |
| `FrameBitmap.OrAdds` | src/kernel/include/kernel/pmm.h:33 | ORing with a shifted one adds its weight when the bit was clear, and changes nothing when it was set. |
| `FrameBitmap.AndNotTakes` | src/kernel/include/kernel/pmm.h:34 | Clearing a bit takes its weight away when it was set, and changes nothing when it was clear. |
| `FrameBitmap.FrameAllocator.IsSet` | src/kernel/include/kernel/pmm.h:35 | ISSET holds exactly for the frames in the set the bitmap stands for, that is, when bit i % 8 of word i / 8 is 1. |
| `FrameBitmap.FrameAllocator.SetBit` | src/kernel/include/kernel/pmm.h:33 | SETBIT adds exactly one frame to that set: word i / 8 gains 2^(i % 8) unless that bit was set, and no other word changes. |
| `FrameBitmap.FrameAllocator.ClearBit` | src/kernel/include/kernel/pmm.h:34 | CLEARBIT takes exactly one frame out: word i / 8 loses 2^(i % 8) if that bit was set, and no other word changes. |
| `FrameBitmap.FrameAllocator.KallocPageFrame` | src/kernel/kernel/pmm.c:68-79 | For every bitmap and whatever lies behind it: the least clear bit scanned is set and its address returned; when all 280576 are set nothing changes and the result is -1. |
| `FrameBitmap.ScanStaysInside` | src/kernel/kernel/pmm.c:71-73 | The bit taken is one of the bitmap's own if and only if one of its 262144 is clear. |
| `FrameBitmap.FrameAllocator.KfreePageFrame` | src/kernel/kernel/pmm.c:88-99 | For every address, exactly the bit at a 4096th of its distance from the first frame, modulo 2^32, is cleared, in either branch, whether it is one of the bitmap's or lies behind it. |
| `FrameBitmap.AddressOfFrame` | src/kernel/kernel/pmm.c:74 | Frame addresses are page aligned and follow each other at page distance, without wrapping. |
| `FrameBitmap.FreeFindsTheBit` | src/kernel/include/kernel/pmm.h:38 | The bit freed for a frame's address is that frame's if and only if the first frame's base is not page aligned; otherwise it is the next frame's. |
| `FrameBitmap.FramesDistinct` | src/kernel/kernel/pmm.c:74 | Different frames have different addresses. |
| `FrameBitmap.CallKeeps` | src/kernel/kernel/pmm.c:68-99 | Each call keeps bits and outstanding addresses one for one, and a frame handed out was not outstanding. |
| `FrameBitmap.FramesOverARun` | src/kernel/kernel/pmm.c:68-99 | Over every run with an unaligned base, outstanding frames are page aligned, none is outstanding twice, each holds its own bit, and every frame handed out was not outstanding just before. |
| `FrameBitmap.AlignedHandsOutTwice` | src/kernel/kernel/pmm.c:68-99 | With an aligned base, a run of four calls hands out a frame that is outstanding. |
| `FrameBitmap.RunsSafeExactly` | src/kernel/include/kernel/pmm.h:38 | No run from an empty bitmap hands out a frame twice if and only if the base is not page aligned. |
| `PageTables.IndicesOfPage` | src/kernel/include/kernel/vmm.h:32-34 | Directory and table index together are the page number of an address, both within 1024; the address lies in the 4096 bytes that begin at 4 MiB times the one and 4096 times the other. |
| `PageTables.MapRangeAt` | src/kernel/kernel/vmm.c:151-160 | Mapping a range makes exactly its pages present; entries present before and entries outside are unchanged. |
| `PageTables.UnmapRangeAt` | src/kernel/kernel/vmm.c:164-173 | Unmapping a range makes exactly its present pages absent and changes nothing else. |
| `PageTables.UnmapAfterMap` | src/kernel/kernel/vmm.c:151-173 | Unmapping what was mapped leaves present exactly the pages that were present before and lie outside the range. |
| `PageTables.RegionLoopsEnd` | src/kernel/kernel/vmm.c:156-159 | The loops end if and only if the end address lies below the last page of the address space. |
| `PageTables.Directory.AllocatePage` | src/kernel/kernel/vmm.c:87-121 | The two-level table changes as the flat table does when one page is mapped, with a new empty table where there was none. |
| `PageTables.Directory.FreePage` | src/kernel/kernel/vmm.c:124-148 | The same for one page unmapped; a missing table or entry means no change. |
| `PageTables.Directory.AllocateRegion` | src/kernel/kernel/vmm.c:151-160 | The loop maps exactly the pages from the start's to the end's, both included. |
| `PageTables.Directory.FreeRegion` | src/kernel/kernel/vmm.c:164-173 | The loop unmaps exactly the pages from the start's to the end's, both included. |
| `PageTables.ChunkIsMapped` | src/kernel/kernel/rise.c:34-35 | Every byte of a granted chunk is on a page the grant maps. |
| `PageTables.ReleaseUnmaps` | src/kernel/kernel/rise.c:46-47 | Returning a chunk takes the mapping from exactly its own bytes and from what shares its first page or the page of its end address. |
| `Serial.NumeralReadsBack` | src/kernel/kernel/serial.c:85-88 | Positional reading of the numeral of n in any base from 2 to 36 gives n. |
| `Serial.NumeralShape` | src/kernel/kernel/serial.c:85-88 | A numeral has no leading zero unless n is 0, and contains neither NUL nor a sign. |
| `Serial.NumeralLength` | src/kernel/kernel/serial.c:109-115 | k bits take at most k digits, so every 32-bit number fits the buffer. |
| `Serial.NumeralDigits` | src/kernel/kernel/serial.c:85-88 | The character at j from the right is the entry of "0123456789abcdefghijklmnopqrstuvwxyz" at n / base^j % base. |
| `Serial.NumeralPlaces` | src/kernel/kernel/serial.c:83-88 | There are as many characters as n has places: one below the base, and otherwise base^(length-1) <= n < base^length. |
| `Serial.PutDigits` | src/kernel/kernel/serial.c:82-88 | The digit loop writes the numeral backwards and counts its characters. |
| `Serial.ReverseFirst` | src/kernel/kernel/serial.c:91-95 | The swapping loop reverses the digits and leaves the rest of the buffer alone. |
| `Serial.Itoa` | src/kernel/kernel/serial.c:77-96 | For every 32-bit n and base 2 to 36 the buffer holds the numeral of n, NUL-terminated, and the character at j from its right end is the entry of "0123456789abcdefghijklmnopqrstuvwxyz" at n / base^j % base. |
| `Serial.StrCpy` | src/kernel/kernel/serial.c:97-103 | The text and its terminator are written, nothing before or behind them changes, and the result is the length of the text. |
| `Serial.SignedFieldReadsBack` | src/kernel/kernel/serial.c:147-171 | A `%d` field parses back to its signed argument, the smallest int included. |
| `Serial.UnsignedFieldReadsBack` | src/kernel/kernel/serial.c:142-152 | A `%u` field reads back in base 10, and a `%x`, `%p` or `%0` field in base 16, to the argument, or to the argument and 2^32 when it is negative. |
| `Serial.NumberField` | src/kernel/kernel/serial.c:142-171 | By way of the local buffer, sign and digits come out as the field, which the lemmas beside it pin down in base 10 and 16. |
| `Serial.NumberTexts` | src/kernel/kernel/serial.c:142-171 | `%d` is an optional minus and the decimal numeral of the magnitude, `%u` the decimal and `%x`, `%p` and `%0` the hexadecimal numeral of the 32 bits. |
| `Serial.TextTexts` | src/kernel/kernel/serial.c:172-200 | `%s` is the string itself and `%c` the character of the argument's low byte. |
| `Serial.ConversionText` | src/kernel/kernel/serial.c:127-205 | Exactly d, u, x, p, 0, c and s take an argument and put out their field; any other character after `%` takes none and puts out nothing. |
| `Serial.PlainText` | src/kernel/kernel/serial.c:123-212 | A format without `%` comes out as it is. |
| `Serial.RenderConcat` | src/kernel/kernel/serial.c:117-215 | The text of two formats one after the other is the text of the first followed by that of the second, each with its own arguments. |
| `Serial.VsprintfHelper` | src/kernel/kernel/serial.c:105-216 | With a buffer, the characters from the old to the new position are the rendering of the format and those before it are as they were; without one, the characters passed on are that rendering and the position stays. |
| `PowerUp.FromPowerUp` | src/kernel/kernel/liballoc.c:278-465 | From power-up with 4 MiB, a request of any safe size is served exactly when it leaves room in the heap, and once given back leaves nothing live. |
| `PowerUp.FrameComesBack` | src/kernel/kernel/pmm.c:68-99 | With an unaligned base, of two frames taken the first, once given back, is the next one taken. |

## Left out

- calloc and liballoc_memset: a multiplication that may wrap and a filling loop; they would add only easy members.
- The DEBUG printing and dump_array: the two counters are the sums that `Theorems.Conservation` and `Runs.BytesInUse` speak of.
- spin_trylock: nothing calls it.
- LibAlloc.Allocator.Free: the caller owes NULL, a live block, or an address without the magic word; freeing a dead block whose magic word is still there is not defined by the code either. Where no header was ever written the model reads the magic word as 0, while memory may hold anything.
- LibAlloc.Allocator.Realloc: requires that a copy to address 0 ends below every header in use, by `Reallocation.ReallocSafeExactly` the only case in which the state stays in order whatever the block holds. What else lies at low addresses, the kernel and with it the allocator's own globals (`l_freePages`, `heap_cur`, `lock`) below the heap's start, is not part of this model: that the copy leaves them alone is an assumption. Headers no longer in use keep their last value in the records although the copy, or a caller, may write over them. Reading the old size under the lock of its own is not a separate step.
- Overcommit.FooledBySize: the model keeps the header written at the wrapped address apart from the header it lies on, while in memory their words overlap; the invariant is broken either way.
- Runs.RunRefines: the calls are those a caller may make, that is sizes malloc can be trusted with (`Servable`) and addresses that may be freed; by `Overcommit.MallocSafeExactly` no weaker condition on sizes would do. realloc is in a run as the one or two calls it stands for (`Reallocation.ReallocIsARun`), and likewise in a thread, whose copy between them reads and writes blocks it holds.
- Spinlock.EveryInterleaving: a request is made before the lock is taken, so its bound cannot depend on the state; the bound of 2^30 less 32 is the largest that is safe in every state of a heap that ends at or below 2^30. free(NULL) returns before the lock and is no action. That a spinning thread gets its turn is not claimed.
- Bytes of headers and bytes of payloads are kept apart in `LibAlloc`: headers as records, payloads as an array. `Footprint` shows that the headers a call writes never meet a live payload.
- The size and index words of the header split_tag writes are unset in the program and 0 and -1 in the model; index is set before anything reads it, and size before the block is used.
- Whether a signed overflow in C may do anything else than wrap: the model wraps.
- Alignment of payloads: splits happen at any byte offset.
- LibAlloc.Pages.Alloc: the cursor only; the mapping is in `PageHooks.Hooks.LiballocAlloc`. That all live bytes stay mapped is not claimed, because a returned chunk may take the mapping of a page it shares.
- LibAlloc.Pages.Free: the record of what was returned only; the unmapping and the result are in `PageHooks.Hooks.LiballocFree`.
- PageHooks.Hooks.LiballocAlloc: requires of a grant that its end lies below the last page, by `PageTables.RegionLoopsEnd` exactly the case in which the region loop ends.
- FrameBitmap.FramesOverARun: the words behind the bitmap change by these calls only, and `placementaddr` does not move during a run. A base that is not page aligned is required, by `FrameBitmap.RunsSafeExactly` the only case in which the runs are safe.
- pmm_init, kalloc_page_frame_at and set_page_reserved: they index the bitmap by byte address; the runs start from any set of used frames instead.
- PageTables.Directory.AllocatePage: presence and the two access flags of the entry only, not the frame taken for it nor the directory entry's own fields, because a full address is stored in a 20-bit field. A new page table is taken to be fresh and zeroed, whatever dumballoc and memset do beyond it.
- PageTables.Directory.FreePage: likewise not the call that frees the entry's frame.
- PageTables.Directory.AllocateRegion: requires an end below the last page, by `PageTables.RegionLoopsEnd` exactly the case in which the loop ends.
- PageTables.Directory.FreeRegion: requires an end below the last page, for the same reason.
- virt_phys, paging_init and switch_to_page_dir: hardware set-up.
- Serial.VsprintfHelper: requires arguments that suit the conversions, no `%` at the very end (the code would read past the format), and room in the buffer; the buffer does not overlap format or strings, which are values here. Each number field starts from a buffer of its own, where the program reuses one whose contents end at a new terminator each time.
- Port input and output, waiting loops, the terminal, descriptor tables, interrupts, the timer, and `src/libc`.
