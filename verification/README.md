# StackAllocator in Dafny

A model of `StackAllocator`, a fixed-capacity stack (bump) allocator over one buffer.
The constructor reserves `size + alignment - 1` bytes and rounds the start up to the
initial alignment. Allocations bump a single cursor, `top`. `free` rewinds the cursor and
`reset` sends it back to the aligned start. One of two strategies is fixed at construction:

* **header mode** (`exceedingInitialAlignment == true`): each block is preceded by an
  `AllocationHeader { adjustment }`. This mode admits any power-of-two alignment and an
  `offset` at which alignment is guaranteed. A request that does not fit returns null.
* **header-free mode**: the cursor is handed out and bumped by `size`. There is no bounds
  check and no alignment correction.

Addresses are `nat`. The null pointer is `Option.None`. The address malloc returns is a
parameter (`base`). `sizeof(AllocationHeader)` is a parameter fixed at construction
(`headerSize > 0`). The operations and the general lemmas hold for every header size, so
they cover 32-bit and 64-bit targets alike. The header-mode scenarios fix one: 4 or 8 bytes,
or any size up to 64 in `Scenarios.DemoProgram`. The header words written into the buffer are kept as a
`map<nat, nat>` from header address to stored value. A `free` never erases one, because
freeing does not clear memory. Writing a new header word erases every stored word it
overlaps, because those bytes now hold the new value.

Files:

* `wrappers.dfy`: `Option`.
* `helpers.dfy`: the `helper` namespace (`isPower2`, `alignPtr`) and the arithmetic facts about it.
* `stack_allocator.dfy`: the allocator state, its operations, single-call properties and the invariant.
* `stack_discipline.dfy`: runs of allocations and frees. Covers LIFO restoration and out-of-order free.
* `scenarios.dfy`: concrete call sequences from the demo program and the doc comments.

## Where the code and its comments disagree (the model follows the code)

* A failed header-mode allocation moves the cursor. `asByte` is reassigned to the candidate
  header address before the bounds check (StackAllocator.cpp:73-77), so a null result still
  advances `top` by the padding. This can push `top` past `end`
  (`Scenarios.FailedAllocationPassesEnd`). A description in which a rejected allocation leaves
  the cursor unchanged is true only when no padding was needed.
* The stored adjustment is `padding + sizeof(AllocationHeader)` (StackAllocator.cpp:81). That
  is the distance from the user pointer back to the old cursor, not from the header address.
* The header size is `sizeof(size_t)`, not the 4 bytes the doc comment names
  (StackAllocator.h:29). Whether a tight request fits depends on it:
  `Scenarios.SixteenBytesWideHeader` and `Scenarios.SixteenBytesNarrowHeader`.
* The constructor's doc comment calls the flag `notExceedingInitialAlignment`, and the
  capacity example describes the two settings swapped (StackAllocator.h:13, 93-100). In the
  code `true` selects headers. `Scenarios.ByteAllocationsWithHeaders` proves the
  example's 204-allocation count for `true`.
* `free` validates nothing except null. It checks neither ownership nor order.

## Model

| member | source | states |
|---|---|---|
| `Helpers.IsPower2Correct` | StackAllocator.cpp:7-9 | the bit test `x != 0 && x & (x-1) == 0` holds exactly when x is 2^k for some k |
| `Helpers.PowerOfTwoDivides` | StackAllocator.cpp:53-54 | of two power-of-two alignments, the larger is a multiple of the smaller |
| `Helpers.AlignPtr` | StackAllocator.cpp:11-16 | the result is `p + adjustment` with `0 <= adjustment < alignment`, is a multiple of the alignment, and an aligned `p` is returned unchanged |
| `Helpers.AlignPtrUnique` | StackAllocator.cpp:11-16 | the adjustment is the only amount below the alignment that aligns `p` |
| `Helpers.AlignPtrIsLeast` | StackAllocator.cpp:11-16 | the result is the least multiple of the alignment that is at least `p` |
| `StackAllocator.Create` | StackAllocator.cpp:19-51 | the aligned start is a multiple of the alignment and lies in `[base, base + alignment)`; `end = start + size`; the cursor is at the start; `size + alignment - 1` bytes are reserved and contain the arena; mode and header size are recorded; no headers exist yet; the invariant holds |
| `StackAllocator.ReservationIsTight` | StackAllocator.cpp:34-41 | the worst-case padding is needed: for `base` one past a multiple of the alignment, the arena ends exactly at the last reserved byte |
| `StackAllocator.AllocateExceeding` | StackAllocator.cpp:63-89 | on success the user address is one header past the cursor plus less than one alignment of padding; the address plus the offset is aligned; the block ends at or before `end` and becomes the new cursor; the header word in front of the block holds the distance back to the old cursor, and every stored header word it overlaps is gone. On null, the cursor has moved by the padding only, to the aligned header position; the block would not have fitted; headers are unchanged. The arena's fixed fields never change |
| `StackAllocator.AllocateExceedingSucceedsWhenRoomExists` | StackAllocator.cpp:70-77 | null is returned only when no aligned placement after the cursor fits; otherwise the block is placed at the lowest such address |
| `StackAllocator.ExactFitSucceeds` | StackAllocator.cpp:73-77 | from a cursor that needs no padding, a request for exactly the remaining room succeeds and fills the arena |
| `StackAllocator.FailedRetryIsStable` | StackAllocator.cpp:73-77 | after a failed header-mode allocation, repeating the same request fails again and leaves the state as it is |
| `StackAllocator.UnalignedHeaderCost` | StackAllocator.cpp:68-86 | with alignment 1 there is no padding: a header-mode allocation succeeds exactly when its size plus one header fits, and then consumes exactly that |
| `StackAllocator.AllocateNotExceeding` | StackAllocator.cpp:53-61 | returns the cursor, never null, advances it by `size` with no bounds check, writes no header |
| `StackAllocator.Allocate` | StackAllocator.cpp:92-97 | only header mode can return null; in header mode a returned address plus the offset is aligned; a successful call leaves the cursor at the end of the block; the cursor never moves down; the mode and the other construction-time fields never change; every header word lying wholly below the old cursor survives with its value |
| `StackAllocator.LowHeadersSurvive` | StackAllocator.cpp:73-86 | a header-mode allocation writes its header at or above the cursor, so it overlaps no header word lying wholly below the cursor and leaves each of them as it was |
| `StackAllocator.OffsetIgnoredWithoutHeaders` | StackAllocator.cpp:92-97 | in header-free mode the result does not depend on `offset`, and the returned address is the cursor |
| `StackAllocator.AllocateIgnoresHeaders` | StackAllocator.cpp:63-97 | the returned address and new cursor depend on the cursor and the arena, not on header words left in memory |
| `StackAllocator.Free` | StackAllocator.cpp:99-109 | null is a no-op; header-free mode sets the cursor to the address; header mode subtracts the header word in front of the address and succeeds exactly when that word can be read; only the cursor changes |
| `StackAllocator.AllocateFreeRoundTrip` | StackAllocator.cpp:79-103 | freeing the address a successful allocation just returned restores the cursor exactly, in either mode |
| `StackAllocator.AllocateFreeRoundTripWithoutHeaders` | StackAllocator.cpp:53-107 | in header-free mode allocate-then-free restores the whole state |
| `StackAllocator.Reset` | StackAllocator.cpp:111-113 | the cursor returns to the aligned start; nothing else changes |
| `StackAllocator.ResetIdempotent` | StackAllocator.cpp:111-113 | resetting twice is the same as resetting once |
| `StackAllocator.ResetMatchesFresh` | StackAllocator.h:48-53 | after a reset the arena equals the freshly constructed one except for stale header words, and the next allocation returns what it would on the fresh arena |
| `StackAllocator.FreshArenaAlignedWithoutHeaders` | StackAllocator.cpp:48-58 | on a fresh header-free arena the first block is aligned for every alignment the mode admits (powers of two up to the initial alignment) |
| `StackAllocator.AllocatePreservesInv` | StackAllocator.cpp:63-97 | allocation keeps the cursor at or above the start, every header word inside the arena and rewinding no lower than the start, and the stored header words pairwise non-overlapping |
| `StackAllocator.FreePreservesInv` | StackAllocator.cpp:99-109 | a header-mode free never rewinds below the aligned start; a header-free free does not when given an address at or above it |
| `StackAllocator.ResetPreservesInv` | StackAllocator.cpp:111-113 | reset keeps the invariant |
| `StackDiscipline.AllocateAll` | StackAllocator.cpp:92-97 | a run of allocations never moves the cursor down, keeps the arena's fixed fields, and leaves every header word lying wholly below its starting cursor untouched |
| `StackDiscipline.FreeAll` | StackAllocator.cpp:99-109 | a run of frees changes nothing but the cursor |
| `StackDiscipline.FreeAfterLaterRun` | StackAllocator.cpp:79-103 | a block can be freed after any later run of allocations, and this rewinds to the cursor before that block |
| `StackDiscipline.ReverseFreeRestoresTop` | StackAllocator.h:40-46 | after N successful allocations, freeing the results in reverse order restores the starting cursor, in either mode |
| `StackDiscipline.FreeDiscardsLaterBlocks` | StackAllocator.cpp:99-109 | freeing the i-th block of a run rewinds to the cursor before it, discarding every later block without any check |
| `StackDiscipline.ReverseFreeEmptiesFreshArena` | StackAllocator.cpp:48-50 | a run on a fresh arena freed in reverse order brings the cursor back to the aligned start |
| `StackDiscipline.RunWithoutHeaders` | StackAllocator.cpp:53-61 | in header-free mode the i-th address is the start cursor plus the sizes of the earlier blocks |
| `StackDiscipline.UniformRunWithoutHeaders` | StackAllocator.cpp:53-61 | header-free blocks of equal size are handed out exactly `size` bytes apart |
| `StackDiscipline.AlignedRunWithoutHeaders` | StackAllocator.h:81-88 | under the mode's precondition (an aligned start cursor and sizes that are multiples of the alignment) every header-free address is aligned |
| `StackDiscipline.MisalignedSizeBreaksRun` | StackAllocator.h:81-88 | the converse: from an aligned cursor, the first size that is not a multiple of the alignment makes the next address unaligned |
| `StackDiscipline.UnalignedRunWithHeaders` | StackAllocator.cpp:68-86 | header-mode runs of equal unaligned blocks all succeed while room remains, and each costs its size plus one header |
| `Scenarios.DemoProgram` | main.cpp:53-58 | on the demo's 1024/4 arena, `allocate(4,4)`, `allocate(3,4)`, `allocate(4,4)` succeed at strictly increasing 4-aligned addresses; freeing the third and reallocating returns the same address |
| `Scenarios.SixteenBytesWideHeader` | StackAllocator.cpp:68-77 | with an 8-byte header, a 16-byte arena aligned to 8 rejects `allocate(16,8)`, and `allocate(8,8)` fills it exactly |
| `Scenarios.SixteenBytesNarrowHeader` | StackAllocator.cpp:68-77 | with a 4-byte header, `allocate(12,8)` on the same arena fails because of padding |
| `Scenarios.FailedAllocationPassesEnd` | StackAllocator.cpp:73-77 | a null-returning allocation can leave the cursor beyond `end` |
| `Scenarios.HeaderFreeSteps` | StackAllocator.cpp:53-61 | n calls of `allocate(4,4)` on a 4n-byte header-free arena return the aligned start and then addresses 4 bytes apart, filling it |
| `Scenarios.ByteAllocationsWithHeaders` | StackAllocator.h:96-100 | with 4-byte headers a 1024-byte header-mode arena serves 204 one-byte allocations and rejects the 205th |
| `Scenarios.ByteAllocationsWithoutHeaders` | StackAllocator.h:93-94 | without headers an n-byte arena serves n one-byte allocations at consecutive addresses |

## Left out

* Acquiring and releasing the backing region: the `::malloc` call (StackAllocator.cpp:41), its unchecked null result, and the destructor's `::free` (StackAllocator.cpp:115-117). `base` is an input, and `reserved` records how many bytes were requested.
* Byte contents of user blocks. User writes that clobber header words are outside the model. Header writes that overlap an older header word are modelled: the older word is erased, and a later `free` through it yields `UndefinedRead`.
* The `asByte`/`asVoid` union. Both views always denote the same address, so the model has one cursor.
* Machine width. `size_t` and pointer arithmetic do not wrap, and `isPower2`'s `int` parameter does not truncate large `size_t` alignments. All quantities are unbounded naturals.
* The private, never-defined copy constructor and assignment operator (StackAllocator.h:65-67). They have no behaviour.
* The demo client code in main.cpp: `MyClass` operator new/delete, printf, and the `#if 0` blocks. Only its allocation calls appear, as `Scenarios.DemoProgram`.
* Thread safety. The source has none and claims none.
* The `assert` calls (StackAllocator.cpp:27, 54, 64) are preconditions (`IsPower2`, `CanRequest`). A violating call is outside the model, not an error result.
* Free: a header-mode free of an address with no header word in front of it reads indeterminate memory in the source. The model returns `UndefinedRead` for it, and also when the stored value would rewind below address 0.
* StackDiscipline.ReverseFreeRestoresTop: only covers runs in which every allocation succeeded. A failed header-mode allocation inside a run moves the cursor by its padding, and `free(null)` cannot undo that.
