/**
 The stack allocator: one buffer obtained at construction, a single `top` cursor
 that allocations bump and frees rewind, and two allocation strategies chosen once
 at construction — with a per-allocation header (needed for alignments stronger than
 the initial one, and for `offset`) or without one.

 Addresses are naturals and the null pointer is `None`. The bytes of user blocks are
 not modelled; the header words the allocator writes are, as a map from header address
 to the stored adjustment.
 */
module StackAllocator {
  import opened Wrappers
  import opened Helpers

  /** The members of `StackAllocator`, with the cursor union collapsed into `top`. */
  datatype State = State(
    base: nat,              // mStartUnaligned: the address malloc returned
    reserved: nat,          // number of bytes requested from malloc
    alignedStart: nat,      // mStartAligned
    end: nat,               // mEnd
    initialAlignment: nat,  // mInitialAlignment
    headerMode: bool,       // mExceedingInitialAlignment
    headerSize: nat,        // sizeof(AllocationHeader), which is sizeof(size_t)
    top: nat,               // asByte / asVoid
    headers: map<nat, nat>) // AllocationHeader::adjustment words still intact, by header address

  /** What `allocate` leaves behind: the new state and the returned pointer. */
  datatype Allocation = Allocation(state: State, addr: Option<nat>)

  /**
   What `free` leaves behind. `UndefinedRead` stands for a header-mode free of an
   address in front of which no header was ever written (the source then reads
   indeterminate memory) or whose stored adjustment would rewind below address 0.
   */
  datatype FreeResult = Rewound(state: State) | UndefinedRead

  /** Everything fixed at construction agrees; only the cursor and the header words may differ. */
  predicate SameArena(s: State, t: State)
  {
    s == t.(top := s.top, headers := s.headers)
  }

  /** Two header words of `width` bytes at addresses `k` and `at` share at least one byte. */
  predicate Overlaps(k: nat, at: nat, width: nat)
  {
    at < k + width && k < at + width
  }

  /**
   Writing a header word of `width` bytes at `at` destroys every other header word it
   overlaps: their bytes are partly overwritten, so none of them can be read back.
   */
  function EraseOverlapping(m: map<nat, nat>, at: nat, width: nat): (r: map<nat, nat>)
    ensures forall k :: k in r <==> k in m && !Overlaps(k, at, width)
    ensures forall k | k in r :: r[k] == m[k]
  {
    map k | k in m && !Overlaps(k, at, width) :: m[k]
  }

  /** No two header words the model holds share a byte. */
  predicate HeadersDisjoint(s: State)
  {
    forall k1, k2 | k1 in s.headers && k2 in s.headers && k1 != k2 :: !Overlaps(k1, k2, s.headerSize)
  }

  /** A header word the allocator could have written: inside the arena, and rewinding no lower than its start. */
  predicate HeaderFits(s: State, k: nat)
    requires k in s.headers
  {
    && s.alignedStart <= k
    && k + s.headerSize <= s.end
    && s.headerSize <= s.headers[k]
    && s.alignedStart + s.headers[k] <= k + s.headerSize
  }

  /** The invariant every operation keeps (a header-free `free` only when given an address inside the arena). */
  predicate Inv(s: State)
  {
    && IsPower2(s.initialAlignment)
    && s.headerSize > 0
    && s.alignedStart <= s.top
    && (forall k | k in s.headers :: HeaderFits(s, k))
    && HeadersDisjoint(s)
  }

  /** The constructor: reserve `size + alignment - 1` bytes at `base` and align the start. */
  function Create(base: nat, size: nat, alignment: nat, headerMode: bool, headerSize: nat): (s: State)
    requires IsPower2(alignment)
    requires headerSize > 0
    ensures s.alignedStart % alignment == 0
    ensures base <= s.alignedStart < base + alignment
    ensures s.end == s.alignedStart + size
    ensures s.top == s.alignedStart
    ensures s.reserved == size + alignment - 1
    ensures s.base == base && s.end <= s.base + s.reserved
    ensures s.headers == map[]
    ensures s.headerMode == headerMode && s.initialAlignment == alignment && s.headerSize == headerSize
    ensures Inv(s)
  {
    var start := AlignPtr(base, alignment).addr;
    State(base, size + alignment - 1, start, start + size, alignment, headerMode, headerSize, start, map[])
  }

  /**
   `allocateExceedingInitialAlignment`: place a header, then a block of `size` bytes
   whose address plus `offset` is a multiple of `alignment`. The cursor is moved to the
   candidate header address before the bounds check, so a failed call still consumes
   the padding. Writing the new header word destroys any stale one it overlaps.
   */
  function AllocateExceeding(s: State, size: nat, alignment: nat, offset: nat): (r: Allocation)
    requires IsPower2(alignment)
    ensures SameArena(s, r.state)
    ensures s.top <= r.state.top
    ensures r.addr.Some? ==>
              var u := r.addr.value;
              && s.top + s.headerSize <= u < s.top + s.headerSize + alignment
              && (u + offset) % alignment == 0
              && r.state.top == u + size <= s.end
              && r.state.headers == EraseOverlapping(s.headers, u - s.headerSize, s.headerSize)[u - s.headerSize := u - s.top]
    ensures r.addr.None? ==>
              && r.state.top < s.top + alignment
              && (r.state.top + s.headerSize + offset) % alignment == 0
              && r.state.top + s.headerSize + size > s.end
              && r.state.headers == s.headers
  {
    var total := size + s.headerSize;
    var aligned := AlignPtr(s.top + s.headerSize + offset, alignment);
    var headerAddr := aligned.addr - s.headerSize - offset;
    if headerAddr + total > s.end then
      Allocation(s.(top := headerAddr), None)
    else
      Allocation(s.(top := headerAddr + total,
                    headers := EraseOverlapping(s.headers, headerAddr, s.headerSize)[headerAddr := aligned.adjustment + s.headerSize]),
                 Some(headerAddr + s.headerSize))
  }

  /**
   `allocateNotExceedingInitialAlignment`: hand out the cursor and bump it. There is
   no bounds check and no alignment correction, so the call never returns null.
   */
  function AllocateNotExceeding(s: State, size: nat, alignment: nat): (r: Allocation)
    requires IsPower2(alignment) && alignment <= s.initialAlignment
    ensures SameArena(s, r.state) && r.state.headers == s.headers
    ensures r.addr == Some(s.top)
    ensures r.state.top == s.top + size
  {
    Allocation(s.(top := s.top + size), Some(s.top))
  }

  /** The precondition the source asserts before either strategy runs. */
  predicate CanRequest(s: State, alignment: nat)
  {
    IsPower2(alignment) && (!s.headerMode ==> alignment <= s.initialAlignment)
  }

  /** `allocate`: dispatch on the mode fixed at construction. */
  function Allocate(s: State, size: nat, alignment: nat, offset: nat): (r: Allocation)
    requires CanRequest(s, alignment)
    ensures SameArena(s, r.state)
    ensures s.top <= r.state.top
    ensures r.addr.None? ==> s.headerMode
    ensures r.addr.Some? && s.headerMode ==> (r.addr.value + offset) % alignment == 0
    ensures r.addr.Some? ==> r.state.top == r.addr.value + size
    ensures forall k | k in s.headers && k < s.top && k + s.headerSize <= s.top ::
              k in r.state.headers && r.state.headers[k] == s.headers[k]
  {
    if s.headerMode then
      LowHeadersSurvive(s, size, alignment, offset);
      AllocateExceeding(s, size, alignment, offset)
    else AllocateNotExceeding(s, size, alignment)
  }

  /** A header-mode allocation writes at or above the cursor, so header words wholly below it survive. */
  lemma LowHeadersSurvive(s: State, size: nat, alignment: nat, offset: nat)
    requires IsPower2(alignment)
    ensures var r := AllocateExceeding(s, size, alignment, offset);
            forall k | k in s.headers && k < s.top && k + s.headerSize <= s.top ::
              k in r.state.headers && r.state.headers[k] == s.headers[k]
  {
    var r := AllocateExceeding(s, size, alignment, offset);
    if r.addr.Some? {
      var at := r.addr.value - s.headerSize;
      forall k | k in s.headers && k < s.top && k + s.headerSize <= s.top
        ensures k in r.state.headers && r.state.headers[k] == s.headers[k]
      {
        assert !Overlaps(k, at, s.headerSize);
        assert k != at;
      }
    }
  }

  /** A header word the source can read back in front of user address `u` without rewinding below 0. */
  predicate HeaderReadable(s: State, u: nat)
  {
    u >= s.headerSize && u - s.headerSize in s.headers && s.headers[u - s.headerSize] <= u
  }

  /** `free`: null is ignored; otherwise rewind the cursor, unvalidated. */
  function Free(s: State, addr: Option<nat>): (r: FreeResult)
    ensures addr.None? ==> r == Rewound(s)
    ensures r.Rewound? ==> SameArena(s, r.state) && r.state.headers == s.headers
    ensures addr.Some? && !s.headerMode ==> r == Rewound(s.(top := addr.value))
    ensures addr.Some? && s.headerMode ==> (r.Rewound? <==> HeaderReadable(s, addr.value))
    ensures addr.Some? && s.headerMode && r.Rewound? ==>
              r.state.top + s.headers[addr.value - s.headerSize] == addr.value
  {
    match addr
    case None => Rewound(s)
    case Some(u) =>
      if !s.headerMode then Rewound(s.(top := u))
      else if HeaderReadable(s, u) then Rewound(s.(top := u - s.headers[u - s.headerSize]))
      else UndefinedRead
  }

  /** `reset`: the cursor goes back to the aligned start; header words stay in memory. */
  function Reset(s: State): (r: State)
    ensures SameArena(s, r) && r.headers == s.headers
    ensures r.top == s.alignedStart
  {
    s.(top := s.alignedStart)
  }

  // ---------------------------------------------------------------------------
  // Properties of single operations
  // ---------------------------------------------------------------------------

  /**
   A header-mode allocation fails only when no placement fits: if any user address `u`
   past the cursor and a header, aligned at `offset`, leaves room for `size` bytes, the
   call succeeds, at `u` or lower.
   */
  lemma AllocateExceedingSucceedsWhenRoomExists(s: State, size: nat, alignment: nat, offset: nat, u: nat)
    requires IsPower2(alignment)
    requires s.top + s.headerSize <= u && (u + offset) % alignment == 0 && u + size <= s.end
    ensures AllocateExceeding(s, size, alignment, offset).addr.Some?
    ensures AllocateExceeding(s, size, alignment, offset).addr.value <= u
  {
    AlignPtrIsLeast(s.top + s.headerSize + offset, alignment, u + offset);
  }

  /** A header-mode allocation from an aligned cursor with exactly the remaining room succeeds and fills the arena. */
  lemma ExactFitSucceeds(s: State, alignment: nat, offset: nat)
    requires IsPower2(alignment)
    requires (s.top + s.headerSize + offset) % alignment == 0 && s.top + s.headerSize <= s.end
    ensures var r := AllocateExceeding(s, s.end - s.top - s.headerSize, alignment, offset);
            r.addr == Some(s.top + s.headerSize) && r.state.top == s.end
  {
  }

  /**
   A failed header-mode allocation moves the cursor by its padding; retrying the same
   request then fails again without moving it further.
   */
  lemma FailedRetryIsStable(s: State, size: nat, alignment: nat, offset: nat)
    requires IsPower2(alignment)
    requires AllocateExceeding(s, size, alignment, offset).addr.None?
    ensures var t := AllocateExceeding(s, size, alignment, offset).state;
            AllocateExceeding(t, size, alignment, offset) == Allocation(t, None)
  {
  }

  /**
   With alignment 1 there is no padding: a header-mode allocation succeeds exactly when
   its size plus one header fits, and then costs exactly that.
   */
  lemma UnalignedHeaderCost(s: State, size: nat, offset: nat)
    ensures assert IsPower2(1);
            var r := AllocateExceeding(s, size, 1, offset);
            && (r.addr.Some? <==> s.top + s.headerSize + size <= s.end)
            && (r.addr.Some? ==> r.state.top == s.top + s.headerSize + size)
  {
    assert IsPower2(1);
    if s.top + s.headerSize + size <= s.end {
      AllocateExceedingSucceedsWhenRoomExists(s, size, 1, offset, s.top + s.headerSize);
    }
  }

  /** In header-free mode the offset argument is ignored. */
  lemma OffsetIgnoredWithoutHeaders(s: State, size: nat, alignment: nat, offset1: nat, offset2: nat)
    requires !s.headerMode && CanRequest(s, alignment)
    ensures Allocate(s, size, alignment, offset1) == Allocate(s, size, alignment, offset2)
    ensures Allocate(s, size, alignment, offset1).addr == Some(s.top)
  {
  }

  /** The outcome of `allocate` depends on the cursor, not on header words left in memory. */
  lemma AllocateIgnoresHeaders(s: State, t: State, size: nat, alignment: nat, offset: nat)
    requires CanRequest(s, alignment)
    requires t == s.(headers := t.headers)
    ensures Allocate(s, size, alignment, offset).addr == Allocate(t, size, alignment, offset).addr
    ensures Allocate(s, size, alignment, offset).state.top == Allocate(t, size, alignment, offset).state.top
  {
  }

  /** Freeing what `allocate` just returned puts the cursor back exactly where it was. */
  lemma AllocateFreeRoundTrip(s: State, size: nat, alignment: nat, offset: nat)
    requires CanRequest(s, alignment)
    requires Allocate(s, size, alignment, offset).addr.Some?
    ensures var r := Allocate(s, size, alignment, offset);
            Free(r.state, r.addr) == Rewound(r.state.(top := s.top))
  {
    var r := Allocate(s, size, alignment, offset);
    var u := r.addr.value;
    if s.headerMode {
      var at := u - s.headerSize;
      assert r.state.headers[at] == u - s.top;
      assert HeaderReadable(r.state, u);
      assert Free(r.state, r.addr) == Rewound(r.state.(top := u - (u - s.top)));
    }
  }

  /** In header-free mode allocate-then-free restores the whole state. */
  lemma AllocateFreeRoundTripWithoutHeaders(s: State, size: nat, alignment: nat, offset: nat)
    requires !s.headerMode && CanRequest(s, alignment)
    ensures var r := Allocate(s, size, alignment, offset);
            Free(r.state, r.addr) == Rewound(s)
  {
  }

  lemma ResetIdempotent(s: State)
    ensures Reset(Reset(s)) == Reset(s)
  {
  }

  /**
   After `reset`, an arena is its freshly constructed self except for the header words
   still in memory, and the next allocation behaves as on the fresh arena.
   */
  lemma ResetMatchesFresh(s: State, base: nat, size: nat, alignment: nat, headerSize: nat,
                          rsize: nat, ralignment: nat, roffset: nat)
    requires IsPower2(alignment) && headerSize > 0
    requires SameArena(s, Create(base, size, alignment, s.headerMode, headerSize))
    requires CanRequest(s, ralignment)
    ensures Reset(s) == Create(base, size, alignment, s.headerMode, headerSize).(headers := s.headers)
    ensures var initial := Create(base, size, alignment, s.headerMode, headerSize);
            Allocate(Reset(s), rsize, ralignment, roffset).addr == Allocate(initial, rsize, ralignment, roffset).addr
  {
    var initial := Create(base, size, alignment, s.headerMode, headerSize);
    AllocateIgnoresHeaders(initial, Reset(s), rsize, ralignment, roffset);
  }

  /**
   The constructor's padding is exactly enough: whatever `base` malloc returns, the arena
   fits in the reserved bytes, and for a `base` one past a multiple of the alignment it
   fills them to the last byte.
   */
  lemma ReservationIsTight(base: nat, size: nat, alignment: nat, headerMode: bool, headerSize: nat)
    requires IsPower2(alignment) && headerSize > 0
    requires base % alignment == 1 % alignment
    ensures var s := Create(base, size, alignment, headerMode, headerSize);
            s.end == s.base + s.reserved
  {
    if alignment > 1 {
      AlignPtrOnePastMultiple(base, alignment);
    }
  }

  /**
   On a fresh header-free arena the first block is aligned for every alignment the mode
   admits, because smaller powers of two divide the initial alignment.
   */
  lemma FreshArenaAlignedWithoutHeaders(base: nat, size: nat, alignment: nat, headerSize: nat,
                                       rsize: nat, ralignment: nat)
    requires IsPower2(alignment) && headerSize > 0
    requires IsPower2(ralignment) && ralignment <= alignment
    ensures var r := Allocate(Create(base, size, alignment, false, headerSize), rsize, ralignment, 0);
            r.addr.Some? && r.addr.value % ralignment == 0
  {
    var s := Create(base, size, alignment, false, headerSize);
    PowerOfTwoDivides(ralignment, alignment);
    ModTransitive(s.alignedStart, alignment, ralignment);
  }

  // ---------------------------------------------------------------------------
  // The invariant
  // ---------------------------------------------------------------------------

  lemma AllocatePreservesInv(s: State, size: nat, alignment: nat, offset: nat)
    requires Inv(s) && CanRequest(s, alignment)
    ensures Inv(Allocate(s, size, alignment, offset).state)
  {
    var r := Allocate(s, size, alignment, offset);
    forall k | k in r.state.headers
      ensures HeaderFits(r.state, k)
    {
      if k !in s.headers || s.headers[k] != r.state.headers[k] {
        assert s.headerMode && r.addr.Some? && k == r.addr.value - s.headerSize;
      }
    }
    if s.headerMode && r.addr.Some? {
      var at := r.addr.value - s.headerSize;
      forall k1, k2 | k1 in r.state.headers && k2 in r.state.headers && k1 != k2
        ensures !Overlaps(k1, k2, s.headerSize)
      {
        if k1 != at && k2 != at {
          assert k1 in s.headers && k2 in s.headers;
        }
      }
    }
  }

  /**
   A header-mode `free` never rewinds below the arena's start when the header word in front
   of the address is one the model still holds (one that no later header write has
   overlapped); a header-free one does not when the address lies at or above the start.
   */
  lemma FreePreservesInv(s: State, addr: Option<nat>)
    requires Inv(s) && Free(s, addr).Rewound?
    requires !s.headerMode && addr.Some? ==> s.alignedStart <= addr.value
    ensures Inv(Free(s, addr).state)
  {
    if addr.Some? && s.headerMode {
      assert HeaderFits(s, addr.value - s.headerSize);
    }
  }

  lemma ResetPreservesInv(s: State)
    requires Inv(s)
    ensures Inv(Reset(s))
  {
  }
}
