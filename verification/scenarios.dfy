/**
 Concrete call sequences: the demo program's allocations, the header doc comment's
 capacity example, and small arenas at the edge of their capacity.
 */
module Scenarios {
  import opened Wrappers
  import opened Helpers
  import opened StackAllocator
  import opened StackDiscipline

  /**
   The demo program: a 1024-byte arena with initial alignment 4 in the default (header)
   mode, then `allocate(4, 4)`, `allocate(3, 4)`, `allocate(4, 4)`. For any `base` and any
   header size up to 64 bytes, all three succeed at strictly increasing, 4-aligned
   addresses; freeing the third and allocating `(4, 4)` again yields the same address.
   */
  lemma DemoProgram(base: nat, headerSize: nat)
    requires 0 < headerSize <= 64
    ensures assert IsPower2(4);
            var s0 := Create(base, 1024, 4, true, headerSize);
            var a0 := Allocate(s0, 4, 4, 0);
            var a1 := Allocate(a0.state, 3, 4, 0);
            var a2 := Allocate(a1.state, 4, 4, 0);
            && a0.addr.Some? && a1.addr.Some? && a2.addr.Some?
            && a0.addr.value < a1.addr.value < a2.addr.value
            && a0.addr.value % 4 == 0 && a1.addr.value % 4 == 0 && a2.addr.value % 4 == 0
            && Free(a2.state, a2.addr).Rewound?
            && Allocate(Free(a2.state, a2.addr).state, 4, 4, 0).addr == a2.addr
  {
    assert IsPower2(4);
    var s0 := Create(base, 1024, 4, true, headerSize);
    var a0 := Allocate(s0, 4, 4, 0);
    var a1 := Allocate(a0.state, 3, 4, 0);
    var a2 := Allocate(a1.state, 4, 4, 0);
    AllocateFreeRoundTrip(a1.state, 4, 4, 0);
    AllocateIgnoresHeaders(a1.state, Free(a2.state, a2.addr).state, 4, 4, 0);
  }

  /**
   A 16-byte arena aligned to 8 on a 64-bit target (8-byte header): `allocate(16, 8)`
   does not fit beside its header, `allocate(8, 8)` fills the arena exactly.
   */
  lemma SixteenBytesWideHeader(base: nat)
    ensures assert IsPower2(8);
            var s := Create(base, 16, 8, true, 8);
            && Allocate(s, 16, 8, 0).addr.None?
            && Allocate(s, 8, 8, 0).addr == Some(s.alignedStart + 8)
            && Allocate(s, 8, 8, 0).state.top == s.end
  {
    assert IsPower2(8);
    var s := Create(base, 16, 8, true, 8);
    ModAdd(s.alignedStart, 8, 8);
    ExactFitSucceeds(s, 8, 0);
  }

  /**
   The same arena on a 32-bit target (4-byte header): the header pushes the block off
   its 8-byte boundary, so `allocate(16 - 4, 8)` needs 4 bytes of padding and fails.
   */
  lemma SixteenBytesNarrowHeader(base: nat)
    ensures assert IsPower2(8);
            var s := Create(base, 16, 8, true, 4);
            Allocate(s, 12, 8, 0).addr.None?
  {
    assert IsPower2(8);
    var s := Create(base, 16, 8, true, 4);
    assert s.top % 8 == 0;
    assert (s.top + 4) % 8 == 4;
    assert AlignPtr(s.top + 4, 8).adjustment == 4;
  }

  /**
   A failed header-mode allocation is not side-effect free: on a 4-byte arena at
   address 16, `allocate(0, 16)` with an 8-byte header returns null yet leaves the
   cursor past the end of the arena.
   */
  lemma FailedAllocationPassesEnd()
    ensures assert IsPower2(4) && IsPower2(16);
            var s := Create(16, 4, 4, true, 8);
            var r := Allocate(s, 0, 16, 0);
            r.addr.None? && r.state.top == 24 && s.end == 20 && r.state.top > s.end
  {
    Pow2IsPower2(2);
    Pow2IsPower2(4);
    assert AlignPtr(16, 4) == Aligned(16, 0);
    var s := Create(16, 4, 4, true, 8);
    assert s.alignedStart == 16 && s.end == 20 && s.top == 16;
    assert AlignPtr(24, 16) == Aligned(32, 8);
  }

  /** n requests of `allocate(4, 4)`. */
  function FourByteRequests(n: nat): (qs: seq<Request>)
    ensures |qs| == n
    ensures forall i | 0 <= i < n :: qs[i] == Request(4, 4, 0)
  {
    seq(n, _ => Request(4, 4, 0))
  }

  /**
   Header-free arena of 4n bytes aligned to 4: n calls of `allocate(4, 4)` return the
   aligned start and then addresses exactly 4 bytes apart.
   */
  lemma HeaderFreeSteps(base: nat, n: nat, headerSize: nat)
    requires headerSize > 0
    ensures assert IsPower2(4);
            var s := Create(base, 4 * n, 4, false, headerSize);
            AllRequestable(s, FourByteRequests(n)) &&
            var r := AllocateAll(s, FourByteRequests(n));
            && r.state.top == s.end
            && forall i | 0 <= i < n :: r.addrs[i] == Some(s.alignedStart + 4 * i)
  {
    assert IsPower2(4);
    UniformRunWithoutHeaders(Create(base, 4 * n, 4, false, headerSize), FourByteRequests(n), 4);
  }

  /** n requests of `allocate(1, 1)`. */
  function ByteRequests(n: nat): (qs: seq<Request>)
    ensures |qs| == n
    ensures forall i | 0 <= i < n :: qs[i] == Request(1, 1, 0)
  {
    seq(n, _ => Request(1, 1, 0))
  }

  /**
   The capacity example of the header doc comment, with the flag read the way the code
   reads it (true selects headers): with a 4-byte header a 1024-byte arena serves 204
   single-byte allocations, 5 bytes each, and the 205th returns null.
   */
  lemma ByteAllocationsWithHeaders(base: nat)
    ensures assert IsPower2(4);
            var s := Create(base, 1024, 4, true, 4);
            AllRequestable(s, ByteRequests(204)) &&
            var r := AllocateAll(s, ByteRequests(204));
            && AllSucceeded(r)
            && r.state.top == s.alignedStart + 1020
            && (assert IsPower2(1); Allocate(r.state, 1, 1, 0).addr.None?)
  {
    assert IsPower2(4);
    assert IsPower2(1);
    var s := Create(base, 1024, 4, true, 4);
    UnalignedRunWithHeaders(s, ByteRequests(204), 1);
    var r := AllocateAll(s, ByteRequests(204));
    assert r.state.top == s.alignedStart + 1020;
    UnalignedHeaderCost(r.state, 1, 0);
  }

  /** Without headers an n-byte arena serves n single-byte allocations, at consecutive addresses. */
  lemma ByteAllocationsWithoutHeaders(base: nat, n: nat, headerSize: nat)
    requires headerSize > 0
    ensures assert IsPower2(4);
            var s := Create(base, n, 4, false, headerSize);
            AllRequestable(s, ByteRequests(n)) &&
            var r := AllocateAll(s, ByteRequests(n));
            && r.state.top == s.end
            && forall i | 0 <= i < n :: r.addrs[i] == Some(s.alignedStart + i)
  {
    assert IsPower2(4);
    assert IsPower2(1);
    UniformRunWithoutHeaders(Create(base, n, 4, false, headerSize), ByteRequests(n), 1);
  }
}
