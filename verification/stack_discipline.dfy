/**
 Sequences of calls: a run of allocations followed by frees. Stack discipline (freeing
 in reverse order) brings the cursor back to where the run began; freeing an earlier
 block instead silently discards every block allocated after it.
 */
module StackDiscipline {
  import opened Wrappers
  import opened Helpers
  import opened StackAllocator

  /** The arguments of one `allocate(size, alignment, offset)` call. */
  datatype Request = Request(size: nat, alignment: nat, offset: nat)

  /** The result of a run of allocations: the final state and every returned pointer, in call order. */
  datatype Run = Run(state: State, addrs: seq<Option<nat>>)

  predicate AllRequestable(s: State, qs: seq<Request>)
  {
    forall i | 0 <= i < |qs| :: CanRequest(s, qs[i].alignment)
  }

  predicate AllSucceeded(r: Run)
  {
    forall i | 0 <= i < |r.addrs| :: r.addrs[i].Some?
  }

  function Reverse<T>(xs: seq<T>): (r: seq<T>)
    ensures |r| == |xs|
    ensures forall i | 0 <= i < |xs| :: r[i] == xs[|xs| - 1 - i]
  {
    if |xs| == 0 then [] else Reverse(xs[1..]) + [xs[0]]
  }

  /** Total size requested by a run. */
  function SumSizes(qs: seq<Request>): nat
  {
    if |qs| == 0 then 0 else qs[0].size + SumSizes(qs[1..])
  }

  /**
   Issue the requests in order. The cursor never moves down during a run, and header
   words lying wholly below the starting cursor are never overwritten.
   */
  function AllocateAll(s: State, qs: seq<Request>): (r: Run)
    requires AllRequestable(s, qs)
    ensures |r.addrs| == |qs|
    ensures SameArena(s, r.state)
    ensures s.top <= r.state.top
    ensures forall k | k in s.headers && k < s.top && k + s.headerSize <= s.top :: k in r.state.headers && r.state.headers[k] == s.headers[k]
    decreases |qs|
  {
    if |qs| == 0 then Run(s, [])
    else
      var a := Allocate(s, qs[0].size, qs[0].alignment, qs[0].offset);
      var rest := AllocateAll(a.state, qs[1..]);
      Run(rest.state, [a.addr] + rest.addrs)
  }

  /** Free the pointers in the order given, stopping at the first undefined read. */
  function FreeAll(s: State, addrs: seq<Option<nat>>): (r: FreeResult)
    ensures r.Rewound? ==> SameArena(s, r.state) && r.state.headers == s.headers
    decreases |addrs|
  {
    if |addrs| == 0 then Rewound(s)
    else
      match Free(s, addrs[0])
      case UndefinedRead => UndefinedRead
      case Rewound(t) => FreeAll(t, addrs[1..])
  }

  lemma {:induction false} FreeAllSnoc(s: State, addrs: seq<Option<nat>>, x: Option<nat>)
    ensures FreeAll(s, addrs + [x]) ==
            match FreeAll(s, addrs)
            case UndefinedRead => UndefinedRead
            case Rewound(t) => Free(t, x)
    decreases |addrs|
  {
    if |addrs| == 0 {
      assert ([] + [x])[1..] == [];
    } else {
      assert (addrs + [x])[1..] == addrs[1..] + [x];
      match Free(s, addrs[0])
      case UndefinedRead =>
      case Rewound(t) => FreeAllSnoc(t, addrs[1..], x);
    }
  }

  /** Unfolds the first step of a non-empty run. */
  lemma AllocateAllStep(s: State, qs: seq<Request>)
    requires AllRequestable(s, qs) && |qs| > 0
    ensures var a := Allocate(s, qs[0].size, qs[0].alignment, qs[0].offset);
            && AllRequestable(a.state, qs[1..])
            && AllocateAll(s, qs) == Run(AllocateAll(a.state, qs[1..]).state, [a.addr] + AllocateAll(a.state, qs[1..]).addrs)
  {
  }

  /**
   The block a successful allocation returned can still be freed after any later run of
   allocations: its header lies below the cursor they started from, so they leave it alone.
   */
  lemma {:induction false} FreeAfterLaterRun(s: State, q: Request, qs: seq<Request>, cursor: nat)
    requires s.headerSize > 0 && CanRequest(s, q.alignment)
    requires Allocate(s, q.size, q.alignment, q.offset).addr.Some?
    requires AllRequestable(Allocate(s, q.size, q.alignment, q.offset).state, qs)
    ensures var a := Allocate(s, q.size, q.alignment, q.offset);
            var t := AllocateAll(a.state, qs).state;
            Free(t.(top := cursor), a.addr) == Rewound(t.(top := s.top))
  {
    var a := Allocate(s, q.size, q.alignment, q.offset);
    var t := AllocateAll(a.state, qs).state;
    var u := a.addr.value;
    if s.headerMode {
      var k := u - s.headerSize;
      assert k in a.state.headers && a.state.headers[k] == u - s.top;
      assert k < a.state.top && k + s.headerSize <= a.state.top;
      assert k in t.headers && t.headers[k] == u - s.top;
      var t' := t.(top := cursor);
      assert HeaderReadable(t', u);
      assert u - t'.headers[k] == s.top;
      assert Free(t', a.addr) == Rewound(t'.(top := u - t'.headers[k]));
    } else {
      assert u == s.top;
    }
  }

  /**
   Stack discipline: after a run of successful allocations, freeing the returned pointers
   in reverse order restores the cursor the run started from; nothing else changes.
   */
  lemma {:induction false} ReverseFreeRestoresTop(s: State, qs: seq<Request>)
    requires s.headerSize > 0 && AllRequestable(s, qs)
    requires AllSucceeded(AllocateAll(s, qs))
    ensures var r := AllocateAll(s, qs);
            FreeAll(r.state, Reverse(r.addrs)) == Rewound(r.state.(top := s.top))
    decreases |qs|
  {
    var r := AllocateAll(s, qs);
    if |qs| > 0 {
      AllocateAllStep(s, qs);
      var a := Allocate(s, qs[0].size, qs[0].alignment, qs[0].offset);
      var rest := AllocateAll(a.state, qs[1..]);
      assert r.addrs == [a.addr] + rest.addrs;
      assert AllSucceeded(rest) by {
        forall i | 0 <= i < |rest.addrs|
          ensures rest.addrs[i].Some?
        {
          assert rest.addrs[i] == r.addrs[i + 1];
        }
      }
      assert r.addrs[0] == a.addr;
      ReverseFreeRestoresTop(a.state, qs[1..]);
      assert ([a.addr] + rest.addrs)[1..] == rest.addrs;
      assert Reverse(r.addrs) == Reverse(rest.addrs) + [a.addr];
      FreeAllSnoc(rest.state, Reverse(rest.addrs), a.addr);
      FreeAfterLaterRun(s, qs[0], qs[1..], a.state.top);
    }
  }

  /**
   Out-of-order free: freeing the i-th block of a successful run rewinds the cursor to
   where it stood before that block was allocated, discarding blocks i+1.. with it.
   */
  lemma {:induction false} FreeDiscardsLaterBlocks(s: State, qs: seq<Request>, i: nat)
    requires s.headerSize > 0 && AllRequestable(s, qs)
    requires AllSucceeded(AllocateAll(s, qs))
    requires i < |qs|
    ensures AllRequestable(s, qs[..i])
    ensures var r := AllocateAll(s, qs);
            Free(r.state, r.addrs[i]) == Rewound(r.state.(top := AllocateAll(s, qs[..i]).state.top))
    decreases i
  {
    var r := AllocateAll(s, qs);
    AllocateAllStep(s, qs);
    var a := Allocate(s, qs[0].size, qs[0].alignment, qs[0].offset);
    var rest := AllocateAll(a.state, qs[1..]);
    assert r.addrs == [a.addr] + rest.addrs;
    assert r.addrs[0] == a.addr;
    if i == 0 {
      assert qs[..0] == [];
      FreeAfterLaterRun(s, qs[0], qs[1..], rest.state.top);
    } else {
      assert AllSucceeded(rest) by {
        forall j | 0 <= j < |rest.addrs|
          ensures rest.addrs[j].Some?
        {
          assert rest.addrs[j] == r.addrs[j + 1];
        }
      }
      assert r.addrs[i] == rest.addrs[i - 1];
      FreeDiscardsLaterBlocks(a.state, qs[1..], i - 1);
      assert qs[..i][0] == qs[0];
      assert qs[..i][1..] == qs[1..][..i - 1];
      AllocateAllStep(s, qs[..i]);
    }
  }

  /** A run starting from a freshly constructed arena, freed in reverse order, empties it again. */
  lemma ReverseFreeEmptiesFreshArena(base: nat, size: nat, alignment: nat, headerMode: bool, headerSize: nat,
                                     qs: seq<Request>)
    requires IsPower2(alignment) && headerSize > 0
    requires AllRequestable(Create(base, size, alignment, headerMode, headerSize), qs)
    requires AllSucceeded(AllocateAll(Create(base, size, alignment, headerMode, headerSize), qs))
    ensures var s := Create(base, size, alignment, headerMode, headerSize);
            var r := AllocateAll(s, qs);
            FreeAll(r.state, Reverse(r.addrs)).Rewound? &&
            FreeAll(r.state, Reverse(r.addrs)).state.top == s.alignedStart
  {
    ReverseFreeRestoresTop(Create(base, size, alignment, headerMode, headerSize), qs);
  }

  /**
   Header-free runs hand out consecutive blocks: the i-th returned address is the start
   cursor plus the sizes of the i blocks before it.
   */
  lemma {:induction false} RunWithoutHeaders(s: State, qs: seq<Request>)
    requires !s.headerMode && AllRequestable(s, qs)
    ensures var r := AllocateAll(s, qs);
            && r.state.top == s.top + SumSizes(qs)
            && forall i | 0 <= i < |qs| :: r.addrs[i] == Some(s.top + SumSizes(qs[..i]))
    decreases |qs|
  {
    if |qs| > 0 {
      AllocateAllStep(s, qs);
      var a := Allocate(s, qs[0].size, qs[0].alignment, qs[0].offset);
      RunWithoutHeaders(a.state, qs[1..]);
      var r := AllocateAll(s, qs);
      var rest := AllocateAll(a.state, qs[1..]);
      forall i | 0 <= i < |qs|
        ensures r.addrs[i] == Some(s.top + SumSizes(qs[..i]))
      {
        if i == 0 {
          assert qs[..0] == [];
        } else {
          assert r.addrs[i] == rest.addrs[i - 1];
          assert qs[..i][1..] == qs[1..][..i - 1];
        }
      }
    }
  }

  lemma {:induction false} SumSizesUniform(qs: seq<Request>, size: nat)
    requires forall i | 0 <= i < |qs| :: qs[i].size == size
    ensures SumSizes(qs) == size * |qs|
    decreases |qs|
  {
    if |qs| > 0 {
      SumSizesUniform(qs[1..], size);
    }
  }

  /** Header-free runs of equal-sized blocks hand out addresses exactly `size` bytes apart. */
  lemma {:induction false} UniformRunWithoutHeaders(s: State, qs: seq<Request>, size: nat)
    requires !s.headerMode && AllRequestable(s, qs)
    requires forall i | 0 <= i < |qs| :: qs[i].size == size
    ensures var r := AllocateAll(s, qs);
            && r.state.top == s.top + size * |qs|
            && forall i | 0 <= i < |qs| :: r.addrs[i] == Some(s.top + size * i)
  {
    RunWithoutHeaders(s, qs);
    SumSizesUniform(qs, size);
    forall i | 0 <= i < |qs|
      ensures SumSizes(qs[..i]) == size * i
    {
      var p := qs[..i];
      assert forall j | 0 <= j < |p| :: p[j].size == size;
      SumSizesUniform(p, size);
    }
  }

  lemma {:induction false} SumSizesMultiple(qs: seq<Request>, a: nat)
    requires a > 0
    requires forall i | 0 <= i < |qs| :: qs[i].size % a == 0
    ensures SumSizes(qs) % a == 0
    decreases |qs|
  {
    if |qs| > 0 {
      SumSizesMultiple(qs[1..], a);
      ModAdd(qs[0].size, SumSizes(qs[1..]), a);
    }
  }

  /** Extending a prefix of a run by one request adds that request's size. */
  lemma {:induction false} SumSizesPrefixStep(qs: seq<Request>, i: nat)
    requires i < |qs|
    ensures SumSizes(qs[..i + 1]) == SumSizes(qs[..i]) + qs[i].size
    decreases i
  {
    if i == 0 {
      assert qs[..1] == [qs[0]];
      assert qs[..0] == [];
    } else {
      SumSizesPrefixStep(qs[1..], i - 1);
      assert qs[..i + 1][1..] == qs[1..][..i];
      assert qs[..i][1..] == qs[1..][..i - 1];
      assert qs[1..][i - 1] == qs[i];
    }
  }

  /** From an aligned start, the sizes of i leading multiples of the alignment keep it aligned. */
  lemma {:induction false} PrefixSumAligned(top: nat, qs: seq<Request>, alignment: nat, i: nat)
    requires alignment > 0 && top % alignment == 0 && i <= |qs|
    requires forall j | 0 <= j < i :: qs[j].size % alignment == 0
    ensures (top + SumSizes(qs[..i])) % alignment == 0
  {
    var p := qs[..i];
    assert forall j | 0 <= j < |p| :: p[j].size % alignment == 0;
    SumSizesMultiple(p, alignment);
    ModAdd(top, SumSizes(p), alignment);
  }

  /**
   The header-free mode's alignment guarantee under its documented precondition: from
   an aligned cursor, if every size is a multiple of the alignment, every returned
   address is aligned. `MisalignedSizeBreaksRun` is the converse.
   */
  lemma {:induction false} AlignedRunWithoutHeaders(s: State, qs: seq<Request>, alignment: nat)
    requires !s.headerMode && AllRequestable(s, qs)
    requires alignment > 0 && s.top % alignment == 0
    requires forall i | 0 <= i < |qs| :: qs[i].size % alignment == 0
    ensures var r := AllocateAll(s, qs);
            forall i | 0 <= i < |qs| :: r.addrs[i].Some? && r.addrs[i].value % alignment == 0
  {
    RunWithoutHeaders(s, qs);
    forall i | 0 <= i < |qs|
      ensures (s.top + SumSizes(qs[..i])) % alignment == 0
    {
      PrefixSumAligned(s.top, qs, alignment, i);
    }
  }

  /**
   The converse: from an aligned cursor, the first size in a header-free run that is not
   a multiple of the alignment misaligns the address handed out right after it.
   */
  lemma {:induction false} MisalignedSizeBreaksRun(s: State, qs: seq<Request>, alignment: nat, j: nat)
    requires !s.headerMode && AllRequestable(s, qs)
    requires alignment > 0 && s.top % alignment == 0
    requires j + 1 < |qs|
    requires forall i | 0 <= i < j :: qs[i].size % alignment == 0
    requires qs[j].size % alignment != 0
    ensures AllocateAll(s, qs).addrs[j + 1].Some?
    ensures AllocateAll(s, qs).addrs[j + 1].value % alignment != 0
  {
    RunWithoutHeaders(s, qs);
    PrefixSumAligned(s.top, qs, alignment, j);
    SumSizesPrefixStep(qs, j);
    var x := s.top + SumSizes(qs[..j]);
    if (x + qs[j].size) % alignment == 0 {
      ModSub(x, qs[j].size, alignment);
    }
  }

  /**
   Header-mode runs of unaligned blocks of equal size: each allocation costs the size
   plus one header, and they all succeed while that much room is left.
   */
  lemma {:induction false} UnalignedRunWithHeaders(s: State, qs: seq<Request>, size: nat)
    requires s.headerMode
    requires forall i | 0 <= i < |qs| :: qs[i] == Request(size, 1, 0)
    requires s.top + (size + s.headerSize) * |qs| <= s.end
    ensures AllRequestable(s, qs)
    ensures var r := AllocateAll(s, qs);
            && AllSucceeded(r)
            && r.state.top == s.top + (size + s.headerSize) * |qs|
    decreases |qs|
  {
    assert IsPower2(1);
    var c := size + s.headerSize;
    var n := |qs|;
    if n > 0 {
      assert c * n == c * (n - 1) + c;
      assert c * (n - 1) >= 0;
      AllocateAllStep(s, qs);
      var a := Allocate(s, size, 1, 0);
      AllocateExceedingSucceedsWhenRoomExists(s, size, 1, 0, s.top + s.headerSize);
      UnalignedHeaderCost(s, size, 0);
      assert a.state.top == s.top + c;
      UnalignedRunWithHeaders(a.state, qs[1..], size);
      var r := AllocateAll(s, qs);
      var rest := AllocateAll(a.state, qs[1..]);
      assert r.addrs == [a.addr] + rest.addrs;
      forall i | 0 <= i < |r.addrs|
        ensures r.addrs[i].Some?
      {
        if i > 0 {
          assert r.addrs[i] == rest.addrs[i - 1];
        }
      }
    }
  }
}
