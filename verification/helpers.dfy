/**
 The two free functions of the allocator's `helper` namespace: the power-of-two
 test used by its assertions and the pointer alignment routine, together with the
 arithmetic facts the rest of the model needs about them.
 */
module Helpers {

  /** Bitwise AND of two naturals, one binary digit at a time from the least significant end. */
  function BitAnd(a: nat, b: nat): nat
    decreases a
  {
    if a == 0 || b == 0 then 0
    else 2 * BitAnd(a / 2, b / 2) + (if a % 2 == 1 && b % 2 == 1 then 1 else 0)
  }

  /** 2 raised to the power k. */
  function Pow2(k: nat): (r: nat)
    ensures r > 0
  {
    if k == 0 then 1 else 2 * Pow2(k - 1)
  }

  /** Floor of the binary logarithm (0 for 0 and 1). */
  function Log2(x: nat): nat
  {
    if x <= 1 then 0 else 1 + Log2(x / 2)
  }

  /** The reference meaning: x is some power of two. */
  ghost predicate IsPowerOfTwo(x: nat)
  {
    exists k: nat :: Pow2(k) == x
  }

  /** The bit trick of `helper::isPower2`: nonzero, and clearing the lowest set bit leaves nothing. */
  predicate IsPower2(x: nat)
  {
    x != 0 && BitAnd(x, x - 1) == 0
  }

  lemma {:induction false} BitAndSelf(y: nat)
    ensures BitAnd(y, y) == y
    decreases y
  {
    if y != 0 {
      BitAndSelf(y / 2);
    }
  }

  lemma BitAndEven(y: nat)
    requires y >= 1
    ensures BitAnd(2 * y, 2 * y - 1) == 2 * BitAnd(y, y - 1)
  {
    assert (2 * y) / 2 == y;
    assert (2 * y - 1) / 2 == y - 1;
  }

  lemma BitAndOdd(y: nat)
    ensures BitAnd(2 * y + 1, 2 * y) == 2 * y
  {
    if y != 0 {
      assert (2 * y + 1) / 2 == y;
      assert (2 * y) / 2 == y;
      BitAndSelf(y);
    }
  }

  /** Every power of two passes the bit test. */
  lemma {:induction false} Pow2IsPower2(k: nat)
    ensures IsPower2(Pow2(k))
  {
    if k > 0 {
      Pow2IsPower2(k - 1);
      BitAndEven(Pow2(k - 1));
    }
  }

  /** Everything that passes the bit test is a power of two, namely 2 to the Log2 of it. */
  lemma {:induction false} Power2IsPow2(x: nat)
    requires IsPower2(x)
    ensures Pow2(Log2(x)) == x
    decreases x
  {
    if x > 1 {
      var y := x / 2;
      if x % 2 == 0 {
        assert x == 2 * y;
        BitAndEven(y);
        Power2IsPow2(y);
      } else {
        assert x == 2 * y + 1;
        BitAndOdd(y);
        assert false;
      }
    }
  }

  /** `isPower2(x)` holds exactly for the powers of two. */
  lemma IsPower2Correct(x: nat)
    ensures IsPower2(x) <==> IsPowerOfTwo(x)
  {
    if IsPower2(x) {
      Power2IsPow2(x);
    }
    if IsPowerOfTwo(x) {
      var k: nat :| Pow2(k) == x;
      Pow2IsPower2(k);
    }
  }

  lemma {:induction false} Pow2Add(i: nat, j: nat)
    ensures Pow2(i + j) == Pow2(i) * Pow2(j)
    decreases j
  {
    if j > 0 {
      Pow2Add(i, j - 1);
    }
  }

  lemma {:induction false} Pow2Monotone(i: nat, j: nat)
    requires i < j
    ensures Pow2(i) < Pow2(j)
    decreases j
  {
    if i < j - 1 {
      Pow2Monotone(i, j - 1);
    }
  }

  lemma MulBounds(a: nat, k: int)
    requires a > 0
    ensures k >= 1 ==> a * k >= a
    ensures k <= -1 ==> a * k + a <= 0
  {
    if k >= 1 {
      assert a * k == a * (k - 1) + a;
      assert a * (k - 1) >= 0;
    }
    if k <= -1 {
      assert a * k == a * (k + 1) - a;
      assert a * (k + 1) <= 0;
    }
  }

  lemma MulMod(a: nat, m: nat)
    requires a > 0
    ensures (a * m) % a == 0
  {
    var q, r := (a * m) / a, (a * m) % a;
    assert a * m == a * q + r;
    assert a * (m - q) == r;
    MulBounds(a, m - q);
  }

  /** A multiple of a multiple of a is a multiple of a. */
  lemma ModTransitive(x: nat, b: nat, a: nat)
    requires a > 0 && b > 0
    requires x % b == 0 && b % a == 0
    ensures x % a == 0
  {
    var m := x / b;
    var n := b / a;
    assert x == b * m;
    assert b == a * n;
    assert x == a * (n * m);
    MulMod(a, n * m);
  }

  /** Sums of multiples of a are multiples of a. */
  lemma ModAdd(x: nat, y: nat, a: nat)
    requires a > 0
    requires x % a == 0 && y % a == 0
    ensures (x + y) % a == 0
  {
    var m := x / a;
    var n := y / a;
    assert x == a * m;
    assert y == a * n;
    assert x + y == a * (m + n);
    MulMod(a, m + n);
  }

  /** If x and x + y are multiples of a, so is y. */
  lemma ModSub(x: nat, y: nat, a: nat)
    requires a > 0
    requires x % a == 0 && (x + y) % a == 0
    ensures y % a == 0
  {
    var m := x / a;
    var n := (x + y) / a;
    assert x == a * m;
    assert x + y == a * n;
    assert y == a * (n - m);
    MulBounds(a, n - m);
    MulMod(a, n - m);
  }

  /** Of two powers of two, the larger is a multiple of the smaller. */
  lemma PowerOfTwoDivides(a: nat, b: nat)
    requires IsPower2(a) && IsPower2(b) && a <= b
    ensures b % a == 0
  {
    Power2IsPow2(a);
    Power2IsPow2(b);
    var i, j := Log2(a), Log2(b);
    if j < i {
      Pow2Monotone(j, i);
    }
    Pow2Add(i, j - i);
    MulMod(a, Pow2(j - i));
  }

  /** Result of `helper::alignPtr`: the aligned address and the adjustment that was added. */
  datatype Aligned = Aligned(addr: nat, adjustment: nat)

  /**
   `helper::alignPtr`: rounds `p` up to the next multiple of `alignment`, reporting
   the number of bytes it moved.
   */
  function AlignPtr(p: nat, alignment: nat): (r: Aligned)
    requires alignment > 0
    ensures r.addr == p + r.adjustment
    ensures r.adjustment < alignment
    ensures r.addr % alignment == 0
    ensures p % alignment == 0 ==> r.adjustment == 0
  {
    var adjustment := alignment - p % alignment;
    if adjustment == alignment then
      Aligned(p, 0)
    else
      RoundUpIsMultiple(p, alignment);
      Aligned(p + adjustment, adjustment)
  }

  lemma RoundUpIsMultiple(p: nat, a: nat)
    requires a > 0
    ensures (p + (a - p % a)) % a == 0
  {
    var q := p / a;
    assert p == a * q + p % a;
    assert p + (a - p % a) == a * (q + 1);
    MulMod(a, q + 1);
  }

  /** The adjustment of `alignPtr` is the only amount below `alignment` that aligns `p`. */
  lemma AlignPtrUnique(p: nat, alignment: nat, d: nat)
    requires alignment > 0
    requires d < alignment && (p + d) % alignment == 0
    ensures d == AlignPtr(p, alignment).adjustment
  {
    var r := AlignPtr(p, alignment);
    var m1 := (p + d) / alignment;
    var m2 := r.addr / alignment;
    assert p + d == alignment * m1;
    assert r.addr == alignment * m2;
    assert d - r.adjustment == alignment * (m1 - m2);
    MulBounds(alignment, m1 - m2);
  }

  /** One past a multiple of the alignment is the worst case: `alignPtr` must add `alignment - 1`. */
  lemma AlignPtrOnePastMultiple(p: nat, alignment: nat)
    requires alignment > 1 && p % alignment == 1
    ensures AlignPtr(p, alignment).adjustment == alignment - 1
  {
    var q := p / alignment;
    assert p == alignment * q + 1;
    assert p + (alignment - 1) == alignment * (q + 1);
    MulMod(alignment, q + 1);
    AlignPtrUnique(p, alignment, alignment - 1);
  }

  /** `alignPtr` returns the least multiple of `alignment` that is at least `p`. */
  lemma AlignPtrIsLeast(p: nat, alignment: nat, q: nat)
    requires alignment > 0
    requires p <= q && q % alignment == 0
    ensures AlignPtr(p, alignment).addr <= q
  {
    var r := AlignPtr(p, alignment);
    if q < r.addr {
      AlignPtrUnique(p, alignment, q - p);
    }
  }
}
