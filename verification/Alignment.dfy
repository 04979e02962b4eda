/** The bit-mask rounding of addresses that the arena (src/mm/memory_view.c) and the shared heap
    (src/mm/shared_heap.c) use. */
module Alignment {
  import opened Bytes
  import opened Bits

  /** `(p + a - 1) & ~(a - 1)` on 64-bit words; for a = 0 the mask `~(0 - 1)` is zero. */
  function AlignUp(p: nat, a: nat): nat
    requires p < U64 && a < U64
  {
    And(64, (p + a + U64 - 1) % U64, Not(64, (a + U64 - 1) % U64))
  }

  lemma WithoutWrap(p: nat, a: nat)
    requires 0 < a < U64 && p + a - 1 < U64
    ensures AlignUp(p, a) == And(64, p + a - 1, Not(64, a - 1))
  {
    hide And, Not;
  }

  lemma MaskClears(p: nat, a: nat, k: nat)
    requires a == Pow2(k) && a < U64 && p + a - 1 < U64
    ensures AlignUp(p, a) == (p + a - 1) - (p + a - 1) % a
  {
    hide *;
    WordSizes();
    Pow2Strict(k, 64);
    WithoutWrap(p, a);
    AndMask(64, p + a - 1, k);
    LowBitsIsRemainder(p + a - 1, k);
  }

  /** For a power of two, and while `p + a - 1` does not wrap, the mask gives the least multiple of
      `a` not below `p`. */
  lemma AlignUpIsLeast(p: nat, a: nat)
    requires IsPowerOfTwo(a) && a < U64 && p + a - 1 < U64
    ensures p <= AlignUp(p, a) < p + a
    ensures AlignUp(p, a) % a == 0
    ensures forall m: nat :: m >= p && m % a == 0 ==> AlignUp(p, a) <= m
  {
    hide AlignUp, Pow2, IsPowerOfTwo;
    var k := Exponent(a);
    MaskClears(p, a, k);
    MultipleBelow(p + a - 1, a);
    forall m: nat | m >= p && m % a == 0
      ensures AlignUp(p, a) <= m
    {
      NextMultiple(AlignUp(p, a), m, a);
    }
  }

  /** Past the last multiple of `a` the sum wraps, and the mask leaves zero. */
  lemma AlignUpWraps(p: nat, a: nat)
    requires IsPowerOfTwo(a) && a < U64 && p < U64 <= p + a - 1
    ensures AlignUp(p, a) == 0
  {
    hide Pow2, IsPowerOfTwo, And, Not, LowBits;
    var k := Exponent(a);
    var x := p + a - 1 - U64;
    WordSizes();
    Pow2Strict(k, 64);
    AndMask(64, x, k);
    LowBitsIsRemainder(x, k);
    SmallModulo(x, a);
  }

  lemma MultipleBelow(x: nat, a: nat)
    requires a > 0
    ensures x % a < a && (x - x % a) % a == 0
  {
    assert x - x % a == a * (x / a);
    RemainderIs(x - x % a, a, x / a, 0);
  }

  /** Two multiples of `a` less than `a` apart are the same. */
  lemma NextMultiple(n: nat, m: nat, a: nat)
    requires a > 0 && n % a == 0 && m % a == 0 && m + a > n
    ensures n <= m
  {
    var i, j := n / a, m / a;
    assert n == a * i && m == a * j;
    assert a * (i - j) < a;
    LessThanOnce(a, i - j);
    MultiplesAscend(a, i, j);
  }

  lemma LessThanOnce(a: int, d: int)
    requires a > 0 && a * d < a
    ensures d <= 0
  {}

  lemma MultiplesAscend(a: nat, i: nat, j: nat)
    requires i <= j
    ensures a * i <= a * j
  {
    assert a * (j - i) >= 0;
    Distribute(i, j - i, a);
  }

  // ---------------------------------------------------------------- padding

  function Wrap(x: nat): nat {
    x % U64
  }

  /** The aligned address less the address, in 64 bits. */
  function Padding(current: nat, a: nat): nat
    requires current < U64 && a < U64
  {
    Wrap(AlignUp(current, a) + U64 - current)
  }

  /** Where the aligned address lies; if rounding up wraps, nothing is left of the address space. */
  lemma PaddingPlaces(current: nat, a: nat)
    requires current < U64 && a < U64 && IsPowerOfTwo(a)
    ensures current + a - 1 < U64 ==> AlignUp(current, a) == current + Padding(current, a) && Padding(current, a) < a
    ensures current + a - 1 >= U64 ==> AlignUp(current, a) == 0 && current + Padding(current, a) == U64
  {
    hide AlignUp, IsPowerOfTwo;
    if current + a - 1 < U64 {
      AlignUpIsLeast(current, a);
    } else {
      AlignUpWraps(current, a);
    }
  }
}
