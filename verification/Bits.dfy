/** C's bitwise operators on `w`-bit unsigned words, written out on natural numbers bit by bit,
    and the arithmetic they amount to in the places where the sources use them. */
module Bits {
  import opened Bytes

  function And(w: nat, x: nat, y: nat): (r: nat)
    ensures r <= x && r <= y
  {
    if w == 0 then 0 else 2 * And(w - 1, x / 2, y / 2) + (if x % 2 == 1 && y % 2 == 1 then 1 else 0)
  }

  function Or(w: nat, x: nat, y: nat): nat {
    if w == 0 then 0 else 2 * Or(w - 1, x / 2, y / 2) + (if x % 2 == 1 || y % 2 == 1 then 1 else 0)
  }

  function Xor(w: nat, x: nat, y: nat): nat {
    if w == 0 then 0 else 2 * Xor(w - 1, x / 2, y / 2) + (if x % 2 != y % 2 then 1 else 0)
  }

  function Not(w: nat, x: nat): nat {
    if w == 0 then 0 else 2 * Not(w - 1, x / 2) + (1 - x % 2)
  }

  lemma {:induction false} NotIsComplement(w: nat, x: nat)
    requires x < Pow2(w)
    ensures Not(w, x) == Pow2(w) - 1 - x
  {
    if w > 0 {
      NotIsComplement(w - 1, x / 2);
    }
  }

  lemma {:induction false} XorZero(w: nat, x: nat)
    requires x < Pow2(w)
    ensures Xor(w, x, 0) == x
  {
    if w > 0 {
      XorZero(w - 1, x / 2);
    }
  }

  lemma {:induction false} XorOnes(w: nat, x: nat)
    requires x < Pow2(w)
    ensures Xor(w, x, Pow2(w) - 1) == Pow2(w) - 1 - x
  {
    if w > 0 {
      assert (Pow2(w) - 1) / 2 == Pow2(w - 1) - 1;
      XorOnes(w - 1, x / 2);
    }
  }

  lemma {:induction false} AndSelfOnes(w: nat, x: nat)
    requires x < Pow2(w)
    ensures And(w, x, Pow2(w) - 1) == x
  {
    if w > 0 {
      assert (Pow2(w) - 1) / 2 == Pow2(w - 1) - 1;
      AndSelfOnes(w - 1, x / 2);
    }
  }

  lemma {:induction false} OrZero(w: nat, x: nat)
    requires x < Pow2(w)
    ensures Or(w, 0, x) == x
  {
    if w > 0 {
      OrZero(w - 1, x / 2);
    }
  }

  /** Gathering groups with `|`: bits below `s` joined to a value shifted up by `s`. */
  lemma {:induction false} OrIsSum(w: nat, low: nat, high: nat, s: nat)
    requires s <= w && low < Pow2(s) && high < Pow2(w - s)
    ensures Or(w, low, high * Pow2(s)) == low + high * Pow2(s)
  {
    if s == 0 {
      assert high * Pow2(0) == high;
      OrZero(w, high);
    } else {
      var h := high * Pow2(s - 1);
      assert high * Pow2(s) == 2 * h by { assert high * (2 * Pow2(s - 1)) == 2 * (high * Pow2(s - 1)); }
      OrIsSum(w - 1, low / 2, high, s - 1);
    }
  }

  /** `x << s` in `w` bits: what is shifted out is lost. */
  function ShiftLeft(w: nat, x: nat, s: nat): nat {
    (x * Pow2(s)) % Pow2(w)
  }

  lemma ShiftKeeps(w: nat, x: nat, s: nat)
    requires s <= w
    ensures ShiftLeft(w, x, s) == (x % Pow2(w - s)) * Pow2(s)
    ensures x % Pow2(w - s) < Pow2(w - s)
  {
    hide Pow2;
    var p, m := Pow2(s), Pow2(w - s);
    var q, r := x / m, x % m;
    Pow2Add(w - s, s);
    assert x == q * m + r;
    Distribute(q * m, r, p);
    Associate(q, m, p);
    BelowProduct(r, m, p);
    RemainderIs(x * p, m * p, q, r * p);
  }

  lemma Associate(a: nat, b: nat, c: nat)
    ensures (a * b) * c == (b * c) * a
  {}

  lemma BelowProduct(r: nat, m: nat, p: nat)
    requires r < m && p > 0
    ensures r * p < m * p
  {
    Distribute(r, m - r, p);
    assert (m - r) * p > 0;
  }

  /** Joining with `|` what was gathered below bit `s` to something shifted up by `s` adds them. */
  lemma OrShifted(w: nat, low: nat, x: nat, s: nat)
    requires s <= w && low < Pow2(s)
    ensures Or(w, low, ShiftLeft(w, x, s)) == low + ShiftLeft(w, x, s)
  {
    hide Or, ShiftLeft, Pow2;
    ShiftKeeps(w, x, s);
    OrIsSum(w, low, x % Pow2(w - s), s);
  }

  lemma {:induction false} OrCommutes(w: nat, x: nat, y: nat)
    ensures Or(w, x, y) == Or(w, y, x)
  {
    if w > 0 {
      OrCommutes(w - 1, x / 2, y / 2);
    }
  }

  /** The number in the `k` low-order bits of `x`. */
  function LowBits(x: nat, k: nat): (r: nat)
    ensures r <= x
  {
    if k == 0 then 0 else 2 * LowBits(x / 2, k - 1) + x % 2
  }

  lemma {:induction false} LowBitsIsRemainder(x: nat, k: nat)
    ensures LowBits(x, k) == x % Pow2(k)
  {
    if k > 0 {
      LowBitsIsRemainder(x / 2, k - 1);
      HalfModulo(x, Pow2(k - 1));
    }
  }

  /** Masking with `2^k - 1` leaves the low `k` bits. */
  lemma {:induction false} AndLowMask(w: nat, x: nat, k: nat)
    requires k <= w
    ensures And(w, x, Pow2(k) - 1) == LowBits(x, k)
  {
    if k == 0 {
      AndZero(w, x);
    } else {
      AndLowMask(w - 1, x / 2, k - 1);
      assert (Pow2(k) - 1) / 2 == Pow2(k - 1) - 1;
    }
  }

  lemma {:induction false} AndZero(w: nat, x: nat)
    ensures And(w, x, 0) == 0
  {
    if w > 0 {
      AndZero(w - 1, x / 2);
    }
  }

  /** Setting bit `k`, and what is below it. */
  lemma {:induction false} OrSetsBit(w: nat, x: nat, k: nat)
    requires k < w
    ensures LowBits(Or(w, x, Pow2(k)), k + 1) == LowBits(x, k) + Pow2(k)
  {
    var r := Or(w, x, Pow2(k));
    if k == 0 {
      assert r % 2 == 1;
      assert LowBits(r, 1) == 2 * LowBits(r / 2, 0) + r % 2;
    } else {
      OrSetsBit(w - 1, x / 2, k - 1);
      assert r / 2 == Or(w - 1, x / 2, Pow2(k - 1)) && r % 2 == x % 2;
    }
  }

  /** The idioms of base-128 groups: `b & 0x7F`, `(b & 0x80) == 0`, and `(uint8_t)(v | 0x80)`. */
  lemma GroupBits(b: byte)
    ensures And(8, b, 0x7F) == b % 128
    ensures And(8, b, 0x80) == 0 <==> b < 128
  {
    assert Pow2(7) == 128;
    AndLowMask(8, b, 7);
    LowBitsIsRemainder(b, 7);
    AndBit(8, b, 7);
  }

  lemma MoreGroups(w: nat, v: nat)
    requires w > 7
    ensures Or(w, v, 0x80) % 256 == 128 + v % 128
  {
    assert Pow2(7) == 128 && Pow2(8) == 256;
    OrSetsBit(w, v, 7);
    LowBitsIsRemainder(v, 7);
    LowBitsIsRemainder(Or(w, v, 0x80), 8);
  }

  /** The top bit of a word is clear exactly if the word is below its weight. */
  lemma {:induction false} AndBit(w: nat, x: nat, k: nat)
    requires w == k + 1 && x < Pow2(w)
    ensures And(w, x, Pow2(k)) == 0 <==> x < Pow2(k)
  {
    if k > 0 {
      AndBit(w - 1, x / 2, k - 1);
    }
  }

  /** Masking with `~(2^k - 1)` clears the low `k` bits. */
  lemma {:induction false} AndMask(w: nat, x: nat, k: nat)
    requires k <= w && x < Pow2(w)
    ensures And(w, x, Not(w, Pow2(k) - 1)) == x - LowBits(x, k)
  {
    if k == 0 {
      NotIsComplement(w, 0);
      AndSelfOnes(w, x);
    } else {
      AndMask(w - 1, x / 2, k - 1);
      assert (Pow2(k) - 1) / 2 == Pow2(k - 1) - 1;
    }
  }

  lemma HalfModulo(x: nat, m: nat)
    requires m > 0
    ensures 2 * (x / 2 - x / 2 % m) == x - x % (2 * m)
  {
    var q, r := x / 2 / m, x / 2 % m;
    assert x / 2 == m * q + r;
    assert x == 2 * m * q + (2 * r + x % 2);
    assert x % (2 * m) == 2 * r + x % 2 by { RemainderIs(x, 2 * m, q, 2 * r + x % 2); }
  }

  predicate IsPowerOfTwo(a: nat) {
    a > 0 && (a == 1 || (a % 2 == 0 && IsPowerOfTwo(a / 2)))
  }

  lemma {:induction false} Exponent(a: nat) returns (k: nat)
    requires IsPowerOfTwo(a)
    ensures a == Pow2(k)
  {
    if a == 1 {
      k := 0;
    } else {
      k := Exponent(a / 2);
      k := k + 1;
    }
  }

  /** The idiom `(a & (a - 1)) == 0` on a nonzero word. */
  lemma {:induction false} PowerOfTwoTest(w: nat, a: nat)
    requires 0 < a < Pow2(w)
    ensures And(w, a, a - 1) == 0 <==> IsPowerOfTwo(a)
  {
    if a % 2 == 0 {
      assert (a - 1) / 2 == a / 2 - 1;
      PowerOfTwoTest(w - 1, a / 2);
    } else if a > 1 {
      assert (a - 1) / 2 == a / 2;
      AndSelf(w - 1, a / 2);
    }
  }

  lemma {:induction false} AndSelf(w: nat, x: nat)
    requires x < Pow2(w)
    ensures And(w, x, x) == x
  {
    if w > 0 {
      AndSelf(w - 1, x / 2);
    }
  }
}
