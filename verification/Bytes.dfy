/** Bytes, powers of two, little-endian words and base-128 varints: the vocabulary shared by
    the EDF codec, the protobuf codec and the pool's link words. The placement predicate `At` is
    also what the JSON modules use for characters. */
module Bytes {

  type byte = x: int | 0 <= x < 256

  /** The elements of `s` stand in `buf` from index `pos` on. */
  predicate At<T(==)>(buf: seq<T>, pos: nat, s: seq<T>)
    decreases |s|
  {
    s == [] || (pos < |buf| && buf[pos] == s[0] && At(buf, pos + 1, s[1..]))
  }

  lemma {:induction false} AtIsSlice<T>(buf: seq<T>, pos: nat, s: seq<T>)
    requires pos <= |buf|
    ensures At(buf, pos, s) <==> pos + |s| <= |buf| && buf[pos..pos + |s|] == s
    decreases |s|
  {
    if s != [] && pos < |buf| {
      AtIsSlice(buf, pos + 1, s[1..]);
      if pos + |s| <= |buf| {
        assert buf[pos..pos + |s|] == [buf[pos]] + buf[pos + 1..pos + |s|];
        assert s == [s[0]] + s[1..];
      }
    }
  }

  lemma {:induction false} AtSplit<T>(buf: seq<T>, pos: nat, s: seq<T>, t: seq<T>)
    requires At(buf, pos, s + t)
    ensures At(buf, pos, s) && At(buf, pos + |s|, t)
    decreases |s|
  {
    if s == [] {
      assert s + t == t;
    } else {
      assert (s + t)[1..] == s[1..] + t;
      AtSplit(buf, pos + 1, s[1..], t);
    }
  }

  // ---------------------------------------------------------------- powers

  function Pow2(n: nat): (p: nat)
    ensures p >= 1
  {
    if n == 0 then 1 else 2 * Pow2(n - 1)
  }

  lemma {:induction false} Pow2Add(a: nat, b: nat)
    ensures Pow2(a + b) == Pow2(a) * Pow2(b)
  {
    if a > 0 {
      Pow2Add(a - 1, b);
      assert Pow2(a + b) == 2 * Pow2(a - 1 + b);
    }
  }

  lemma {:induction false} Pow2Strict(a: nat, b: nat)
    ensures a < b <==> Pow2(a) < Pow2(b)
    decreases a + b
  {
    if a > 0 && b > 0 {
      Pow2Strict(a - 1, b - 1);
    }
  }

  lemma Pow2Plus7(n: nat)
    ensures Pow2(n + 7) == 128 * Pow2(n)
  {
    Pow2Add(7, n);
    assert Pow2(7) == 128;
  }

  const U32: nat := 0x1_0000_0000
  const U64: nat := 0x1_0000_0000_0000_0000

  lemma WordSizes()
    ensures Pow2(29) == 0x2000_0000 && Pow2(32) == U32 && Pow2(64) == U64
  {
    assert Pow2(3) == 8 && Pow2(8) == 256;
    hide Pow2;
    Pow2Add(8, 8);
    Pow2Add(16, 16);
    Pow2Add(29, 3);
    Pow2Add(32, 32);
  }

  // ---------------------------------------------------------------- little-endian words

  /** The `n` low-order bytes of `v`, least significant first. */
  function LittleEndian(v: nat, n: nat): (s: seq<byte>)
    ensures |s| == n
  {
    if n == 0 then [] else [v % 256] + LittleEndian(v / 256, n - 1)
  }

  function LittleEndianValue(s: seq<byte>): nat {
    if s == [] then 0 else s[0] + 256 * LittleEndianValue(s[1..])
  }

  lemma {:induction false} LittleEndianRoundTrip(v: nat, n: nat)
    requires v < Pow2(8 * n)
    ensures LittleEndianValue(LittleEndian(v, n)) == v
  {
    if n > 0 {
      Pow2Add(8, 8 * (n - 1));
      assert Pow2(8) == 256;
      LittleEndianRoundTrip(v / 256, n - 1);
      assert LittleEndian(v, n)[1..] == LittleEndian(v / 256, n - 1);
    }
  }

  /** Byte `i` of a word is what is left of it above its lowest 8i bits, cut to a byte. */
  lemma {:induction false} LittleEndianAt(v: nat, n: nat, i: nat)
    requires i < n
    ensures LittleEndian(v, n)[i] == v / Pow2(8 * i) % 256
  {
    if i > 0 {
      assert Pow2(8) == 256;
      Pow2Add(8, 8 * (i - 1));
      DivideTwice(v, 256, Pow2(8 * (i - 1)));
      hide Pow2;
      LittleEndianAt(v / 256, n - 1, i - 1);
    }
  }

  lemma RemainderIs(x: nat, m: nat, q: nat, r: nat)
    requires 0 < m && r < m && x == m * q + r
    ensures x % m == r && x / m == q
  {
    var d := x / m - q;
    assert m * (x / m) + x % m == m * q + r;
    assert m * d == r - x % m;
    assert d == 0 by { Between(m, d); }
  }

  lemma Between(m: int, d: int)
    requires m > 0 && -m < m * d < m
    ensures d == 0
  {}

  lemma DivideTwice(v: nat, a: nat, b: nat)
    requires a > 0 && b > 0
    ensures a * b > 0 && v / (a * b) == v / a / b
  {
    QuotientOfBoth(v, a, b, v / a, v % a, v / a / b, v / a % b);
  }

  lemma QuotientOfBoth(v: nat, a: nat, b: nat, q: nat, r: nat, p: nat, w: nat)
    requires a > 0 && b > 0 && v == a * q + r && r < a && q == b * p + w && w < b
    ensures a * b > 0 && v / (a * b) == p
  {
    ProductsSplit(a, b, p, w, r);
    RemainderIs(v, a * b, p, a * w + r);
  }

  lemma ProductsSplit(a: nat, b: nat, p: nat, w: nat, r: nat)
    requires a > 0 && w < b && r < a
    ensures a * (b * p + w) + r == (a * b) * p + (a * w + r)
    ensures a * w + r < a * b
  {
    Distribute(b * p, w, a);
    assert a * (b * p) == (a * b) * p;
    BelowNextMultiple(a, b, w, r);
  }

  lemma BelowNextMultiple(a: nat, b: nat, w: nat, r: nat)
    requires w < b && r < a
    ensures a * w + r < a * b
  {
    var d := b - 1 - w;
    Distribute(w + 1, d, a);
    Distribute(w, 1, a);
    assert d * a >= 0;
  }

  // ---------------------------------------------------------------- varints

  /** Base-128 groups, least significant first, top bit set on all but the last. */
  function Varint(v: nat): (s: seq<byte>)
    ensures s != []
  {
    if v < 128 then [v] else [128 + v % 128] + Varint(v / 128)
  }

  /** What a varint reader leaves behind: its verdict, the bits gathered and its position. */
  datatype VarintRead = VarintRead(ok: bool, value: nat, position: nat)

  /** The seven payload bits of `b`, moved to bit `shift` of a `width`-bit word. */
  function Group(b: byte, shift: nat, width: nat): nat {
    (b % 128 * Pow2(shift)) % Pow2(width)
  }

  /** The read loop from position `pos` on, with `acc` gathered so far and the next group due at
      bit `shift` of a `width`-bit result. */
  function ReadVarint(buf: seq<byte>, pos: nat, acc: nat, shift: nat, width: nat): (r: VarintRead)
    ensures r.position >= pos
    ensures r.ok ==> pos < r.position <= |buf|
    decreases |buf| - pos
  {
    if pos >= |buf| then VarintRead(false, acc, pos)
    else
      var sum := acc + Group(buf[pos], shift, width);
      if buf[pos] < 128 then VarintRead(true, sum, pos + 1)
      else if shift + 7 >= width then VarintRead(false, sum, pos + 1)
      else ReadVarint(buf, pos + 1, sum, shift + 7, width)
  }

  /** The first byte below 128 from `pos` on is the one at `e`, and its group begins below the width. */
  ghost predicate EndsAt(buf: seq<byte>, pos: nat, e: nat, shift: nat, width: nat) {
    && pos <= e < |buf| && buf[e] < 128 && (forall i :: pos <= i < e ==> buf[i] >= 128)
    && shift + 7 * (e - pos) < width
  }

  /** A whole varint of that width stands at `pos`. */
  ghost predicate VarintEnds(buf: seq<byte>, pos: nat, width: nat) {
    exists e: nat :: EndsAt(buf, pos, e, 0, width)
  }

  /** On any bytes a varint is read exactly if a byte below 128 ends it before the groups pass the
      width: within ten bytes for 64 bits, five for 32. The reader then stands behind that byte. */
  lemma {:induction false} ReadVarintIff(buf: seq<byte>, pos: nat, acc: nat, shift: nat, width: nat)
    requires shift < width
    ensures var r := ReadVarint(buf, pos, acc, shift, width);
      && (r.ok <==> exists e: nat :: EndsAt(buf, pos, e, shift, width))
      && (r.ok ==> EndsAt(buf, pos, r.position - 1, shift, width))
    decreases |buf| - pos
  {
    hide Group;
    if pos < |buf| {
      if buf[pos] < 128 {
        assert EndsAt(buf, pos, pos, shift, width);
      } else {
        forall e: nat
          ensures EndsAt(buf, pos, e, shift, width) <==> EndsAt(buf, pos + 1, e, shift + 7, width)
        {
        }
        if shift + 7 < width {
          var sum := acc + Group(buf[pos], shift, width);
          ReadVarintIff(buf, pos + 1, sum, shift + 7, width);
          var r := ReadVarint(buf, pos + 1, sum, shift + 7, width);
          assert r == ReadVarint(buf, pos, acc, shift, width);
          if e: nat :| EndsAt(buf, pos, e, shift, width) {
            assert EndsAt(buf, pos + 1, e, shift + 7, width);
          }
          if r.ok {
            assert EndsAt(buf, pos, r.position - 1, shift, width);
          }
        }
      }
    }
  }

  lemma Distribute(a: int, b: int, p: int)
    ensures (a + b) * p == a * p + b * p
  {}

  lemma SmallModulo(x: nat, bound: nat)
    requires x < bound
    ensures x % bound == x
  {}

  lemma GroupFits(b: byte, shift: nat, width: nat)
    requires b % 128 * Pow2(shift) < Pow2(width)
    ensures Group(b, shift, width) == b % 128 * Pow2(shift)
  {
    SmallModulo(b % 128 * Pow2(shift), Pow2(width));
  }

  /** One group of the arithmetic: with p the weight of the lowest group, v = low + 128 * high. */
  lemma GroupStep(v: nat, low: nat, high: nat, p: nat, bound: nat)
    requires v == low + 128 * high
    requires v * p < bound
    ensures low * p + high * (128 * p) == v * p
    ensures low * p < bound && high * (128 * p) < bound
    ensures high >= 1 ==> 128 * p < bound
  {
    Distribute(low, 128 * high, p);
    assert 128 * high * p == high * (128 * p);
    assert low * p >= 0 && high * (128 * p) >= 0;
    if high >= 1 {
      Distribute(1, high - 1, 128 * p);
      assert (high - 1) * (128 * p) >= 0;
    }
  }

  /** Reading back what was written: the value, and the position just past it. */
  lemma {:induction false} VarintRoundTrip(buf: seq<byte>, pos: nat, v: nat, acc: nat, shift: nat, width: nat)
    requires At(buf, pos, Varint(v))
    requires v * Pow2(shift) < Pow2(width)
    ensures ReadVarint(buf, pos, acc, shift, width)
         == VarintRead(true, acc + v * Pow2(shift), pos + |Varint(v)|)
    decreases v
  {
    hide Pow2, Group;
    var low, high, p := v % 128, v / 128, Pow2(shift);
    GroupStep(v, low, high, p, Pow2(width));
    GroupFits(buf[pos], shift, width);
    if v >= 128 {
      Pow2Plus7(shift);
      Pow2Strict(shift + 7, width);
      assert Varint(v)[1..] == Varint(high);
      VarintRoundTrip(buf, pos + 1, high, acc + low * p, shift + 7, width);
    }
  }

  lemma ReadsBack(buf: seq<byte>, pos: nat, v: nat, width: nat)
    requires At(buf, pos, Varint(v)) && v < Pow2(width)
    ensures ReadVarint(buf, pos, 0, 0, width) == VarintRead(true, v, pos + |Varint(v)|)
  {
    assert v * Pow2(0) == v;
    VarintRoundTrip(buf, pos, v, 0, 0, width);
  }

  /** Byte `i` of a varint carries the seven bits from bit 7i on, and is below 128 exactly if it is the
      last. */
  lemma {:induction false} VarintAt(v: nat, i: nat)
    requires i < |Varint(v)|
    ensures Varint(v)[i] % 128 == v / Pow2(7 * i) % 128
    ensures Varint(v)[i] < 128 <==> i == |Varint(v)| - 1
    ensures i > 0 ==> v / Pow2(7 * i) > 0
    decreases i
  {
    if i > 0 {
      assert Pow2(7) == 128;
      Pow2Add(7, 7 * (i - 1));
      DivideTwice(v, 128, Pow2(7 * (i - 1)));
      hide Pow2;
      VarintAt(v / 128, i - 1);
      PastFirst(v, i);
    }
  }

  lemma PastFirst(v: nat, i: nat)
    requires 0 < i < |Varint(v)|
    ensures v / 128 > 0 && (i - 1 == 0 ==> v / 128 / Pow2(0) > 0)
  {}

  /** A varint of at most 7k bits takes at most k bytes. */
  lemma {:induction false} VarintLength(v: nat, k: nat)
    requires k > 0 && v < Pow2(7 * k)
    ensures |Varint(v)| <= k
  {
    assert Pow2(7) == 128;
    if v >= 128 {
      assert k > 1;
      Pow2Plus7(7 * (k - 1));
      VarintLength(v / 128, k - 1);
    }
  }

  lemma VarintFitsTen(v: nat)
    requires v < U64
    ensures |Varint(v)| <= 10
  {
    WordSizes();
    Pow2Strict(64, 70);
    VarintLength(v, 10);
  }
}
