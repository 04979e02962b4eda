/** The fixed-size block pool (src/mm/pool.c). Free blocks are chained through pointers kept in
    their own first bytes; `bitmap` holds the first of them. */
module Pool {
  import opened Bytes

  /** The pool's buffer: `count` blocks of `blockSize` bytes from address `base`; a pointer is
      `width` bytes, and fits there. Null is 0. */
  datatype Layout = Layout(base: nat, blockSize: nat, count: nat, width: nat)
  {
    ghost predicate Valid() {
      && base > 0 && width > 0 && blockSize >= width
      && 0 < count < U32
      && base + count * blockSize < Pow2(8 * width)
    }

    function Offset(i: nat): nat {
      i * blockSize
    }

    function Address(i: nat): nat {
      base + Offset(i)
    }

    function Size(): nat {
      count * blockSize
    }
  }

  /** Blocks lie inside the buffer, one after the other. */
  lemma {:induction false} OffsetsAscend(g: Layout, i: nat, j: nat)
    requires i < j
    ensures g.Offset(i) + g.blockSize <= g.Offset(j)
    decreases j
  {
    hide Layout.Offset;
    OneMoreBlock(g, i);
    if i + 1 < j {
      OffsetsAscend(g, i, j - 1);
      OneMoreBlock(g, j - 1);
    }
  }

  lemma OneMoreBlock(g: Layout, i: nat)
    ensures g.Offset(i + 1) == g.Offset(i) + g.blockSize
  {
    Distribute(i, 1, g.blockSize);
  }

  lemma OffsetInside(g: Layout, i: nat)
    requires g.Valid() && i < g.count
    ensures g.Offset(i) + g.width <= g.Offset(i) + g.blockSize <= g.Size()
    ensures 0 < g.Address(i) < Pow2(8 * g.width)
  {
    OffsetsAscend(g, i, g.count);
  }

  lemma OffsetsApart(g: Layout, i: nat, j: nat)
    requires i != j
    ensures g.Offset(i) + g.blockSize <= g.Offset(j) || g.Offset(j) + g.blockSize <= g.Offset(i)
  {
    if i < j {
      OffsetsAscend(g, i, j);
    } else {
      OffsetsAscend(g, j, i);
    }
  }

  // ---------------------------------------------------------------- words in memory

  /** `*(uintptr_t *)` at offset `at`. */
  function Word(m: seq<byte>, at: nat, width: nat): nat
    requires at + width <= |m|
  {
    LittleEndianValue(m[at..at + width])
  }

  /** Memory in which only the bytes from `from` to `to` may differ. */
  ghost predicate SameOutside(m: seq<byte>, m': seq<byte>, from: nat, to: nat) {
    |m| == |m'| && forall i :: 0 <= i < |m| && !(from <= i < to) ==> m[i] == m'[i]
  }

  lemma WordKept(m: seq<byte>, m': seq<byte>, from: nat, to: nat, at: nat, width: nat)
    requires SameOutside(m, m', from, to) && at + width <= |m|
    requires at + width <= from || to <= at
    ensures Word(m', at, width) == Word(m, at, width)
  {
    assert m'[at..at + width] == m[at..at + width];
  }

  // ---------------------------------------------------------------- the chain

  /** The blocks' starts, in order, are linked from `head` and end in null. */
  ghost predicate Chained(g: Layout, m: seq<byte>, head: nat, chain: seq<nat>) {
    && g.Valid() && |m| == g.Size()
    && (forall k :: 0 <= k < |chain| ==> chain[k] < g.count)
    && head == Link(g, chain, 0)
    && forall k :: 0 <= k < |chain| ==> Points(g, m, chain[k], Link(g, chain, k + 1))
  }

  /** The address of the chain's block `k`, null past its end. */
  function Link(g: Layout, chain: seq<nat>, k: nat): nat {
    if k < |chain| then g.Address(chain[k]) else 0
  }

  /** Block `i` holds this pointer. */
  ghost predicate Points(g: Layout, m: seq<byte>, i: nat, target: nat) {
    g.Offset(i) + g.width <= |m| && Word(m, g.Offset(i), g.width) == target
  }

  ghost predicate Distinct(chain: seq<nat>) {
    forall j, k :: 0 <= j < k < |chain| ==> chain[j] != chain[k]
  }

  /** Bytes changed inside a block off the chain leave the chain as it is. */
  lemma ChainKept(g: Layout, m: seq<byte>, m': seq<byte>, head: nat, chain: seq<nat>, i: nat)
    requires Chained(g, m, head, chain) && i !in chain && i < g.count
    requires SameOutside(m, m', g.Offset(i), g.Offset(i) + g.blockSize)
    ensures Chained(g, m', head, chain)
  {
    hide Word, Layout.Offset;
    forall k | 0 <= k < |chain|
      ensures Points(g, m', chain[k], Link(g, chain, k + 1))
    {
      assert Points(g, m, chain[k], Link(g, chain, k + 1));
      OffsetsApart(g, i, chain[k]);
      WordKept(m, m', g.Offset(i), g.Offset(i) + g.blockSize, g.Offset(chain[k]), g.width);
    }
  }

  /** Putting block `i` in front of the chain. */
  lemma ChainPushed(g: Layout, m: seq<byte>, head: nat, chain: seq<nat>, i: nat)
    requires Chained(g, m, head, chain) && i < g.count && Points(g, m, i, head)
    ensures Chained(g, m, g.Address(i), [i] + chain)
  {
    hide Word, Layout.Offset;
    var c := [i] + chain;
    forall k | 0 <= k < |c|
      ensures Points(g, m, c[k], Link(g, c, k + 1))
    {
      if k > 0 {
        assert c[k] == chain[k - 1] && Link(g, c, k + 1) == Link(g, chain, k);
      }
    }
  }

  lemma ChainPopped(g: Layout, m: seq<byte>, head: nat, chain: seq<nat>)
    requires Chained(g, m, head, chain) && chain != []
    ensures Points(g, m, chain[0], Link(g, chain, 1))
    ensures Chained(g, m, Link(g, chain, 1), chain[1..])
  {
    hide Word, Layout.Offset, Points;
    var c := chain[1..];
    assert Points(g, m, chain[0], Link(g, chain, 1));
    forall k | 0 <= k < |c|
      ensures Points(g, m, c[k], Link(g, c, k + 1))
    {
      assert Points(g, m, chain[k + 1], Link(g, chain, k + 2));
    }
  }

  class Pool {
    const g: Layout
    const memory: array<byte>
    /** `pool->bitmap` */
    var head: nat
    var freeBlocks: nat
    /** The free blocks in chain order; the outstanding ones. */
    ghost var chain: seq<nat>
    ghost var out: set<nat>

    /** The chain has `freeBlocks` blocks of the buffer, each once, and every block is either on it
        or outstanding. */
    ghost predicate Valid()
      reads this, memory
    {
      && Chained(g, memory[..], head, chain)
      && Distinct(chain) && |chain| == freeBlocks
      && forall i :: i in out <==> 0 <= i < g.count && i !in chain
    }

    /** Free and outstanding blocks together are all of them. */
    lemma Conservation()
      requires Valid()
      ensures |out| + freeBlocks == g.count
    {
      var all := Below(g.count);
      var listed := Members(chain);
      assert out == all - listed && listed <= all;
    }

    /** `*(uintptr_t *)ptr = v` for the start of block `i`, byte by byte. */
    method StoreWord(ptr: nat, v: nat, ghost i: nat)
      requires g.Valid() && memory.Length == g.Size() && i < g.count && ptr == g.Address(i) && v < Pow2(8 * g.width)
      modifies memory
      ensures SameOutside(old(memory[..]), memory[..], g.Offset(i), g.Offset(i) + g.blockSize)
      ensures Points(g, memory[..], i, v)
    {
      OffsetInside(g, i);
      var at := ptr - g.base;
      StoreBytes(at, v);
      LittleEndianRoundTrip(v, g.width);
      assert memory[..][at..at + g.width] == memory[at..at + g.width];
    }

    method StoreBytes(at: nat, v: nat)
      requires at + g.width <= memory.Length
      modifies memory
      ensures memory[at..at + g.width] == LittleEndian(v, g.width)
      ensures forall i :: 0 <= i < memory.Length && !(at <= i < at + g.width) ==> memory[i] == old(memory[i])
    {
      var rest := v;
      for k := 0 to g.width
        invariant forall i :: 0 <= i < memory.Length && !(at <= i < at + g.width) ==> memory[i] == old(memory[i])
        invariant memory[at..at + k] + LittleEndian(rest, g.width - k) == LittleEndian(v, g.width)
      {
        memory[at + k] := rest % 256;
        rest := rest / 256;
      }
    }

    /** `*(uintptr_t *)ptr` */
    method LoadWord(ptr: nat, ghost i: nat) returns (v: nat)
      requires g.Valid() && memory.Length == g.Size() && i < g.count && ptr == g.Address(i)
      ensures Points(g, memory[..], i, v)
    {
      OffsetInside(g, i);
      v := Word(memory[..], ptr - g.base, g.width);
    }

    /** `mp_pool_init`: links each block to the one behind it, the last to null. */
    constructor (layout: Layout, buffer: array<byte>)
      requires layout.Valid() && buffer.Length == layout.Size()
      modifies buffer
      ensures g == layout && memory == buffer
      ensures Valid() && out == {} && freeBlocks == layout.count
    {
      g, memory := layout, buffer;
      freeBlocks := layout.count;
      head := layout.base;
      chain := seq(layout.count, i => i);
      out := {};
      new;
      LinkAll();
      InitialChain(g, memory[..], head, chain);
    }

    /** The loop of `mp_pool_init`, which follows the links it lays. */
    method LinkAll()
      requires g.Valid() && memory.Length == g.Size()
      modifies memory
      ensures forall k :: 0 <= k < g.count ==> Points(g, memory[..], k, Behind(g, k))
    {
      hide Points, Layout.Offset, SameOutside, Word;
      FirstAddress(g);
      var ptr := g.base;
      var i := 0;
      while i < g.count - 1
        invariant i < g.count && ptr == g.Address(i)
        invariant forall k :: 0 <= k < i ==> Points(g, memory[..], k, Behind(g, k))
      {
        ghost var before := memory[..];
        OffsetInside(g, i + 1);
        NextAddress(g, i);
        StoreWord(ptr, ptr + g.blockSize, i);
        PointsKept(g, before, memory[..], i);
        var next := LoadWord(ptr, i);
        OnePointer(g, memory[..], i, next, g.Address(i + 1));
        ptr := next;
        i := i + 1;
      }
      ghost var before := memory[..];
      StoreWord(ptr, 0, i);
      PointsKept(g, before, memory[..], i);
    }

    /** `mp_pool_alloc`: null exactly when every block is outstanding; otherwise a block that was
        not, and memory is untouched. */
    method Alloc() returns (ptr: nat, ghost i: nat)
      requires Valid()
      modifies this`head, this`freeBlocks, this`chain, this`out
      ensures Valid()
      ensures ptr == 0 <==> forall j :: 0 <= j < g.count ==> j in old(out)
      ensures ptr == 0 ==> out == old(out) && freeBlocks == old(freeBlocks)
      ensures ptr != 0 ==> i < g.count && i !in old(out) && ptr == g.Address(i) && out == old(out) + {i}
      ensures ptr != 0 ==> freeBlocks == old(freeBlocks) - 1
    {
      hide Points, Layout.Offset, Layout.Address, Word;
      i := 0;
      if freeBlocks == 0 {
        return 0, i;
      }
      ptr := head;
      i := chain[0];
      OffsetInside(g, i);
      ChainPopped(g, memory[..], head, chain);
      var next := LoadWord(ptr, i);
      OnePointer(g, memory[..], i, next, Link(g, chain, 1));
      head := next;
      freeBlocks := freeBlocks - 1;
      chain := chain[1..];
      out := out + {i};
    }

    /** `mp_pool_free`, of an outstanding block. */
    method Free(ptr: nat, ghost i: nat)
      requires Valid() && i in out && ptr == g.Address(i)
      modifies this`head, this`freeBlocks, this`chain, this`out, memory
      ensures Valid() && out == old(out) - {i} && freeBlocks == old(freeBlocks) + 1
      ensures SameOutside(old(memory[..]), memory[..], g.Offset(i), g.Offset(i) + g.blockSize)
    {
      hide Points, Layout.Offset, Layout.Address, SameOutside, Word;
      ghost var before := memory[..];
      HeadFits(g, before, head, chain);
      StoreWord(ptr, head, i);
      ChainKept(g, before, memory[..], head, chain, i);
      ChainPushed(g, memory[..], head, chain, i);
      head := ptr;
      freeBlocks := freeBlocks + 1;
      chain := [i] + chain;
      out := out - {i};
    }

    /** What the client does with the block it was given: it may write any byte of it. */
    method ClientWrite(ptr: nat, k: nat, b: byte, ghost i: nat)
      requires Valid() && i in out && ptr == g.Address(i) && k < g.blockSize
      modifies memory
      ensures Valid() && memory.Length == g.Size()
      ensures SameOutside(old(memory[..]), memory[..], g.Offset(i) + k, g.Offset(i) + k + 1)
      ensures g.Offset(i) + k < memory.Length && memory[g.Offset(i) + k] == b
    {
      ghost var before := memory[..];
      OffsetInside(g, i);
      memory[ptr - g.base + k] := b;
      ChainKept(g, before, memory[..], head, chain, i);
    }
  }

  /** The address of the block behind block `k`, null behind the last. */
  function Behind(g: Layout, k: nat): nat {
    if k + 1 < g.count then g.Address(k + 1) else 0
  }

  lemma PointsKept(g: Layout, m: seq<byte>, m': seq<byte>, i: nat)
    requires g.Valid() && i < g.count && SameOutside(m, m', g.Offset(i), g.Offset(i) + g.blockSize)
    ensures forall k, t :: 0 <= k < g.count && k != i && Points(g, m, k, t) ==> Points(g, m', k, t)
  {
    hide Word, Layout.Offset;
    forall k, t | 0 <= k < g.count && k != i && Points(g, m, k, t)
      ensures Points(g, m', k, t)
    {
      OffsetsApart(g, i, k);
      WordKept(m, m', g.Offset(i), g.Offset(i) + g.blockSize, g.Offset(k), g.width);
    }
  }

  lemma OnePointer(g: Layout, m: seq<byte>, i: nat, s: nat, t: nat)
    requires Points(g, m, i, s) && Points(g, m, i, t)
    ensures s == t
  {}

  lemma FirstAddress(g: Layout)
    ensures g.Address(0) == g.base
  {}

  lemma NextAddress(g: Layout, i: nat)
    ensures g.Address(i) + g.blockSize == g.Address(i + 1)
  {
    Distribute(i, 1, g.blockSize);
  }

  lemma HeadFits(g: Layout, m: seq<byte>, head: nat, chain: seq<nat>)
    requires Chained(g, m, head, chain)
    ensures head < Pow2(8 * g.width)
  {
    if chain != [] {
      OffsetInside(g, chain[0]);
    }
  }

  lemma InitialChain(g: Layout, m: seq<byte>, head: nat, chain: seq<nat>)
    requires g.Valid() && |m| == g.Size() && head == g.base
    requires |chain| == g.count && forall k :: 0 <= k < g.count ==> chain[k] == k
    requires forall k :: 0 <= k < g.count ==> Points(g, m, k, Behind(g, k))
    ensures Chained(g, m, head, chain) && Distinct(chain)
    ensures forall k :: 0 <= k < g.count ==> k in chain
  {
    hide Points, Layout.Offset, Layout.Address, Layout.Size, Pow2;
    FirstAddress(g);
    forall k | 0 <= k < |chain|
      ensures Points(g, m, chain[k], Link(g, chain, k + 1))
    {
      InitialLink(g, chain, k);
      assert Points(g, m, k, Behind(g, k));
    }
    forall k | 0 <= k < g.count
      ensures k in chain
    {
      assert chain[k] == k;
    }
  }

  lemma InitialLink(g: Layout, chain: seq<nat>, k: nat)
    requires k < |chain| == g.count && forall j :: 0 <= j < g.count ==> chain[j] == j
    ensures chain[k] == k && Link(g, chain, k + 1) == Behind(g, k)
  {}

  /** The block numbers, and the members of a chain, as sets of the right size. */
  function Below(n: nat): (s: set<nat>)
    ensures |s| == n && forall i :: i in s <==> 0 <= i < n
  {
    if n == 0 then {} else Below(n - 1) + {n - 1}
  }

  ghost function Members(chain: seq<nat>): (s: set<nat>)
    requires Distinct(chain)
    ensures |s| == |chain| && forall i :: i in s <==> i in chain
  {
    if chain == [] then {} else {chain[0]} + Members(chain[1..])
  }
}
