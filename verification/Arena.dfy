/** The bump-pointer arena of src/mm/memory_view.c. Addresses and sizes are 64-bit words, and every
    sum is cut to 64 bits as the source's is. */
module Arena {
  import opened Bytes
  import opened Bits
  import opened Alignment

  /** Memory handed out: where, how much, and the alignment asked for. */
  datatype Region = Region(start: nat, length: nat, alignment: nat)

  /** The check `(alignment & (alignment - 1)) == 0`. Zero passes it. */
  predicate PassesTest(a: nat)
    requires a < U64
  {
    And(64, a, (a + U64 - 1) % U64) == 0
  }

  lemma TestMeans(a: nat)
    requires a < U64
    ensures PassesTest(a) <==> a == 0 || IsPowerOfTwo(a)
  {
    hide And, IsPowerOfTwo, Pow2;
    if a > 0 {
      WordSizes();
      PowerOfTwoTest(64, a);
    }
  }

  predicate Aligned(p: nat, a: nat) {
    a > 0 && p % a == 0
  }

  /** What `used` would have to become, were it not cut to 64 bits. */
  function Needed(buffer: nat, used: nat, length: nat, a: nat): nat
    requires buffer + used < U64 && a < U64
  {
    used + Padding(buffer + used, a) + length
  }

  /** The test the allocator makes before it hands out memory. */
  predicate Grants(buffer: nat, size: nat, used: nat, length: nat, a: nat)
    requires buffer + used < U64 && a < U64
  {
    length > 0 && IsPowerOfTwo(a) && Wrap(Needed(buffer, used, length, a)) <= size
  }

  /** Memory that is handed out lies inside the buffer exactly when the sum of what was needed did
      not wrap. */
  lemma GrantedInsideIff(buffer: nat, size: nat, used: nat, length: nat, a: nat)
    requires 0 < buffer && buffer + size <= U64 && used <= size && buffer + used < U64 && length < U64 && a < U64
    requires Grants(buffer, size, used, length, a)
    ensures buffer + used <= AlignUp(buffer + used, a) && AlignUp(buffer + used, a) + length <= buffer + size
       <==> Needed(buffer, used, length, a) < U64
    ensures Needed(buffer, used, length, a) < U64 ==>
              && Aligned(AlignUp(buffer + used, a), a)
              && AlignUp(buffer + used, a) + length == buffer + Needed(buffer, used, length, a)
  {
    hide AlignUp, IsPowerOfTwo;
    PaddingPlaces(buffer + used, a);
    if buffer + used + a - 1 < U64 {
      AlignUpIsLeast(buffer + used, a);
    }
  }

  /** Sums that wrap are granted: behind 8 used bytes of a 16-byte buffer, a request for all but 8
      bytes of the address space. */
  lemma WrappedRequestIsGranted()
    ensures var length := U64 - 8;
      && Grants(4096, 16, 8, length, 1)
      && AlignUp(4096 + 8, 1) + length > 4096 + 16
  {
    AlignUpIsLeast(4104, 1);
    hide AlignUp;
    assert AlignUp(4104, 1) == 4104;
    assert Padding(4104, 1) == 0;
    assert Needed(4096, 8, U64 - 8, 1) == U64;
  }

  class Arena {
    var buffer: nat
    var size: nat
    var used: nat
    var alignment: nat
    /** What was handed out since the last reset. */
    ghost var live: seq<Region>

    /** An initialised arena over memory that the address space holds; everything handed out is
        aligned, inside the used part of the buffer, and in order, so no two regions overlap. */
    ghost predicate Valid()
      reads this
    {
      && 0 < buffer && 0 < size && buffer + size < U64
      && used <= size
      && 0 < alignment < U64 && IsPowerOfTwo(alignment)
      && (forall i :: 0 <= i < |live| ==> Placed(live[i]))
      && (forall i, j :: 0 <= i < j < |live| ==> live[i].start + live[i].length <= live[j].start)
    }

    ghost predicate Placed(r: Region)
      reads this`buffer, this`used
    {
      && Aligned(r.start, r.alignment)
      && r.length > 0
      && buffer <= r.start && r.start + r.length <= buffer + used
    }

    constructor ()
      ensures live == []
    {
      live := [];
      buffer, size, used, alignment := 0, 0, 0, 0;
    }

    /** `mp_memory_arena_init` succeeds exactly for a buffer, a size, and a power of two. */
    method Init(buffer: nat, size: nat, alignment: nat) returns (ok: bool)
      requires buffer + size < U64 && alignment < U64
      modifies this
      ensures ok <==> buffer != 0 && size != 0 && IsPowerOfTwo(alignment)
      ensures ok ==> Valid() && this.buffer == buffer && this.size == size && this.alignment == alignment
      ensures ok ==> used == 0 && live == []
    {
      if buffer == 0 || size == 0 {
        return false;
      }
      TestMeans(alignment);
      if alignment == 0 || !PassesTest(alignment) {
        return false;
      }
      this.buffer, this.size, used, this.alignment, live := buffer, size, 0, alignment, [];
      return true;
    }

    /** The tests and the address arithmetic of an allocation. */
    method Place(length: nat, a: nat) returns (granted: bool, ptr: nat, newUsed: nat)
      requires a > 0 && buffer + used < U64 && length < U64 && a < U64
      ensures granted == Grants(buffer, size, used, length, a)
      ensures granted ==> ptr == AlignUp(buffer + used, a) && newUsed == Wrap(Needed(buffer, used, length, a))
      ensures granted ==> length > 0 && IsPowerOfTwo(a)
    {
      hide AlignUp, IsPowerOfTwo, PassesTest, Wrap;
      granted, ptr, newUsed := false, 0, used;
      if length == 0 {
        return;
      }
      TestMeans(a);
      if !PassesTest(a) {
        return;
      }
      var current := buffer + used;
      ptr := AlignUp(current, a);
      var padding := Wrap(ptr + U64 - current);
      var total := Wrap(padding + length);
      WrapsTogether(used, padding, length);
      newUsed := Wrap(used + total);
      granted := newUsed <= size;
    }

    /** `mp_memory_arena_alloc`; 0 is the null pointer. The first two clauses say what it does with
        any numbers, the alignment being the arena's if none is asked for. Then: whatever wraps,
        memory is aligned as asked, which is by a power of two. The last clause says that, unless the
        sum of what is needed wraps, memory is handed out exactly when the aligned region fits, and
        the arena stays valid with it. */
    method Alloc(length: nat, a: nat) returns (ptr: nat)
      requires Valid() && length < U64 && a < U64
      modifies this`used, this`live
      ensures var e := if a != 0 then a else alignment;
              var g := Grants(buffer, size, old(used), length, e);
              && used == (if g then Wrap(Needed(buffer, old(used), length, e)) else old(used))
              && ptr == (if g then AlignUp(buffer + old(used), e) else 0)
              && live == (if g then old(live) + [Region(ptr, length, e)] else old(live))
      ensures ptr != 0 && a != 0 ==> ptr % a == 0 && IsPowerOfTwo(a) && live == old(live) + [Region(ptr, length, a)]
      ensures ptr != 0 && a == 0 ==> ptr % alignment == 0 && live == old(live) + [Region(ptr, length, alignment)]
      ensures a != 0 && !IsPowerOfTwo(a) ==> ptr == 0 && used == old(used) && live == old(live)
      ensures var e := if a != 0 then a else alignment;
              Needed(buffer, old(used), length, e) < U64 ==>
              && Valid()
              && (ptr != 0 <==> length > 0 && IsPowerOfTwo(e) && Needed(buffer, old(used), length, e) <= size)
    {
      hide AlignUp, IsPowerOfTwo, Needed, Wrap, Aligned, Grants;
      var e := a;
      if e == 0 {
        e := alignment;
      }
      var granted, newUsed;
      granted, ptr, newUsed := Place(length, e);
      GrantsWithoutWrap(buffer, size, used, length, e);
      if !granted {
        return 0;
      }
      AlignUpAligned(buffer + used, e);
      GrantedInsideIff(buffer, size, used, length, e);
      Commit(ptr, length, e, newUsed);
    }

    /** Records the region handed out. */
    method Commit(ptr: nat, length: nat, a: nat, newUsed: nat)
      requires Valid()
      modifies this`used, this`live
      ensures used == newUsed && live == old(live) + [Region(ptr, length, a)]
      ensures Aligned(ptr, a) && length > 0 && newUsed <= size && buffer + old(used) <= ptr && ptr + length == buffer + newUsed ==> Valid()
    {
      used := newUsed;
      live := live + [Region(ptr, length, a)];
    }

    method Reset()
      requires Valid()
      modifies this`used, this`live
      ensures Valid() && used == 0 && live == []
    {
      used := 0;
      live := [];
    }

    method Remaining() returns (n: nat)
      requires Valid()
      ensures used + n == size
    {
      n := size - used;
    }
  }

  /** Whether or not rounding up wraps, what comes out is a multiple. */
  lemma AlignUpAligned(p: nat, a: nat)
    requires p < U64 && a < U64 && IsPowerOfTwo(a)
    ensures a > 0 && AlignUp(p, a) % a == 0
  {
    hide AlignUp, IsPowerOfTwo;
    PowersArePositive(a);
    if p + a - 1 < U64 {
      AlignUpIsLeast(p, a);
    } else {
      AlignUpWraps(p, a);
    }
  }

  lemma PowersArePositive(a: nat)
    requires IsPowerOfTwo(a)
    ensures a > 0
  {}

  lemma GrantsWithoutWrap(buffer: nat, size: nat, used: nat, length: nat, a: nat)
    requires buffer + used < U64 && a < U64
    ensures Needed(buffer, used, length, a) < U64 ==>
              && Wrap(Needed(buffer, used, length, a)) == Needed(buffer, used, length, a)
              && (Grants(buffer, size, used, length, a)
                  <==> length > 0 && IsPowerOfTwo(a) && Needed(buffer, used, length, a) <= size)
  {
    hide AlignUp, IsPowerOfTwo;
  }

  lemma WrapsTogether(used: nat, padding: nat, length: nat)
    ensures Wrap(used + Wrap(padding + length)) == Wrap(used + padding + length)
    ensures used + padding + length < U64 ==> Wrap(used + padding + length) == used + padding + length
  {}
}
