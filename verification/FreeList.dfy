/** The shared heap's free list (src/mm/shared_heap.c): a doubly linked list of block headers in
    address order, best-fit search over it, and the defragmenter that joins neighbours. */
module FreeList {
  import opened Bytes
  import opened Bits
  import opened Alignment

  /** A block header at address `addr`; `size` bytes of data follow the header. */
  class Block {
    const addr: nat
    var size: nat
    var next: Block?
    var prev: Block?
    var isFree: bool

    constructor (addr: nat, size: nat)
      ensures this.addr == addr && this.size == size && next == null && prev == null
    {
      this.addr, this.size, this.next, this.prev, this.isFree := addr, size, null, null, false;
    }

    function View(): Extent
      reads this
    {
      Extent(addr, size)
    }
  }

  // ---------------------------------------------------------------- extents

  /** A block as a stretch of memory: a header of `H` bytes at `addr`, then `size` bytes. */
  datatype Extent = Extent(addr: nat, size: nat)

  function End(e: Extent, H: nat): nat {
    e.addr + H + e.size
  }

  /** In address order, without overlap. */
  ghost predicate Separated(es: seq<Extent>, H: nat) {
    forall i, j :: 0 <= i < j < |es| ==> End(es[i], H) <= es[j].addr
  }

  /** The address lies in one of the blocks, header included. */
  predicate Covers(es: seq<Extent>, H: nat, p: nat) {
    exists i :: 0 <= i < |es| && es[i].addr <= p < End(es[i], H)
  }

  ghost predicate Apart(e: Extent, f: Extent, H: nat) {
    End(e, H) <= f.addr || End(f, H) <= e.addr
  }

  /** The list with `e` in its place. */
  function Insert(es: seq<Extent>, e: Extent): (r: seq<Extent>)
    ensures |r| == |es| + 1
  {
    if es == [] || es[0].addr >= e.addr then [e] + es else [es[0]] + Insert(es[1..], e)
  }

  lemma {:induction false} InsertKeepsOrder(es: seq<Extent>, e: Extent, H: nat)
    requires H > 0 && Separated(es, H) && forall i :: 0 <= i < |es| ==> Apart(e, es[i], H)
    ensures Separated(Insert(es, e), H)
    ensures forall f :: f in Insert(es, e) <==> f in es || f == e
  {
    if es != [] && es[0].addr < e.addr {
      InsertKeepsOrder(es[1..], e, H);
      var r := Insert(es[1..], e);
      forall j | 0 <= j < |r|
        ensures End(es[0], H) <= r[j].addr
      {
        assert r[j] in r;
        assert r[j] != e ==> exists k :: 0 <= k < |es[1..]| && es[1..][k] == r[j];
      }
      assert es == [es[0]] + es[1..];
    }
  }

  /** Where an insert puts the block. */
  lemma {:induction false} InsertAt(es: seq<Extent>, e: Extent, k: nat)
    requires k <= |es|
    requires forall i :: 0 <= i < k ==> es[i].addr < e.addr
    requires k < |es| ==> es[k].addr >= e.addr
    ensures Insert(es, e) == es[..k] + [e] + es[k..]
  {
    if k > 0 {
      InsertAt(es[1..], e, k - 1);
      assert es[1..][..k - 1] == es[..k][1..] && es[1..][k - 1..] == es[k..];
    }
  }

  // ---------------------------------------------------------------- joining neighbours

  /** Every block joined with the ones that begin where it ends. */
  function Coalesced(es: seq<Extent>, H: nat): (r: seq<Extent>)
    ensures |r| <= |es|
    ensures es != [] ==> r != [] && r[0].addr == es[0].addr
    decreases |es|
  {
    if |es| <= 1 then es
    else if End(es[0], H) == es[1].addr
    then Coalesced([Extent(es[0].addr, es[0].size + H + es[1].size)] + es[2..], H)
    else [es[0]] + Coalesced(es[1..], H)
  }

  lemma {:induction false} CoalescedIsSeparated(es: seq<Extent>, H: nat)
    requires Separated(es, H)
    ensures Separated(Coalesced(es, H), H)
    ensures forall i :: 0 <= i < |Coalesced(es, H)| - 1 ==> End(Coalesced(es, H)[i], H) != Coalesced(es, H)[i + 1].addr
    decreases |es|
  {
    if |es| > 1 {
      if End(es[0], H) == es[1].addr {
        CoalescedIsSeparated([Extent(es[0].addr, es[0].size + H + es[1].size)] + es[2..], H);
      } else {
        var r := Coalesced(es[1..], H);
        CoalescedIsSeparated(es[1..], H);
        assert End(es[0], H) < es[1].addr == r[0].addr;
        forall j | 0 <= j < |r|
          ensures End(es[0], H) < r[j].addr
        {
          assert j > 0 ==> End(r[0], H) <= r[j].addr;
        }
      }
    }
  }

  /** Joining neither gains nor loses a byte. */
  lemma {:induction false} CoalescedCovers(es: seq<Extent>, H: nat, p: nat)
    ensures Covers(Coalesced(es, H), H, p) <==> Covers(es, H, p)
    decreases |es|
  {
    if |es| > 1 {
      if End(es[0], H) == es[1].addr {
        var j := [Extent(es[0].addr, es[0].size + H + es[1].size)] + es[2..];
        CoalescedCovers(j, H, p);
        assert forall i :: 1 <= i < |j| ==> j[i] == es[i + 1];
        if i :| 0 <= i < |es| && es[i].addr <= p < End(es[i], H) {
          assert i < 2 ==> j[0].addr <= p < End(j[0], H);
          assert i >= 2 ==> j[i - 1] == es[i];
        }
        if i :| 0 <= i < |j| && j[i].addr <= p < End(j[i], H) {
          assert i == 0 ==> (es[0].addr <= p < End(es[0], H)) || (es[1].addr <= p < End(es[1], H));
        }
      } else {
        CoalescedCovers(es[1..], H, p);
        CoversCons(es, H, p);
        CoversCons([es[0]] + Coalesced(es[1..], H), H, p);
      }
    }
  }

  lemma CoversCons(es: seq<Extent>, H: nat, p: nat)
    requires es != []
    ensures Covers(es, H, p) <==> (es[0].addr <= p < End(es[0], H)) || Covers(es[1..], H, p)
  {
    assert forall i :: 0 <= i < |es[1..]| ==> es[1..][i] == es[i + 1];
    if i :| 1 <= i < |es| && es[i].addr <= p < End(es[i], H) {
      assert es[1..][i - 1] == es[i];
    }
  }

  // ---------------------------------------------------------------- runs of list operations

  datatype Op = DoInsert(e: Extent) | DoRemove(i: nat) | DoDefrag

  predicate Allowed(es: seq<Extent>, op: Op, H: nat) {
    match op
    case DoInsert(e) => forall i :: 0 <= i < |es| ==> End(e, H) <= es[i].addr || End(es[i], H) <= e.addr
    case DoRemove(i) => i < |es|
    case DoDefrag => true
  }

  function Applied(es: seq<Extent>, op: Op, H: nat): seq<Extent>
    requires Allowed(es, op, H)
  {
    match op
    case DoInsert(e) => Insert(es, e)
    case DoRemove(i) => es[..i] + es[i + 1..]
    case DoDefrag => Coalesced(es, H)
  }

  ghost predicate Run(states: seq<seq<Extent>>, ops: seq<Op>, H: nat) {
    && |states| == |ops| + 1 && states[0] == []
    && forall i :: 0 <= i < |ops| ==> Allowed(states[i], ops[i], H) && states[i + 1] == Applied(states[i], ops[i], H)
  }

  /** Any run of inserts of blocks apart from those listed, removals and defrags keeps the list
      sorted and without overlap. */
  lemma {:induction false} RunKeepsOrder(states: seq<seq<Extent>>, ops: seq<Op>, H: nat, i: nat)
    requires H > 0 && Run(states, ops, H) && i < |states|
    ensures Separated(states[i], H)
  {
    if i > 0 {
      RunKeepsOrder(states, ops, H, i - 1);
      var es := states[i - 1];
      assert states[i] == Applied(es, ops[i - 1], H);
      match ops[i - 1]
      case DoInsert(e) => InsertKeepsOrder(es, e, H);
      case DoRemove(k) =>
      case DoDefrag => CoalescedIsSeparated(es, H);
    }
  }

  lemma InsertCovers(es: seq<Extent>, e: Extent, H: nat, p: nat)
    requires H > 0 && Separated(es, H) && forall i :: 0 <= i < |es| ==> Apart(e, es[i], H)
    ensures Covers(Insert(es, e), H, p) <==> Covers(es, H, p) || e.addr <= p < End(e, H)
  {
    var r := Insert(es, e);
    InsertKeepsOrder(es, e, H);
    hide Insert, Separated;
    if i :| 0 <= i < |es| && es[i].addr <= p < End(es[i], H) {
      assert es[i] in r;
    }
    assert e in r;
    if i :| 0 <= i < |r| && r[i].addr <= p < End(r[i], H) {
      assert r[i] in es || r[i] == e;
    }
  }

  lemma RemoveCovers(es: seq<Extent>, k: nat, H: nat, p: nat)
    requires k < |es| && H > 0 && Separated(es, H)
    ensures Covers(es[..k] + es[k + 1..], H, p) <==> Covers(es, H, p) && !(es[k].addr <= p < End(es[k], H))
  {
    var r := es[..k] + es[k + 1..];
    assert forall i :: 0 <= i < |r| ==> r[i] == es[if i < k then i else i + 1];
    if i :| 0 <= i < |es| && i != k && es[i].addr <= p < End(es[i], H) {
      assert r[if i < k then i else i - 1] == es[i];
    }
  }

  /** And after each operation the bytes covered are those before, with the inserted block's bytes
      or without the removed one's. */
  lemma OpCovers(es: seq<Extent>, op: Op, H: nat, p: nat)
    requires H > 0 && Separated(es, H) && Allowed(es, op, H)
    ensures Covers(Applied(es, op, H), H, p) <==>
              match op
              case DoInsert(e) => Covers(es, H, p) || e.addr <= p < End(e, H)
              case DoRemove(i) => Covers(es, H, p) && !(es[i].addr <= p < End(es[i], H))
              case DoDefrag => Covers(es, H, p)
  {
    hide Covers, Separated, Insert, Coalesced;
    match op
    case DoInsert(e) => InsertCovers(es, e, H, p);
    case DoRemove(k) => RemoveCovers(es, k, H, p);
    case DoDefrag => CoalescedCovers(es, H, p);
  }

  // ---------------------------------------------------------------- fitting

  /** The test of `find_free_block`, in 64 bits: the data bytes hold `size` bytes after the padding
      that aligns their start. */
  predicate Fits(e: Extent, size: nat, a: nat, H: nat)
    requires e.addr + H < U64 && a < U64
  {
    e.size >= Wrap(size + Padding(e.addr + H, a))
  }

  /** Some aligned stretch of `size` bytes lies in the block's data. */
  ghost predicate HasRoom(e: Extent, size: nat, a: nat, H: nat)
    requires a > 0
  {
    exists p: nat :: e.addr + H <= p && p % a == 0 && p + size <= End(e, H)
  }

  /** The aligned start is the least multiple of the alignment in the block's data, or the very end of
      the address space. */
  lemma PaddingIsLeast(current: nat, a: nat)
    requires IsPowerOfTwo(a) && a < U64 && current < U64
    ensures (current + Padding(current, a)) % a == 0
    ensures forall p: nat :: current <= p && p % a == 0 ==> current + Padding(current, a) <= p
  {
    hide AlignUp, IsPowerOfTwo, Padding;
    PaddingPlaces(current, a);
    if current + a - 1 < U64 {
      AlignUpIsLeast(current, a);
    } else {
      TopIsMultiple(a);
      forall p: nat | current <= p && p % a == 0
        ensures U64 <= p
      {
        NextMultiple(U64, p, a);
      }
    }
  }

  lemma TopIsMultiple(a: nat)
    requires IsPowerOfTwo(a) && a < U64
    ensures a > 0 && U64 % a == 0
  {
    hide IsPowerOfTwo, Pow2;
    var k := Exponent(a);
    WordSizes();
    Pow2Strict(k, 64);
    Pow2Add(k, 64 - k);
    RemainderIs(U64, a, Pow2(64 - k), 0);
  }

  /** In a block that lies in the address space there is room exactly if the test passes and its sum
      did not wrap. */
  lemma FitsIff(e: Extent, size: nat, a: nat, H: nat)
    requires IsPowerOfTwo(a) && a < U64 && e.addr + H < U64 && End(e, H) <= U64 && H > 0
    ensures a > 0
    ensures HasRoom(e, size, a, H) <==> Fits(e, size, a, H) && size + Padding(e.addr + H, a) < U64
  {
    hide AlignUp, IsPowerOfTwo, Padding;
    TopIsMultiple(a);
    var current := e.addr + H;
    PaddingIsLeast(current, a);
    var p: nat := current + Padding(current, a);
    if HasRoom(e, size, a, H) {
      var q: nat :| current <= q && q % a == 0 && q + size <= End(e, H);
      assert p <= q;
    }
  }

  /** A request whose sum wraps is granted: one byte short of the address space, with an alignment
      that needs padding, passes for a block of 8 bytes. */
  lemma WrappedRequestFits()
    ensures var e := Extent(4096, 8); Fits(e, U64 - 1, 16, 8) && !HasRoom(e, U64 - 1, 16, 8)
  {
    hide AlignUp, IsPowerOfTwo;
    SixteenIsPower();
    AlignUpIsLeast(4104, 16);
    NextMultiple(AlignUp(4104, 16), 4112, 16);
    NextMultiple(4112, AlignUp(4104, 16), 16);
    assert Padding(4104, 16) == 8;
  }

  lemma SixteenIsPower()
    ensures IsPowerOfTwo(16)
  {
    assert IsPowerOfTwo(2) && IsPowerOfTwo(4) && IsPowerOfTwo(8);
  }

  // ---------------------------------------------------------------- the linked list

  function Views(bs: seq<Block>): (r: seq<Extent>)
    reads bs
    ensures |r| == |bs|
    ensures forall i :: 0 <= i < |bs| ==> r[i] == bs[i].View()
  {
    seq(|bs|, i requires 0 <= i < |bs| reads bs => bs[i].View())
  }

  function Nth(bs: seq<Block>, i: int): Block? {
    if 0 <= i < |bs| then bs[i] else null
  }

  ghost predicate Distinct(bs: seq<Block>) {
    forall i, j :: 0 <= i < j < |bs| ==> bs[i] != bs[j]
  }

  lemma DistinctAt(bs: seq<Block>, k: nat)
    requires Distinct(bs)
    ensures forall i :: 0 <= i < |bs| && k < |bs| && i != k ==> bs[i] != bs[k]
    ensures forall i :: 0 <= i < |bs| && 0 < k <= |bs| && i != k - 1 ==> bs[i] != bs[k - 1]
    ensures forall i :: 0 <= i < |bs| && k + 1 < |bs| && i != k + 1 ==> bs[i] != bs[k + 1]
  {}

  lemma NeighboursDiffer(bs: seq<Block>, k: nat)
    requires Distinct(bs) && k < |bs|
    ensures Nth(bs, k - 1) != bs[k] && Nth(bs, k + 1) != bs[k]
    ensures forall i :: 0 <= i < |bs| && i != k ==> bs[i] != bs[k]
  {}

  lemma JoinedViews(bs: seq<Block>, b: Block, k: nat)
    requires k <= |bs|
    ensures Views(Joined(bs, b, k)) == Views(bs)[..k] + [b.View()] + Views(bs)[k..]
  {}

  lemma SplicedIn(bs: seq<Block>, b: Block, k: nat)
    requires k <= |bs| && Distinct(bs) && b !in bs
    ensures |Joined(bs, b, k)| == |bs| + 1
    ensures forall i :: 0 <= i < |Joined(bs, b, k)| ==> Joined(bs, b, k)[i] == b || Joined(bs, b, k)[i] in bs
    ensures Distinct(Joined(bs, b, k)) && Nth(Joined(bs, b, k), 0) == if k == 0 then b else Nth(bs, 0)
    ensures forall i :: 0 <= i < |bs| + 1 ==> Joined(bs, b, k)[i] == if i < k then bs[i] else if i == k then b else bs[i - 1]
  {}

  lemma SplicedOut(bs: seq<Block>, k: nat)
    requires k < |bs| && Distinct(bs)
    ensures |Cut(bs, k)| == |bs| - 1
    ensures forall i :: 0 <= i < |Cut(bs, k)| ==> Cut(bs, k)[i] in bs
    ensures Distinct(Cut(bs, k)) && Nth(Cut(bs, k), 0) == Nth(bs, if k == 0 then 1 else 0)
    ensures forall i :: 0 <= i < |bs| - 1 ==> Cut(bs, k)[i] == if i < k then bs[i] else bs[i + 1]
  {}

  lemma CutKeeps(bs: seq<Block>, k: nat)
    requires k + 1 < |bs|
    ensures |Cut(bs, k + 1)| == |bs| - 1 && Cut(bs, k + 1)[k] == bs[k]
  {}

  function Joined(bs: seq<Block>, b: Block, k: nat): (r: seq<Block>)
    requires k <= |bs|
    ensures |r| == |bs| + 1
  {
    bs[..k] + [b] + bs[k..]
  }

  function Cut(bs: seq<Block>, k: nat): (r: seq<Block>)
    requires k < |bs|
    ensures |r| == |bs| - 1
  {
    bs[..k] + bs[k + 1..]
  }

  ghost predicate Forward(bs: seq<Block>)
    reads bs`next
  {
    forall i :: 0 <= i < |bs| ==> bs[i].next == Nth(bs, i + 1)
  }

  ghost predicate Backward(bs: seq<Block>)
    reads bs`prev
  {
    forall i :: 0 <= i < |bs| ==> bs[i].prev == Nth(bs, i - 1)
  }

  /** The pointers after `b` is put in at `k`: its own and its neighbours' are new. */
  twostate lemma ForwardJoined(bs: seq<Block>, new b: Block, new k: nat)
    requires k <= |bs| && Distinct(bs) && b !in bs && old(Forward(bs))
    requires forall i :: 0 <= i < |bs| ==> bs[i].next == if bs[i] == Nth(bs, k - 1) then b else old(bs[i].next)
    requires b.next == Nth(bs, k)
    ensures Forward(Joined(bs, b, k))
  {
    SplicedIn(bs, b, k);
    DistinctAt(bs, k);
    var r := Joined(bs, b, k);
    hide Joined, Distinct;
    forall i | 0 <= i < |r|
      ensures r[i].next == Nth(r, i + 1)
    {
      if i == k - 1 {
        assert r[i] == bs[k - 1] && r[i + 1] == b;
      } else if i < k {
        assert r[i] == bs[i] && r[i + 1] == bs[i + 1] && old(bs[i].next) == bs[i + 1];
      } else if i > k {
        assert r[i] == bs[i - 1] && old(bs[i - 1].next) == Nth(bs, i);
        assert i + 1 < |r| ==> r[i + 1] == bs[i];
      } else {
        assert i + 1 < |r| ==> r[i + 1] == bs[i];
      }
    }
  }

  twostate lemma BackwardJoined(bs: seq<Block>, new b: Block, new k: nat)
    requires k <= |bs| && Distinct(bs) && b !in bs && old(Backward(bs))
    requires forall i :: 0 <= i < |bs| ==> bs[i].prev == if bs[i] == Nth(bs, k) then b else old(bs[i].prev)
    requires b.prev == Nth(bs, k - 1)
    ensures Backward(Joined(bs, b, k))
  {
    SplicedIn(bs, b, k);
    DistinctAt(bs, k);
    var r := Joined(bs, b, k);
    hide Joined, Distinct;
    forall i | 0 <= i < |r|
      ensures r[i].prev == Nth(r, i - 1)
    {
      assert i > 0 ==> r[i - 1] == if i - 1 < k then bs[i - 1] else if i - 1 == k then b else bs[i - 2];
      if i < k {
        assert r[i] == bs[i] && old(bs[i].prev) == Nth(bs, i - 1);
      } else if i > k {
        assert r[i] == bs[i - 1] && old(bs[i - 1].prev) == Nth(bs, i - 2);
        assert i - 1 == k || bs[i - 1] != bs[k];
      }
    }
  }

  /** The pointers after the block at `k` is taken out. */
  twostate lemma ForwardCut(bs: seq<Block>, new k: nat)
    requires k < |bs| && Distinct(bs) && old(Forward(bs))
    requires forall i :: 0 <= i < |bs| && i != k ==>
               bs[i].next == if bs[i] == Nth(bs, k - 1) then Nth(bs, k + 1) else old(bs[i].next)
    ensures Forward(Cut(bs, k))
  {
    SplicedOut(bs, k);
    DistinctAt(bs, k);
    var r := Cut(bs, k);
    hide Cut, Distinct;
    forall i | 0 <= i < |r|
      ensures r[i].next == Nth(r, i + 1)
    {
      if i < k {
        assert r[i] == bs[i] && old(bs[i].next) == bs[i + 1];
        assert i == k - 1 || bs[i] != bs[k - 1];
        assert i + 1 < |r| ==> r[i + 1] == if i + 1 < k then bs[i + 1] else bs[i + 2];
      } else {
        assert r[i] == bs[i + 1] && old(bs[i + 1].next) == Nth(bs, i + 2);
        assert i + 1 < |r| ==> r[i + 1] == bs[i + 2];
      }
    }
  }

  twostate lemma BackwardCut(bs: seq<Block>, new k: nat)
    requires k < |bs| && Distinct(bs) && old(Backward(bs))
    requires forall i :: 0 <= i < |bs| && i != k ==>
               bs[i].prev == if bs[i] == Nth(bs, k + 1) then Nth(bs, k - 1) else old(bs[i].prev)
    ensures Backward(Cut(bs, k))
  {
    SplicedOut(bs, k);
    DistinctAt(bs, k);
    var r := Cut(bs, k);
    hide Cut, Distinct;
    forall i | 0 <= i < |r|
      ensures r[i].prev == Nth(r, i - 1)
    {
      if i < k {
        assert r[i] == bs[i] && old(bs[i].prev) == Nth(bs, i - 1);
        assert i > 0 ==> r[i - 1] == bs[i - 1];
      } else {
        assert r[i] == bs[i + 1] && old(bs[i + 1].prev) == bs[i];
        assert i == k || bs[i + 1] != bs[k + 1];
        assert i > 0 ==> r[i - 1] == if i > k then bs[i] else bs[i - 1];
      }
    }
  }

  /** The entries at `k` and `k + 1` made one. */
  function Merged(es: seq<Extent>, k: nat, H: nat): (r: seq<Extent>)
    requires k + 1 < |es|
    ensures |r| == |es| - 1
    ensures forall i :: 0 <= i < |r| ==>
              r[i] == if i < k then es[i] else if i == k then Extent(es[k].addr, es[k].size + H + es[k + 1].size) else es[i + 1]
  {
    es[..k] + [Extent(es[k].addr, es[k].size + H + es[k + 1].size)] + es[k + 2..]
  }

  /** The extents once the block at `k + 1` is out and the size of the one at `k` has grown. */
  twostate lemma MergedViews(bs: seq<Block>, new k: nat, new H: nat)
    requires k + 1 < |bs| && Distinct(bs)
    requires forall i :: 0 <= i < |bs| && i != k ==> bs[i].size == old(bs[i].size)
    requires bs[k].size == old(bs[k].size) + H + old(bs[k + 1].size)
    ensures Views(Cut(bs, k + 1)) == Merged(old(Views(bs)), k, H)
  {
    var r := Cut(bs, k + 1);
    forall i | 0 <= i < |r|
      ensures r[i].View() == Merged(old(Views(bs)), k, H)[i]
    {
      assert r[i] == if i < k + 1 then bs[i] else bs[i + 1];
    }
  }

  /** The first `k` entries are done: joining what follows completes the joining of `es`. */
  ghost predicate Sofar(es: seq<Extent>, cur: seq<Extent>, k: nat, H: nat) {
    k <= |cur| && Coalesced(es, H) == cur[..k] + Coalesced(cur[k..], H)
  }

  lemma CoalescedStart(es: seq<Extent>, H: nat)
    ensures Sofar(es, es, 0, H)
  {
    assert es[0..] == es;
  }

  lemma SofarStep(es: seq<Extent>, cur: seq<Extent>, k: nat, H: nat)
    requires Sofar(es, cur, k, H) && k < |cur|
    ensures k + 1 < |cur| && End(cur[k], H) == cur[k + 1].addr ==> Sofar(es, Merged(cur, k, H), k, H)
    ensures !(k + 1 < |cur| && End(cur[k], H) == cur[k + 1].addr) ==> Sofar(es, cur, k + 1, H)
  {
    var tail := cur[k..];
    if k + 1 < |cur| {
      assert tail[1..] == cur[k + 1..] && tail[2..] == cur[k + 2..];
      if End(cur[k], H) == cur[k + 1].addr {
        var m := Merged(cur, k, H);
        assert m[..k] == cur[..k];
        assert m[k..] == [Extent(tail[0].addr, tail[0].size + H + tail[1].size)] + tail[2..];
      } else {
        assert cur[..k + 1] == cur[..k] + [tail[0]];
      }
    } else {
      assert tail == [cur[k]] && cur[..k + 1] == cur[..k] + tail && cur[k + 1..] == [];
    }
  }

  lemma SofarDone(es: seq<Extent>, cur: seq<Extent>, k: nat, H: nat)
    requires Sofar(es, cur, k, H) && k >= |cur|
    ensures cur == Coalesced(es, H)
  {
    assert cur[k..] == [] && cur[..k] == cur;
  }

  class FreeList {
    /** `sizeof(block_header_t)` */
    const H: nat
    var head: Block?
    /** The blocks from the head on, and all that ever were listed. */
    ghost var list: seq<Block>
    ghost var known: set<Block>

    /** Both chains of pointers run through the list. */
    ghost predicate Linked()
      reads this`head, this`list, this`known, known`next, known`prev
    {
      && H > 0
      && head == Nth(list, 0)
      && (forall i :: 0 <= i < |list| ==> list[i] in known)
      && Forward(list) && Backward(list) && Distinct(list)
    }

    lemma Links(k: nat)
      requires Linked()
      ensures head == Nth(list, 0)
      ensures k < |list| ==> list[k].next == Nth(list, k + 1) && list[k].prev == Nth(list, k - 1)
      ensures forall i :: 0 <= i < |list| ==> list[i] in known
    {}

    constructor (headerSize: nat)
      requires headerSize > 0
      ensures H == headerSize && Linked() && list == [] && known == {}
    {
      H, head, list, known := headerSize, null, [], {};
    }

    /** The walk of `add_to_free_list` to the first block not below the new one. */
    method FindPlace(block: Block) returns (prev: Block?, current: Block?, ghost k: nat)
      requires Linked()
      ensures k <= |list| && prev == Nth(list, k - 1) && current == Nth(list, k)
      ensures forall i :: 0 <= i < k ==> list[i].addr < block.addr
      ensures k < |list| ==> list[k].addr >= block.addr
    {
      current, prev, k := head, null, 0;
      while current != null && current.addr < block.addr
        invariant k <= |list| && prev == Nth(list, k - 1) && current == Nth(list, k)
        invariant forall i :: 0 <= i < k ==> list[i].addr < block.addr
        decreases |list| - k
      {
        prev := current;
        current := current.next;
        k := k + 1;
      }
    }

    /** The pointer assignments of `add_to_free_list`, by what they do to each block. */
    method Wire(block: Block, prev: Block?, current: Block?)
      requires (prev != null ==> prev in known) && (current != null ==> current in known)
      requires block != prev && block != current && block.next == null && block.prev == null
      modifies this`head, known`next, known`prev, block`next, block`prev
      ensures head == if prev == null then block else old(head)
      ensures block.next == current && block.prev == prev
      ensures forall b :: b in known && b != block ==> b.next == if b == prev then block else old(b.next)
      ensures forall b :: b in known && b != block ==> b.prev == if b == current then block else old(b.prev)
    {
      if prev != null {
        prev.next := block;
        block.prev := prev;
      } else {
        head := block;
      }
      block.next := current;
      if current != null {
        current.prev := block;
      }
    }

    /** Puts the block in at index `k`. */
    method LinkIn(block: Block, prev: Block?, current: Block?, ghost k: nat)
      requires Linked() && block !in list && block.next == null && block.prev == null
      requires k <= |list| && prev == Nth(list, k - 1) && current == Nth(list, k)
      modifies this`head, this`list, this`known, known`next, known`prev, block`next, block`prev
      ensures Linked() && list == Joined(old(list), block, k)
      ensures known == old(known) + {block}
    {
      hide Distinct, Joined, Forward, Backward;
      ghost var before := list;
      Links(0);
      SplicedIn(before, block, k);
      Wire(block, prev, current);
      list := Joined(list, block, k);
      known := known + {block};
      ForwardJoined(before, block, k);
      BackwardJoined(before, block, k);
    }

    /** `add_to_free_list` */
    method Add(block: Block)
      requires Linked() && block !in list
      modifies this`head, this`list, this`known, known`next, known`prev, block`next, block`prev, block`isFree
      ensures Linked() && block.isFree && known == old(known) + {block}
      ensures Views(list) == Insert(old(Views(list)), block.View())
    {
      block.isFree := true;
      AddLinks(block);
    }

    method AddLinks(block: Block)
      requires Linked() && block !in list
      modifies this`head, this`list, this`known, known`next, known`prev, block`next, block`prev
      ensures Linked() && known == old(known) + {block}
      ensures Views(list) == Insert(old(Views(list)), block.View())
    {
      hide Linked, Joined, Views, Insert;
      Reset(block);
      var prev, current;
      ghost var k;
      prev, current, k := FindPlace(block);
      InsertAt(Views(list), block.View(), k);
      LinkIn(block, prev, current, k);
      JoinedViews(old(list), block, k);
    }

    /** Clears the links of a block that is not listed. */
    method Reset(block: Block)
      requires Linked() && block !in list
      modifies block`next, block`prev
      ensures Linked() && block.next == null && block.prev == null
    {
      block.next := null;
      block.prev := null;
    }

    /** The pointer assignments of `remove_from_free_list`. */
    method Unwire(block: Block)
      requires (block.prev != null ==> block.prev in known) && (block.next != null ==> block.next in known) && block in known
      requires block.prev != block && block.next != block
      modifies this`head, known`next, known`prev
      ensures head == if old(block.prev) == null then old(block.next) else old(head)
      ensures block.next == null && block.prev == null
      ensures forall b :: b in known && b != block ==> b.next == if b == old(block.prev) then old(block.next) else old(b.next)
      ensures forall b :: b in known && b != block ==> b.prev == if b == old(block.next) then old(block.prev) else old(b.prev)
    {
      if block.prev != null {
        block.prev.next := block.next;
      } else {
        head := block.next;
      }
      if block.next != null {
        block.next.prev := block.prev;
      }
      block.next := null;
      block.prev := null;
    }

    /** `remove_from_free_list`, for the block at index `k`. */
    method Remove(block: Block, ghost k: nat)
      requires Linked() && k < |list| && list[k] == block
      modifies this`head, this`list, known`next, known`prev, block`isFree
      ensures Linked() && list == Cut(old(list), k)
      ensures !block.isFree && block.next == null && block.prev == null
    {
      hide Linked;
      Links(k);
      block.isFree := false;
      Unlink(block, k);
    }

    /** Takes the block at index `k` out. */
    method Unlink(block: Block, ghost k: nat)
      requires Linked() && k < |list| && list[k] == block
      modifies this`head, this`list, known`next, known`prev
      ensures Linked() && list == Cut(old(list), k)
      ensures block.next == null && block.prev == null
    {
      hide Distinct, Cut, Forward, Backward;
      ghost var before := list;
      Links(k);
      NeighboursDiffer(before, k);
      SplicedOut(before, k);
      Unwire(block);
      list := Cut(list, k);
      ForwardCut(before, k);
      BackwardCut(before, k);
    }

    /** The assignments of `mp_shared_heap_defrag` that join `current` with its neighbour. */
    method JoinWires(current: Block, next: Block)
      requires current in known && next in known && (next.next != null ==> next.next in known)
      requires current != next && next.next != next
      modifies known`next, known`prev, current`size
      ensures current.size == old(current.size) + H + old(next.size)
      ensures forall b :: b in known && b != next ==> b.next == if b == current then old(next.next) else old(b.next)
      ensures forall b :: b in known && b != next ==> b.prev == if b == old(next.next) then current else old(b.prev)
    {
      current.size := current.size + (H + next.size);
      current.next := next.next;
      if next.next != null {
        next.next.prev := current;
      }
    }

    /** Joins the blocks at `k` and `k + 1`. */
    method JoinNext(current: Block, next: Block, ghost k: nat)
      requires Linked() && k + 1 < |list| && list[k] == current && list[k + 1] == next
      modifies this`list, known`next, known`prev, current`size
      ensures Linked() && k < |list| && list[k] == current
      ensures |list| == |old(list)| - 1 && Views(list) == Merged(old(Views(list)), k, H)
    {
      hide Linked, Views, Merged, Cut, Distinct;
      ghost var before := list;
      AllDistinct();
      DistinctAt(before, k);
      RelinkNext(current, next, k);
      MergedViews(before, k, H);
      hide *;
      CutKeeps(before, k);
    }

    lemma AllDistinct()
      requires Linked()
      ensures Distinct(list)
    {}

    /** Joins the blocks at `k` and `k + 1`, by what it does to the list and the sizes. */
    method RelinkNext(current: Block, next: Block, ghost k: nat)
      requires Linked() && k + 1 < |list| && list[k] == current && list[k + 1] == next
      modifies this`list, known`next, known`prev, current`size
      ensures Linked() && list == Cut(old(list), k + 1)
      ensures current.size == old(current.size) + H + old(next.size)
    {
      hide Distinct, Cut, Forward, Backward;
      ghost var before := list;
      Links(k + 1);
      NeighboursDiffer(before, k);
      NeighboursDiffer(before, k + 1);
      SplicedOut(before, k + 1);
      JoinWires(current, next);
      list := Cut(list, k + 1);
      ForwardCut(before, k + 1);
      BackwardCut(before, k + 1);
    }

    /** `mp_shared_heap_defrag`: joins neighbours until no two are left, and returns how many
        blocks that took off the list. */
    method Defrag() returns (coalesced: nat)
      requires Linked()
      modifies this`list, known`next, known`prev, known`size
      ensures Linked()
      ensures Views(list) == Coalesced(old(Views(list)), H)
      ensures coalesced == |old(list)| - |list|
    {
      hide Linked, Cut, Views, Merged, Coalesced;
      ghost var es := Views(list);
      coalesced := 0;
      ghost var k: nat := 0;
      Links(0);
      CoalescedStart(es, H);
      var current := head;
      while current != null
        invariant Linked() && k <= |list| && current == Nth(list, k)
        invariant Sofar(es, Views(list), k, H)
        invariant coalesced + |list| == |old(list)|
        decreases 2 * |list| - k
      {
        Links(k);
        var next := current.next;
        SofarStep(es, Views(list), k, H);
        if next != null && current.addr + H + current.size == next.addr {
          JoinNext(current, next, k);
          coalesced := coalesced + 1;
          continue;
        }
        current := next;
        k := k + 1;
      }
      SofarDone(es, Views(list), k, H);
    }

    /** `find_free_block`: null exactly when no block passes the test, otherwise the first of the
        smallest that do. */
    method Find(size: nat, a: nat) returns (best: Block?)
      requires Linked() && a < U64
      requires forall i :: 0 <= i < |list| ==> list[i].addr + H < U64
      ensures best == null <==> NoneFits(list, size, a)
      ensures best != null ==> exists k :: 0 <= k < |list| && list[k] == best && BestOf(list, k, size, a)
    {
      hide Linked, NoneFits, BestOf, FitsIn;
      best := null;
      Links(0);
      BestStart(size, a);
      var current := head;
      ghost var i: nat, k: nat := 0, 0;
      while current != null
        invariant i <= |list| && current == Nth(list, i)
        invariant best == null ==> NoneFits(list[..i], size, a)
        invariant best != null ==> k < i && list[k] == best && BestOf(list[..i], k, size, a)
        decreases |list| - i
      {
        Links(i);
        BestStep(list, i, k, size, a);
        var fits := CheckFit(current, size, a);
        if fits {
          if best == null || current.size < best.size {
            best, k := current, i;
          }
        }
        current := current.next;
        i := i + 1;
      }
      assert list[..i] == list;
      BestFits(list, k, size, a);
    }

    lemma BestStart(size: nat, a: nat)
      ensures NoneFits([], size, a)
    {}

    /** What one more block makes of the best so far. */
    lemma BestStep(bs: seq<Block>, i: nat, k: nat, size: nat, a: nat)
      requires i < |bs|
      ensures NoneFits(bs[..i], size, a) && !FitsIn(bs[i], size, a) ==> NoneFits(bs[..i + 1], size, a)
      ensures NoneFits(bs[..i], size, a) && FitsIn(bs[i], size, a) ==> BestOf(bs[..i + 1], i, size, a)
      ensures k < i && BestOf(bs[..i], k, size, a) && FitsIn(bs[i], size, a) && bs[i].size < bs[k].size ==> BestOf(bs[..i + 1], i, size, a)
      ensures k < i && BestOf(bs[..i], k, size, a) && !(FitsIn(bs[i], size, a) && bs[i].size < bs[k].size) ==> BestOf(bs[..i + 1], k, size, a)
    {
      hide FitsIn;
    }

    lemma BestFits(bs: seq<Block>, k: nat, size: nat, a: nat)
      ensures BestOf(bs, k, size, a) ==> !NoneFits(bs, size, a)
    {}

    ghost predicate NoneFits(bs: seq<Block>, size: nat, a: nat)
      reads bs`size
    {
      forall i :: 0 <= i < |bs| ==> !FitsIn(bs[i], size, a)
    }

    /** The arithmetic of the fit test on one block. */
    method CheckFit(b: Block, size: nat, a: nat) returns (fits: bool)
      requires a < U64 && b.addr + H < U64
      ensures fits == FitsIn(b, size, a)
    {
      hide AlignUp;
      var blockAddr := b.addr + H;
      var padding := (AlignUp(blockAddr, a) + U64 - blockAddr) % U64;
      fits := b.size >= (size + padding) % U64;
    }

    predicate FitsIn(b: Block, size: nat, a: nat)
      reads b`size
    {
      a < U64 && b.addr + H < U64 && Fits(Extent(b.addr, b.size), size, a, H)
    }

    /** Block `k` passes, is no larger than any that passes, and is smaller than those before it. */
    ghost predicate BestOf(bs: seq<Block>, k: nat, size: nat, a: nat)
      reads bs`size
    {
      && k < |bs| && FitsIn(bs[k], size, a)
      && (forall i :: 0 <= i < |bs| && FitsIn(bs[i], size, a) ==> bs[k].size <= bs[i].size)
      && (forall i :: 0 <= i < k && FitsIn(bs[i], size, a) ==> bs[k].size < bs[i].size)
    }
  }
}
