/** The kernel heap as a list of blocks, without its memory representation:
    first-fit allocation with splitting, release with two-sided coalescing. */
module HeapModel {
  import opened Machine

  const HEAP_SIZE: nat := 64 * 1024 * 1024
  const MIN_BLOCK_SIZE: nat := 32
  const HEADER: nat := 40

  /** `off` is the offset of the block header from the start of the heap. */
  datatype Block = Block(off: nat, size: nat, free: bool) {
    function End(): nat { off + HEADER + size }
  }

  const INITIAL: seq<Block> := [Block(0, HEAP_SIZE - HEADER, true)]

  ghost predicate Tiled(bs: seq<Block>) {
    && |bs| > 0
    && bs[0].off == 0
    && bs[|bs| - 1].End() == HEAP_SIZE
    && (forall i, j :: 0 <= i < j < |bs| && j == i + 1 ==> bs[i].End() == bs[j].off)
    && (forall i {:trigger GoodSize(bs[i].size)} :: 0 <= i < |bs| ==> GoodSize(bs[i].size))
  }

  predicate GoodSize(size: nat) {
    size % 8 == 0 && size >= MIN_BLOCK_SIZE
  }

  ghost predicate Coalesced(bs: seq<Block>) {
    forall i, j :: 0 <= i < j < |bs| && j == i + 1 ==> !(bs[i].free && bs[j].free)
  }

  ghost predicate WellFormed(bs: seq<Block>) {
    Tiled(bs) && Coalesced(bs)
  }

  /** Rounding of a requested size, with the wrap-around of `size_t`. */
  function Rounded(size: nat): (r: nat)
    ensures r % 8 == 0 && r >= MIN_BLOCK_SIZE
  {
    var up := (size + 7) % TWO64 / 8 * 8;
    if up < MIN_BLOCK_SIZE then MIN_BLOCK_SIZE else up
  }

  /** The first free block of at least `size` bytes at or after index `i`. */
  function FirstFit(bs: seq<Block>, size: nat, i: nat := 0): (k: nat)
    requires i <= |bs|
    ensures i <= k <= |bs|
    ensures k < |bs| ==> bs[k].free && bs[k].size >= size
    ensures forall j :: i <= j < k ==> !(bs[j].free && bs[j].size >= size)
    decreases |bs| - i
  {
    if i == |bs| then i
    else if bs[i].free && bs[i].size >= size then i
    else FirstFit(bs, size, i + 1)
  }

  function Carve(bs: seq<Block>, k: nat, size: nat): (r: seq<Block>)
    requires k < |bs|
  {
    var b := bs[k];
    if b.size > size + HEADER + MIN_BLOCK_SIZE then
      bs[..k] + [Block(b.off, size, false), Block(b.off + HEADER + size, b.size - size - HEADER, true)] + bs[k + 1..]
    else
      bs[k := b.(free := false)]
  }

  /** The list after `kmalloc(size)`, and the offset of the block it handed out. */
  function Allocate(bs: seq<Block>, size: nat): (r: (seq<Block>, Option<nat>))
    ensures r.1.None? ==> r.0 == bs
  {
    if size == 0 then (bs, None) else
    var k := FirstFit(bs, Rounded(size));
    if k == |bs| then (bs, None) else (Carve(bs, k, Rounded(size)), Some(bs[k].off))
  }

  function MergeAt(bs: seq<Block>, i: nat): (r: seq<Block>)
    requires i + 1 < |bs|
  {
    bs[..i] + [bs[i].(size := bs[i].size + HEADER + bs[i + 1].size)] + bs[i + 2..]
  }

  function Mark(bs: seq<Block>, k: nat): (r: seq<Block>)
    requires k < |bs|
  {
    bs[k := bs[k].(free := true)]
  }

  function AbsorbNext(bs: seq<Block>, k: nat): (r: seq<Block>)
    requires k < |bs|
    ensures k < |r|
  {
    if k + 1 < |bs| && bs[k + 1].free then MergeAt(bs, k) else bs
  }

  function AbsorbIntoPrev(bs: seq<Block>, k: nat): (r: seq<Block>)
    requires k < |bs|
  {
    if k > 0 && bs[k - 1].free then MergeAt(bs, k - 1) else bs
  }

  /** The list after freeing block `k`: mark, then merge with the next, then with the previous. */
  function Release(bs: seq<Block>, k: nat): (r: seq<Block>)
    requires k < |bs|
  {
    AbsorbIntoPrev(AbsorbNext(Mark(bs, k), k), k)
  }

  /** The live allocations. */
  ghost function Live(bs: seq<Block>): set<Block> {
    set b | b in bs && !b.free
  }

  // ---------- Layout ----------

  lemma {:induction false} Ordered(bs: seq<Block>, i: nat, j: nat)
    requires Tiled(bs) && i < j < |bs|
    ensures bs[i].End() <= bs[j].off
    decreases j - i
  {
    if i + 1 < j {
      Ordered(bs, i + 1, j);
    }
  }

  lemma Inside(bs: seq<Block>, i: nat)
    requires Tiled(bs) && i < |bs|
    ensures bs[i].End() <= HEAP_SIZE && bs[i].off % 8 == 0
  {
    if i + 1 < |bs| {
      Ordered(bs, i, |bs| - 1);
    }
    Aligned(bs, i);
  }

  lemma {:induction false} Aligned(bs: seq<Block>, i: nat)
    requires Tiled(bs) && i < |bs|
    ensures bs[i].off % 8 == 0
  {
    if i > 0 {
      Aligned(bs, i - 1);
      assert GoodSize(bs[i - 1].size) && bs[i].off == bs[i - 1].End();
      SumAligned(bs[i - 1].off, bs[i - 1].size);
    }
  }

  lemma SumAligned(a: nat, b: nat)
    requires a % 8 == 0 && b % 8 == 0
    ensures (a + HEADER + b) % 8 == 0
  {
  }

  /** Headers plus payloads fill the heap exactly. */
  ghost function Occupied(bs: seq<Block>): nat {
    if bs == [] then 0 else Occupied(bs[..|bs| - 1]) + HEADER + bs[|bs| - 1].size
  }

  lemma {:induction false} OccupiedPrefix(bs: seq<Block>, n: nat)
    requires Tiled(bs) && 0 < n <= |bs|
    ensures Occupied(bs[..n]) == bs[n - 1].End()
  {
    assert bs[..n][..n - 1] == bs[..n - 1];
    if n > 1 {
      OccupiedPrefix(bs, n - 1);
    }
  }

  lemma HeapIsFilled(bs: seq<Block>)
    requires Tiled(bs)
    ensures Occupied(bs) == 64 * 1024 * 1024
  {
    OccupiedPrefix(bs, |bs|);
    assert bs[..|bs|] == bs;
  }

  /** Two live payloads never share a byte. */
  lemma LivePayloadsDisjoint(bs: seq<Block>, a: Block, b: Block)
    requires Tiled(bs) && a in Live(bs) && b in Live(bs) && a != b
    ensures a.End() <= b.off || b.End() <= a.off
  {
    var i :| 0 <= i < |bs| && bs[i] == a;
    var j :| 0 <= j < |bs| && bs[j] == b;
    if i < j {
      Ordered(bs, i, j);
    } else {
      Ordered(bs, j, i);
    }
  }

  lemma OffsetsDistinct(bs: seq<Block>, i: nat, j: nat)
    requires Tiled(bs) && i < |bs| && j < |bs| && bs[i].off == bs[j].off
    ensures i == j
  {
    if i < j {
      Ordered(bs, i, j);
    } else if j < i {
      Ordered(bs, j, i);
    }
  }

  // ---------- Allocation ----------

  lemma SplitBlocks(bs: seq<Block>, k: nat, size: nat)
    requires k < |bs| && bs[k].size > size + HEADER + MIN_BLOCK_SIZE
    ensures var r := Carve(bs, k, size);
      |r| == |bs| + 1 && forall i :: 0 <= i < |r| ==>
        r[i] == if i < k then bs[i] else if i == k then Block(bs[k].off, size, false)
                else if i == k + 1 then Block(bs[k].off + HEADER + size, bs[k].size - size - HEADER, true)
                else bs[i - 1]
  {
  }

  lemma SplitAdjacent(bs: seq<Block>, k: nat, size: nat, i: nat)
    requires Tiled(bs) && k < |bs| && bs[k].size > size + HEADER + MIN_BLOCK_SIZE && i < |bs|
    ensures var r := Carve(bs, k, size); i + 1 < |r| && r[i].End() == r[i + 1].off
  {
    SplitBlocks(bs, k, size);
    hide Carve, GoodSize;
    if i + 1 <= k {
      assert bs[i].End() == bs[i + 1].off;
    } else if i > k {
      assert bs[i - 1].End() == bs[i].off;
    }
  }

  lemma SplitTiles(bs: seq<Block>, k: nat, size: nat)
    requires Tiled(bs) && k < |bs| && bs[k].size > size + HEADER + MIN_BLOCK_SIZE
    requires GoodSize(size) && GoodSize(bs[k].size - size - HEADER)
    ensures Tiled(Carve(bs, k, size))
  {
    SplitBlocks(bs, k, size);
    hide Carve, GoodSize;
    var r := Carve(bs, k, size);
    forall i | 0 <= i < |r| ensures GoodSize(r[i].size) {
      if i < k { assert GoodSize(bs[i].size); } else if i > k + 1 { assert GoodSize(bs[i - 1].size); }
    }
    forall i, j | 0 <= i < j < |r| && j == i + 1 ensures r[i].End() == r[j].off {
      SplitAdjacent(bs, k, size, i);
    }
  }

  lemma SplitCoalesces(bs: seq<Block>, k: nat, size: nat)
    requires Coalesced(bs) && k < |bs| && bs[k].free && bs[k].size > size + HEADER + MIN_BLOCK_SIZE
    ensures Coalesced(Carve(bs, k, size))
  {
    SplitBlocks(bs, k, size);
    hide Carve;
    var r := Carve(bs, k, size);
    forall i, j | 0 <= i < j < |r| && j == i + 1 ensures !(r[i].free && r[j].free) {
      if j < k {
        assert !(bs[i].free && bs[j].free);
      } else if i > k {
        assert !(bs[i - 1].free && bs[i].free);
      }
    }
  }

  lemma CarveKeepsForm(bs: seq<Block>, k: nat, size: nat)
    requires WellFormed(bs) && k < |bs| && bs[k].free
    requires size % 8 == 0 && MIN_BLOCK_SIZE <= size <= bs[k].size
    ensures WellFormed(Carve(bs, k, size))
  {
    if bs[k].size > size + HEADER + MIN_BLOCK_SIZE {
      assert GoodSize(bs[k].size);
      assert GoodSize(size) && GoodSize(bs[k].size - size - HEADER);
      hide Carve, Tiled, Coalesced, GoodSize;
      SplitTiles(bs, k, size);
      SplitCoalesces(bs, k, size);
    } else {
      WholeKeepsForm(bs, k);
    }
  }

  lemma WholeKeepsForm(bs: seq<Block>, k: nat)
    requires WellFormed(bs) && k < |bs|
    ensures WellFormed(bs[k := bs[k].(free := false)])
  {
    var r := bs[k := bs[k].(free := false)];
    forall i | 0 <= i < |r| ensures GoodSize(r[i].size) { assert GoodSize(bs[i].size); }
    hide GoodSize;
  }

  lemma CarveLive(bs: seq<Block>, k: nat, size: nat)
    requires WellFormed(bs) && k < |bs| && bs[k].free && size <= bs[k].size
    ensures var r := Carve(bs, k, size);
      && k < |r| && r[k].off == bs[k].off && !r[k].free
      && size <= r[k].size <= size + HEADER + MIN_BLOCK_SIZE
      && r[k] !in Live(bs)
      && Live(r) == Live(bs) + {r[k]}
  {
    var r := Carve(bs, k, size);
    if r[k] in Live(bs) {
      var i :| 0 <= i < |bs| && bs[i] == r[k];
      OffsetsDistinct(bs, i, k);
    }
    forall b ensures b in Live(r) <==> b in Live(bs) + {r[k]} {
      if b in Live(bs) {
        var i :| 0 <= i < |bs| && bs[i] == b;
        assert r[if i > k && bs[k].size > size + HEADER + MIN_BLOCK_SIZE then i + 1 else i] == b;
      }
    }
  }

  /** The block a request gets: the lowest free one that is large enough, without more than a
      header and a minimal block to spare. */
  ghost predicate IsFirstFit(bs: seq<Block>, b: Block, size: nat) {
    && size <= b.size <= size + HEADER + MIN_BLOCK_SIZE && b.off % 8 == 0
    && (exists c :: c in bs && c.free && c.off == b.off && c.size >= size)
    && (forall c :: c in bs && c.free && c.size >= size ==> b.off <= c.off)
  }

  lemma FirstFitIsLowest(bs: seq<Block>, size: nat, k: nat, b: Block)
    requires Tiled(bs) && k == FirstFit(bs, size) < |bs|
    requires b.off == bs[k].off && size <= b.size <= size + HEADER + MIN_BLOCK_SIZE
    ensures IsFirstFit(bs, b, size)
  {
    Inside(bs, k);
    assert bs[k] in bs;
    forall c | c in bs && c.free && c.size >= size ensures b.off <= c.off {
      var i :| 0 <= i < |bs| && bs[i] == c;
      if i > k { Ordered(bs, k, i); }
    }
  }

  /** What a call of `kmalloc` does to the set of live blocks, and when it fails. */
  lemma AllocateSpec(bs: seq<Block>, size: nat)
    requires WellFormed(bs)
    ensures var (r, p) := Allocate(bs, size);
      && WellFormed(r)
      && (p.None? <==> size == 0 || forall b :: b in bs && b.free ==> b.size < Rounded(size))
      && (p.None? ==> r == bs)
      && (p.Some? ==> exists b ::
            && b in Live(r) && b !in Live(bs) && b.off == p.value && IsFirstFit(bs, b, Rounded(size))
            && Live(r) == Live(bs) + {b})
  {
    hide Rounded, Carve;
    if size > 0 {
      var k := FirstFit(bs, Rounded(size));
      if k < |bs| {
        CarveKeepsForm(bs, k, Rounded(size));
        CarveLive(bs, k, Rounded(size));
        FirstFitIsLowest(bs, Rounded(size), k, Carve(bs, k, Rounded(size))[k]);
        assert bs[k] in bs;
      }
    }
  }

  // ---------- Allocation, in the caller's size ----------

  /** What a request needs at least. */
  function Least(size: nat): nat { if size < MIN_BLOCK_SIZE then MIN_BLOCK_SIZE else size }

  /** The rounded size is the least multiple of 8 that is enough. */
  lemma RoundedIsLeast(size: nat, n: nat)
    requires size <= TWO64 - 8
    ensures Least(size) <= Rounded(size) < Least(size) + 8
    ensures n % 8 == 0 && n >= MIN_BLOCK_SIZE && n >= size ==> Rounded(size) <= n
  {
  }

  /** Block `c` of the list is the lowest free one with at least `n` bytes. */
  ghost predicate LowestFree(bs: seq<Block>, c: Block, n: nat) {
    c in bs && c.free && c.size >= n && forall d :: d in bs && d.free && d.size >= n ==> c.off <= d.off
  }

  /** The block made of `c`: all of it, or its first bytes rounded up to 8 when a header and
      more than a minimal block remain. */
  ghost predicate CutFrom(b: Block, c: Block, n: nat) {
    && b.off == c.off && !b.free && b.size % 8 == 0
    && (c.size < n + 8 + HEADER + MIN_BLOCK_SIZE ==> b.size == c.size)
    && (c.size >= n + 8 + HEADER + MIN_BLOCK_SIZE ==> n <= b.size < n + 8)
  }

  lemma BlockSizes(bs: seq<Block>, b: Block)
    requires Tiled(bs) && b in bs
    ensures b.size % 8 == 0
  {
    var i :| 0 <= i < |bs| && bs[i] == b;
    assert GoodSize(bs[i].size);
  }

  /** Multiples of 8 reach the rounded size exactly when they reach the size itself. */
  lemma RoundedAsBound(size: nat, m: nat)
    requires size <= TWO64 - 8 && m % 8 == 0
    ensures m >= Rounded(size) <==> m >= Least(size)
    ensures m > Rounded(size) + HEADER + MIN_BLOCK_SIZE <==> m >= Least(size) + 8 + HEADER + MIN_BLOCK_SIZE
  {
    RoundedIsLeast(size, m);
  }

  /** `kmalloc` in terms of the size asked for: it fails exactly when that is zero or more than
      every free block has, and otherwise cuts one new live block from the lowest that fits. */
  lemma AllocateExact(bs: seq<Block>, size: nat)
    requires WellFormed(bs) && size <= TWO64 - 8
    ensures Allocate(bs, size).1.None? <==> size == 0 || forall c :: c in bs && c.free ==> c.size < Least(size)
    ensures Allocate(bs, size).1.Some? ==> exists b, c ::
      && LowestFree(bs, c, Least(size)) && CutFrom(b, c, Least(size)) && Allocate(bs, size).1 == Some(b.off)
      && b !in Live(bs) && Live(Allocate(bs, size).0) == Live(bs) + {b}
  {
    AllocateSpec(bs, size);
    forall c | c in bs ensures c.size >= Rounded(size) <==> c.size >= Least(size) {
      BlockSizes(bs, c);
      RoundedAsBound(size, c.size);
    }
    if Allocate(bs, size).1.Some? {
      var k := FirstFit(bs, Rounded(size));
      var b := Carve(bs, k, Rounded(size))[k];
      CarveLive(bs, k, Rounded(size));
      FirstFitIsLowest(bs, Rounded(size), k, b);
      BlockSizes(bs, bs[k]);
      RoundedAsBound(size, bs[k].size);
      RoundedIsLeast(size, 0);
      assert bs[k] in bs;
      hide Rounded, FirstFit, Tiled, Coalesced;
      assert LowestFree(bs, bs[k], Least(size)) && CutFrom(b, bs[k], Least(size));
    }
  }

  // ---------- Release ----------

  lemma MergeKeepsTiling(bs: seq<Block>, i: nat)
    requires Tiled(bs) && i + 1 < |bs|
    ensures Tiled(MergeAt(bs, i))
  {
    var r := MergeAt(bs, i);
    assert GoodSize(bs[i].size) && GoodSize(bs[i + 1].size);
    assert GoodSize(bs[i].size + HEADER + bs[i + 1].size);
    forall j | 0 <= j < |r|
      ensures r[j] == if j < i then bs[j] else if j == i then bs[i].(size := bs[i].size + HEADER + bs[i + 1].size)
                      else bs[j + 1]
    {}
  }

  lemma MergeFlags(bs: seq<Block>, i: nat)
    requires i + 1 < |bs|
    ensures var r := MergeAt(bs, i);
      |r| == |bs| - 1 && forall j :: 0 <= j < |r| ==> r[j].free == bs[if j <= i then j else j + 1].free
  {
  }

  lemma MergeLive(bs: seq<Block>, i: nat)
    requires i + 1 < |bs| && bs[i].free && bs[i + 1].free
    ensures Live(MergeAt(bs, i)) == Live(bs)
  {
    var r := MergeAt(bs, i);
    forall b ensures b in Live(r) <==> b in Live(bs) {
      if b in Live(bs) {
        var j :| 0 <= j < |bs| && bs[j] == b;
        assert r[if j < i then j else j - 1] == b;
      }
    }
  }

  lemma MarkSpec(bs: seq<Block>, k: nat)
    requires WellFormed(bs) && k < |bs| && !bs[k].free
    ensures Tiled(Mark(bs, k)) && CoalescedBut(Mark(bs, k), k - 1, k + 1)
    ensures Live(Mark(bs, k)) == Live(bs) - {bs[k]}
  {
    var marked := Mark(bs, k);
    forall b ensures b in Live(marked) <==> b in Live(bs) - {bs[k]} {
      if b in Live(bs) {
        var i :| 0 <= i < |bs| && bs[i] == b;
        assert i != k ==> marked[i] == b;
      }
      if b in Live(marked) {
        var i :| 0 <= i < |marked| && marked[i] == b;
        assert bs[i] == b;
        if bs[i] == bs[k] { OffsetsDistinct(bs, i, k); }
      }
    }
  }

  /** Coalesced, except that the pairs starting at `lo..hi` may both be free. */
  ghost predicate CoalescedBut(bs: seq<Block>, lo: int, hi: int) {
    forall i, j :: 0 <= i < j < |bs| && j == i + 1 && !(lo <= i < hi) ==> !(bs[i].free && bs[j].free)
  }

  lemma AbsorbNextSpec(bs: seq<Block>, k: nat)
    requires Tiled(bs) && k < |bs| && bs[k].free && CoalescedBut(bs, k - 1, k + 1)
    ensures var r := AbsorbNext(bs, k);
      Tiled(r) && r[k].free && CoalescedBut(r, k - 1, k) && Live(r) == Live(bs)
  {
    hide MergeAt, Tiled, Live;
    if k + 1 < |bs| && bs[k + 1].free {
      MergeKeepsTiling(bs, k);
      MergeLive(bs, k);
      MergeFlags(bs, k);
    }
  }

  lemma AbsorbIntoPrevSpec(bs: seq<Block>, k: nat)
    requires Tiled(bs) && k < |bs| && bs[k].free && CoalescedBut(bs, k - 1, k)
    ensures var r := AbsorbIntoPrev(bs, k);
      WellFormed(r) && Live(r) == Live(bs)
  {
    hide MergeAt, Tiled, Live;
    if k > 0 && bs[k - 1].free {
      MergeKeepsTiling(bs, k - 1);
      MergeLive(bs, k - 1);
      MergeFlags(bs, k - 1);
    }
  }

  /** Freeing the live block `k` keeps the list well formed and removes exactly that block. */
  lemma ReleaseSpec(bs: seq<Block>, k: nat)
    requires WellFormed(bs) && k < |bs| && !bs[k].free
    ensures WellFormed(Release(bs, k))
    ensures Live(Release(bs, k)) == Live(bs) - {bs[k]}
  {
    MarkSpec(bs, k);
    AbsorbNextSpec(Mark(bs, k), k);
    AbsorbIntoPrevSpec(AbsorbNext(Mark(bs, k), k), k);
  }

  // ---------- Whole runs ----------

  lemma InitialForm()
    ensures WellFormed(INITIAL) && Live(INITIAL) == {}
  {
    assert GoodSize(INITIAL[0].size);
  }

  /** With nothing live, the list is the single block the heap started with. */
  lemma NothingLive(bs: seq<Block>)
    requires WellFormed(bs) && Live(bs) == {}
    ensures bs == INITIAL
  {
    assert forall b :: b in bs && !b.free ==> b in Live(bs);
    assert bs[0].free && (|bs| > 1 ==> bs[1].free);
  }

  /** No well-formed heap can serve a request for the whole heap. */
  lemma WholeHeapRequestFails(bs: seq<Block>)
    requires WellFormed(bs)
    ensures Allocate(bs, HEAP_SIZE) == (bs, None)
  {
    var k := FirstFit(bs, Rounded(HEAP_SIZE));
    if k < |bs| {
      Inside(bs, k);
    }
  }

  datatype Op =
    | Malloc(size: nat)
    | Free(off: nat)
    | Realloc(off: nat, newSize: nat)

  /** The block list together with the two statistics counters (32 bits each). */
  datatype Heap = Heap(bs: seq<Block>, allocs: nat, frees: nat)

  const BOOTED: Heap := Heap(INITIAL, 0, 0)

  ghost predicate IsLive(bs: seq<Block>, off: nat) {
    exists i :: 0 <= i < |bs| && bs[i].off == off && !bs[i].free
  }

  ghost function Position(bs: seq<Block>, off: nat): (k: nat)
    requires IsLive(bs, off)
    ensures k < |bs| && bs[k].off == off && !bs[k].free
  {
    var i :| 0 <= i < |bs| && bs[i].off == off && !bs[i].free; i
  }

  /** Only live blocks are freed or resized, and resized only to sizes for which the bytes
      copied fit into the new block. */
  ghost predicate Legal(h: Heap, op: Op) {
    match op
    case Malloc(size) => size < TWO64
    case Free(off) => IsLive(h.bs, off)
    case Realloc(off, newSize) =>
      && IsLive(h.bs, off) && newSize < TWO64
      && (Allocate(h.bs, newSize).1.Some? ==> CopyFits(h.bs, off, newSize))
  }

  ghost function Malloced(h: Heap, size: nat): Heap {
    var (r, p) := Allocate(h.bs, size);
    if p.None? then h else Heap(r, (h.allocs + 1) % TWO32, h.frees)
  }

  ghost function Freed(h: Heap, off: nat): Heap
    requires IsLive(h.bs, off)
  {
    Heap(Release(h.bs, Position(h.bs, off)), h.allocs, (h.frees + 1) % TWO32)
  }

  ghost function Reallocated(h: Heap, off: nat, size: nat): Heap
    requires IsLive(h.bs, off)
  {
    var grown := Malloced(h, size);
    if size == 0 then Freed(h, off)
    else if Allocate(h.bs, size).1.Some? && IsLive(grown.bs, off) then Freed(grown, off)
    else grown
  }

  ghost function Step(h: Heap, op: Op): Heap
    requires Legal(h, op)
  {
    match op
    case Malloc(size) => Malloced(h, size)
    case Free(off) => Freed(h, off)
    case Realloc(off, newSize) => Reallocated(h, off, newSize)
  }

  lemma LiveSurvivesMalloc(h: Heap, size: nat, off: nat)
    requires WellFormed(h.bs) && IsLive(h.bs, off)
    ensures IsLive(Malloced(h, size).bs, off)
  {
    AllocateSpec(h.bs, size);
    var b := h.bs[Position(h.bs, off)];
    assert b in Live(h.bs);
    assert b in Live(Malloced(h, size).bs);
  }

  /** The invariant of every run: form of the list, and the counters' balance. */
  ghost predicate Sound(h: Heap) {
    WellFormed(h.bs) && Balanced(h.frees, |Live(h.bs)|, h.allocs)
  }

  /** The counters agree with the number of live blocks, up to 32-bit wrap-around. */
  ghost predicate Balanced(frees: nat, live: int, allocs: nat) {
    (frees + live - allocs) % TWO32 == 0
  }

  lemma Balance(frees: nat, live: nat, allocs: nat)
    requires Balanced(frees, live, allocs)
    ensures Balanced(frees, live + 1, (allocs + 1) % TWO32)
    ensures Balanced((frees + 1) % TWO32, live - 1, allocs)
  {
  }

  lemma AllocateCount(bs: seq<Block>, size: nat)
    requires WellFormed(bs)
    ensures WellFormed(Allocate(bs, size).0)
    ensures Allocate(bs, size).1.Some? ==> |Live(Allocate(bs, size).0)| == |Live(bs)| + 1
  {
    AllocateSpec(bs, size);
    var r := Allocate(bs, size).0;
    if Allocate(bs, size).1.Some? {
      var b :| b !in Live(bs) && Live(r) == Live(bs) + {b};
    }
  }

  lemma MallocedSound(h: Heap, size: nat)
    requires Sound(h)
    ensures Sound(Malloced(h, size))
  {
    AllocateCount(h.bs, size);
    Balance(h.frees, |Live(h.bs)|, h.allocs);
  }

  lemma FreedSound(h: Heap, off: nat)
    requires Sound(h) && IsLive(h.bs, off)
    ensures Sound(Freed(h, off))
  {
    hide Release;
    var k := Position(h.bs, off);
    ReleaseSpec(h.bs, k);
    assert h.bs[k] in Live(h.bs);
    assert |Live(h.bs) - {h.bs[k]}| == |Live(h.bs)| - 1;
    Balance(h.frees, |Live(h.bs)|, h.allocs);
  }

  lemma StepSound(h: Heap, op: Op)
    requires Sound(h) && Legal(h, op)
    ensures Sound(Step(h, op))
  {
    match op
    case Malloc(size) => MallocedSound(h, size);
    case Free(off) => FreedSound(h, off);
    case Realloc(off, newSize) =>
      if newSize == 0 {
        FreedSound(h, off);
      } else if Allocate(h.bs, newSize).1.Some? {
        MallocedSound(h, newSize);
        LiveSurvivesMalloc(h, newSize, off);
        FreedSound(Malloced(h, newSize), off);
      }
  }

  /** What a resize does to the live blocks and the counters. */
  lemma ReallocatedSpec(h: Heap, off: nat, size: nat)
    requires WellFormed(h.bs) && IsLive(h.bs, off)
    ensures var b, r := h.bs[Position(h.bs, off)], Reallocated(h, off, size);
      && (size == 0 ==> Live(r.bs) == Live(h.bs) - {b} && r.allocs == h.allocs && r.frees == (h.frees + 1) % TWO32)
      && (size > 0 && Allocate(h.bs, size).1.None? ==> r == h)
      && (size > 0 && Allocate(h.bs, size).1.Some? ==>
            && Live(r.bs) == Live(Allocate(h.bs, size).0) - {b}
            && r.allocs == (h.allocs + 1) % TWO32 && r.frees == (h.frees + 1) % TWO32)
  {
    hide Release, Allocate, Tiled, Coalesced;
    var k := Position(h.bs, off);
    ReleaseSpec(h.bs, k);
    if Allocate(h.bs, size).1.Some? {
      LiveSurvivesMalloc(h, size, off);
      AllocateSpec(h.bs, size);
      var bs := Allocate(h.bs, size).0;
      assert h.bs[k] in Live(bs);
      var i :| 0 <= i < |bs| && bs[i] == h.bs[k];
      OffsetsDistinct(bs, i, Position(bs, off));
      ReleaseSpec(bs, i);
    }
  }

  /** `trace` lists the states of a run that frees only live pointers. */
  ghost predicate IsRun(trace: seq<Heap>, ops: seq<Op>) {
    && |trace| == |ops| + 1
    && trace[0] == BOOTED
    && forall i :: 0 <= i < |ops| ==>
         Legal(trace[i], ops[i]) && trace[i + 1] == Step(trace[i], ops[i])
  }

  lemma {:induction false} RunSound(trace: seq<Heap>, ops: seq<Op>, n: nat)
    requires IsRun(trace, ops) && n < |trace|
    ensures Sound(trace[n])
  {
    if n == 0 {
      InitialForm();
    } else {
      RunSound(trace, ops, n - 1);
      StepSound(trace[n - 1], ops[n - 1]);
    }
  }

  /** Main theorem on runs of the heap. */
  lemma HeapRuns(trace: seq<Heap>, ops: seq<Op>, n: nat)
    requires IsRun(trace, ops) && n < |trace|
    ensures WellFormed(trace[n].bs) && Occupied(trace[n].bs) == HEAP_SIZE
    ensures (trace[n].frees + |Live(trace[n].bs)| - trace[n].allocs) % TWO32 == 0
    ensures Live(trace[n].bs) == {} ==> trace[n].bs == INITIAL
    ensures Allocate(trace[n].bs, HEAP_SIZE) == (trace[n].bs, None)
  {
    RunSound(trace, ops, n);
    HeapIsFilled(trace[n].bs);
    WholeHeapRequestFails(trace[n].bs);
    if Live(trace[n].bs) == {} {
      NothingLive(trace[n].bs);
    }
  }

  ghost predicate Allocates(h: Heap, op: Op) {
    match op
    case Malloc(size) => Allocate(h.bs, size).1.Some?
    case Free(_) => false
    case Realloc(_, size) => Allocate(h.bs, size).1.Some?
  }

  ghost predicate Releases(h: Heap, op: Op) {
    match op
    case Malloc(_) => false
    case Free(_) => true
    case Realloc(_, size) => size == 0 || Allocate(h.bs, size).1.Some?
  }

  ghost function AllocCount(trace: seq<Heap>, ops: seq<Op>, n: nat): nat
    requires n <= |ops| && n <= |trace|
  {
    if n == 0 then 0 else AllocCount(trace, ops, n - 1) + if Allocates(trace[n - 1], ops[n - 1]) then 1 else 0
  }

  ghost function FreeCount(trace: seq<Heap>, ops: seq<Op>, n: nat): nat
    requires n <= |ops| && n <= |trace|
  {
    if n == 0 then 0 else FreeCount(trace, ops, n - 1) + if Releases(trace[n - 1], ops[n - 1]) then 1 else 0
  }

  lemma StepCounts(h: Heap, op: Op)
    requires WellFormed(h.bs) && Legal(h, op) && h.allocs < TWO32 && h.frees < TWO32
    ensures Step(h, op).allocs == (h.allocs + if Allocates(h, op) then 1 else 0) % TWO32
    ensures Step(h, op).frees == (h.frees + if Releases(h, op) then 1 else 0) % TWO32
  {
    hide Reallocated, Allocate, Release, CopyFits, Tiled, Coalesced, Live, IsLive;
    if op.Realloc? {
      ReallocatedSpec(h, op.off, op.newSize);
      if op.newSize == 0 { ZeroIsRefused(h.bs); }
    }
  }

  lemma ZeroIsRefused(bs: seq<Block>)
    ensures Allocate(bs, 0) == (bs, None)
  {
  }

  lemma CountOne(count: nat, n: nat)
    ensures (count % TWO32 + n) % TWO32 == (count + n) % TWO32
  {
  }

  /** The two counters count the allocations and the releases of the run, modulo 2^32. */
  lemma {:induction false} CountersCount(trace: seq<Heap>, ops: seq<Op>, n: nat)
    requires IsRun(trace, ops) && n < |trace|
    ensures trace[n].allocs == AllocCount(trace, ops, n) % TWO32
    ensures trace[n].frees == FreeCount(trace, ops, n) % TWO32
  {
    hide Step, Legal, Allocates, Releases, Balanced, Tiled, Coalesced, Live;
    if n > 0 {
      CountersCount(trace, ops, n - 1);
      RunSound(trace, ops, n - 1);
      StepCounts(trace[n - 1], ops[n - 1]);
      CountOne(AllocCount(trace, ops, n - 1), if Allocates(trace[n - 1], ops[n - 1]) then 1 else 0);
      CountOne(FreeCount(trace, ops, n - 1), if Releases(trace[n - 1], ops[n - 1]) then 1 else 0);
    }
  }

  // ---------- What a caller gets ----------

  lemma RoundingIsEnough(size: nat)
    requires size < TWO64
    ensures Rounded(size) >= size <==> size <= TWO64 - 8
    ensures size > TWO64 - 8 ==> Rounded(size) == MIN_BLOCK_SIZE
  {
  }

  /** The block handed out has the bytes asked for exactly when rounding does not wrap. */
  lemma RequestIsMet(bs: seq<Block>, size: nat, b: Block)
    requires WellFormed(bs) && size < TWO64 && Allocate(bs, size).1.Some?
    requires b in Live(Allocate(bs, size).0) && b !in Live(bs)
    ensures b.size >= size <==> size <= TWO64 - 8
  {
    AllocateSpec(bs, size);
    RoundingIsEnough(size);
  }

  /** A fresh heap grants the largest request there is with a block of 32 bytes. */
  lemma HugeRequestIsGranted()
    ensures var (r, p) := Allocate(INITIAL, TWO64 - 1);
      p == Some(0) && Live(r) == {Block(0, 32, false)}
  {
    RoundingIsEnough(TWO64 - 1);
    assert FirstFit(INITIAL, 32) == 0;
    var r := Allocate(INITIAL, TWO64 - 1).0;
    assert r == [Block(0, 32, false), Block(72, HEAP_SIZE - 112, true)];
    assert r[0] in Live(r);
  }

  /** The size of the block that a successful request is handed. */
  ghost function Granted(bs: seq<Block>, size: nat): nat
    requires Allocate(bs, size).1.Some?
  {
    var k := FirstFit(bs, Rounded(size));
    Carve(bs, k, Rounded(size))[k].size
  }

  /** The block `nb` that a successful allocation adds, and its position `kn`. */
  lemma NewBlock(bs: seq<Block>, size: nat) returns (nb: Block, kn: nat)
    requires WellFormed(bs) && size < TWO64 && Allocate(bs, size).1.Some?
    ensures var bs1 := Allocate(bs, size).0;
      && WellFormed(bs1) && kn < |bs1| && bs1[kn] == nb && !nb.free
      && nb in Live(bs1) && nb !in Live(bs) && Live(bs1) == Live(bs) + {nb}
      && nb.off == Allocate(bs, size).1.value && nb.size == Granted(bs, size) && nb.End() <= HEAP_SIZE
    ensures size <= TWO64 - 8 ==> nb.size >= size
  {
    AllocateSpec(bs, size);
    RoundingIsEnough(size);
    hide Rounded, Carve;
    kn := FirstFit(bs, Rounded(size));
    CarveLive(bs, kn, Rounded(size));
    var bs1 := Allocate(bs, size).0;
    nb := bs1[kn];
    Inside(bs1, kn);
  }

  // ---------- The copy of a resize ----------

  /** The bytes `krealloc` copies fit into the block it gets. */
  ghost predicate CopyFits(bs: seq<Block>, off: nat, size: nat)
    requires IsLive(bs, off) && Allocate(bs, size).1.Some?
  {
    Min(bs[Position(bs, off)].size, size) <= Granted(bs, size)
  }

  /** They always do unless rounding the size wraps; then they do exactly when the old block
      is not larger than the new one. */
  lemma CopyFitsExact(bs: seq<Block>, off: nat, size: nat)
    requires WellFormed(bs) && IsLive(bs, off) && size < TWO64 && Allocate(bs, size).1.Some?
    ensures CopyFits(bs, off, size) <==> size <= TWO64 - 8 || bs[Position(bs, off)].size <= Granted(bs, size)
  {
    hide Granted;
    var nb, kn := NewBlock(bs, size);
    Inside(bs, Position(bs, off));
  }

  /** Storing `n` bytes from the start of block `nb`'s payload meets no other block of the list
      and stays in the heap. */
  ghost predicate StoreIsHarmless(bs: seq<Block>, nb: Block, n: nat) {
    && nb.off + HEADER + n <= HEAP_SIZE
    && forall c :: c in bs && c != nb ==> c.End() <= nb.off + HEADER || nb.off + HEADER + n <= c.off
  }

  /** The copy of a resize hits another header or payload, or leaves the heap, exactly when
      it does not fit. */
  lemma CopyIsHarmlessExact(bs: seq<Block>, off: nat, size: nat, nb: Block)
    requires WellFormed(bs) && IsLive(bs, off) && size < TWO64 && Allocate(bs, size).1.Some?
    requires nb in Live(Allocate(bs, size).0) && nb !in Live(bs)
    ensures StoreIsHarmless(Allocate(bs, size).0, nb, Min(bs[Position(bs, off)].size, size))
            <==> CopyFits(bs, off, size)
  {
    var b, k := NewBlock(bs, size);
    var bs1 := Allocate(bs, size).0;
    hide Granted, Allocate, Live;
    assert b == nb;
    StoreFits(bs1, k, Min(bs[Position(bs, off)].size, size));
  }

  lemma StoreFits(bs: seq<Block>, k: nat, n: nat)
    requires Tiled(bs) && k < |bs|
    ensures StoreIsHarmless(bs, bs[k], n) <==> n <= bs[k].size
  {
    var nb := bs[k];
    Inside(bs, k);
    if n <= nb.size {
      forall c | c in bs && c != nb ensures c.End() <= nb.off + HEADER || nb.off + HEADER + n <= c.off {
        var i :| 0 <= i < |bs| && bs[i] == c;
        if i < k { Ordered(bs, i, k); } else { Ordered(bs, k, i); }
      }
    } else if k + 1 < |bs| {
      assert bs[k + 1] in bs && bs[k + 1].off == nb.End();
    }
  }

  /** After `kmalloc(200)` on a fresh heap, resizing the block to 2^64 - 1 bytes is granted with
      32 bytes at 240; the 200 bytes copied there overwrite the header at 312. */
  lemma WrappedResizeOverruns() returns (trace: seq<Heap>, ops: seq<Op>)
    ensures IsRun(trace, ops) && ops == [Malloc(200)] && IsLive(trace[1].bs, 0)
    ensures var (r, p) := Allocate(trace[1].bs, TWO64 - 1);
      && p == Some(240) && !CopyFits(trace[1].bs, 0, TWO64 - 1)
      && Block(240, 32, false) in r && Block(312, HEAP_SIZE - 352, true) in r
      && !StoreIsHarmless(r, Block(240, 32, false), 200)
  {
    ops := [Malloc(200)];
    var bs := [Block(0, 200, false), Block(240, HEAP_SIZE - 280, true)];
    assert Rounded(200) == 200 && FirstFit(INITIAL, 200) == 0;
    assert Carve(INITIAL, 0, 200) == bs;
    trace := [BOOTED, Heap(bs, 1, 0)];
    assert bs[0].off == 0 && !bs[0].free;
    assert Position(bs, 0) == 0;
    RoundingIsEnough(TWO64 - 1);
    assert FirstFit(bs, 32) == FirstFit(bs, 32, 1) == 1;
    var r := Allocate(bs, TWO64 - 1).0;
    assert r == [Block(0, 200, false), Block(240, 32, false), Block(312, HEAP_SIZE - 352, true)];
    assert r[1] in r && r[2] in r;
  }

  // ---------- Freeing twice ----------

  /** Freeing a block that is free already leaves the list as it is. */
  lemma ReleaseOfFree(bs: seq<Block>, k: nat)
    requires WellFormed(bs) && k < |bs| && bs[k].free
    ensures Mark(bs, k) == bs && AbsorbNext(bs, k) == bs && AbsorbIntoPrev(bs, k) == bs && Release(bs, k) == bs
  {
    assert bs[k].(free := true) == bs[k];
  }

  /** The counters agree with the live blocks after a free exactly when the block was live. */
  lemma FreeBalanceExact(h: Heap, k: nat)
    requires Sound(h) && k < |h.bs|
    ensures Sound(Heap(Release(h.bs, k), h.allocs, (h.frees + 1) % TWO32)) <==> !h.bs[k].free
  {
    hide Release;
    if h.bs[k].free {
      ReleaseOfFree(h.bs, k);
      Imbalance(h.frees, |Live(h.bs)|, h.allocs);
    } else {
      ReleaseSpec(h.bs, k);
      assert h.bs[k] in Live(h.bs);
      assert |Live(h.bs) - {h.bs[k]}| == |Live(h.bs)| - 1;
      Balance(h.frees, |Live(h.bs)|, h.allocs);
    }
  }

  /** Allocate, free and free again: nothing is live, and the counters say otherwise. */
  lemma SecondFreeUnbalances()
    ensures var h := Malloced(BOOTED, 32);
      && IsLive(h.bs, 0) && Freed(h, 0) == Heap(INITIAL, 1, 1)
      && !Sound(Heap(Release(INITIAL, 0), 1, 2))
  {
    var h := Malloced(BOOTED, 32);
    InitialForm();
    MallocedSound(BOOTED, 32);
    assert Rounded(32) == 32 && FirstFit(INITIAL, 32) == 0;
    assert h.bs == [Block(0, 32, false), Block(72, HEAP_SIZE - 112, true)];
    assert h.bs[0].off == 0 && !h.bs[0].free;
    assert Position(h.bs, 0) == 0;
    assert Mark(h.bs, 0) == [Block(0, 32, true), Block(72, HEAP_SIZE - 112, true)];
    FreeBalanceExact(Heap(INITIAL, 1, 1), 0);
  }

  lemma Imbalance(frees: nat, live: nat, allocs: nat)
    requires Balanced(frees, live, allocs)
    ensures !Balanced((frees + 1) % TWO32, live, allocs)
  {
  }
}
