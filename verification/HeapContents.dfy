/** The heap as its callers see it: live pointers, each with the bytes its owner stored. */
module HeapContents {
  import opened Machine
  import opened Bytes
  import opened HeapModel
  import opened KernelHeapMemory

  /** The block list, and for every live block (by offset) the bytes known to be at the start
      of its payload. */
  datatype Store = Store(heap: Heap, contents: map<nat, seq<byte>>)

  datatype Call =
    | New(size: nat)
    | Drop(off: nat)
    | Resize(off: nat, newSize: nat)
    | Fill(off: nat, at: nat, data: seq<byte>)

  ghost function SizeAt(bs: seq<Block>, off: nat): nat
    requires IsLive(bs, off)
  {
    bs[Position(bs, off)].size
  }

  /** Contents are known for the live blocks, and fit into them. */
  ghost predicate Agrees(s: Store) {
    && WellFormed(s.heap.bs)
    && (forall off :: off in s.contents <==> IsLive(s.heap.bs, off))
    && (forall off :: off in s.contents ==> |s.contents[off]| <= SizeAt(s.heap.bs, off))
  }

  /** Callers use live pointers only, and write inside their blocks. */
  ghost predicate Legal(s: Store, c: Call) {
    match c
    case New(size) => size < TWO64
    case Drop(off) => off in s.contents && IsLive(s.heap.bs, off)
    case Resize(off, size) =>
      && off in s.contents && IsLive(s.heap.bs, off) && size < TWO64
      && (Allocate(s.heap.bs, size).1.Some? ==> CopyFits(s.heap.bs, off, size))
    case Fill(off, at, data) =>
      off in s.contents && IsLive(s.heap.bs, off) && at <= |s.contents[off]|
      && at + |data| <= SizeAt(s.heap.bs, off)
  }

  function Overwritten(d: seq<byte>, at: nat, data: seq<byte>): (r: seq<byte>)
    requires at <= |d|
    ensures |r| == if at + |data| < |d| then |d| else at + |data|
    ensures forall i :: 0 <= i < |r| ==> r[i] == if at <= i < at + |data| then data[i - at] else d[i]
  {
    d[..at] + data + if at + |data| < |d| then d[at + |data|..] else []
  }

  function Prefix(d: seq<byte>, n: nat): seq<byte> { if n < |d| then d[..n] else d }

  /** What a call does to the pointers and contents. */
  ghost function After(s: Store, c: Call): Store
    requires Legal(s, c)
  {
    var h := s.heap;
    match c
    case New(size) =>
      (match Allocate(h.bs, size).1
       case None => s
       case Some(o) => Store(Malloced(h, size), s.contents[o := []]))
    case Drop(off) => Store(Freed(h, off), s.contents - {off})
    case Resize(off, size) =>
      if size == 0 then Store(Freed(h, off), s.contents - {off})
      else (match Allocate(h.bs, size).1
            case None => s
            case Some(o) =>
              Store(Reallocated(h, off, size), (s.contents - {off})[o := Prefix(s.contents[off], size)]))
    case Fill(off, at, data) => s.(contents := s.contents[off := Overwritten(s.contents[off], at, data)])
  }

  // ---------- The calls keep pointers and contents in step ----------

  lemma AgreesIsWellFormed(s: Store)
    requires Agrees(s)
    ensures WellFormed(s.heap.bs)
  {
  }

  /** Nothing is live at boot. */
  lemma BootedAgrees()
    ensures Agrees(Store(BOOTED, map[]))
  {
    InitialForm();
  }

  lemma LiveByBlock(bs: seq<Block>, b: Block)
    requires WellFormed(bs) && b in Live(bs)
    ensures IsLive(bs, b.off) && bs[Position(bs, b.off)] == b && SizeAt(bs, b.off) == b.size && b.End() <= HEAP_SIZE
  {
    var k := OldBlock(bs, bs, b);
  }

  lemma BlockOfLive(bs: seq<Block>, off: nat) returns (b: Block)
    requires IsLive(bs, off)
    ensures b in Live(bs) && b.off == off && b.size == SizeAt(bs, off) && b == bs[Position(bs, off)]
  {
    b := bs[Position(bs, off)];
  }

  /** Live offsets and sizes follow the set of live blocks. */
  lemma LiveOffsets(bs: seq<Block>, bs': seq<Block>, lost: set<Block>, won: set<Block>, off: nat)
    requires WellFormed(bs) && WellFormed(bs') && Live(bs') == Live(bs) - lost + won
    ensures (forall b :: b in lost + won ==> b.off != off) ==> (IsLive(bs', off) <==> IsLive(bs, off))
    ensures (forall b :: b in lost + won ==> b.off != off) && IsLive(bs, off) ==>
              IsLive(bs', off) && SizeAt(bs', off) == SizeAt(bs, off)
  {
    hide WellFormed, Live;
    if IsLive(bs, off) {
      var b := BlockOfLive(bs, off);
      if b in Live(bs') { LiveByBlock(bs', b); }
    }
    if IsLive(bs', off) {
      var b := BlockOfLive(bs', off);
      if b in Live(bs) { LiveByBlock(bs, b); }
    }
  }

  lemma NewAgrees(s: Store, size: nat)
    requires Agrees(s) && Legal(s, New(size))
    ensures Agrees(After(s, New(size)))
    ensures Allocate(s.heap.bs, size).1.Some? ==> Allocate(s.heap.bs, size).1.value !in s.contents
  {
    hide WellFormed, Live, Allocate;
    var bs := s.heap.bs;
    if Allocate(bs, size).1.Some? {
      var nb, kn := NewBlock(bs, size);
      var bs1 := Allocate(bs, size).0;
      LiveByBlock(bs1, nb);
      NewIsNew(bs, bs1, nb);
      forall off | off != nb.off
        ensures IsLive(bs1, off) <==> IsLive(bs, off)
        ensures IsLive(bs, off) ==> SizeAt(bs1, off) == SizeAt(bs, off)
      {
        LiveOffsets(bs, bs1, {}, {nb}, off);
      }
    }
  }

  /** A new block is not at the place of a live one. */
  lemma NewIsNew(bs: seq<Block>, bs1: seq<Block>, nb: Block)
    requires WellFormed(bs) && WellFormed(bs1) && Live(bs1) == Live(bs) + {nb} && nb !in Live(bs)
    ensures !IsLive(bs, nb.off)
  {
    hide WellFormed, Live;
    LiveByBlock(bs1, nb);
    if IsLive(bs, nb.off) {
      var b := BlockOfLive(bs, nb.off);
      LiveByBlock(bs1, b);
    }
  }

  lemma DropAgrees(s: Store, off: nat)
    requires Agrees(s) && off in s.contents
    ensures IsLive(s.heap.bs, off) && Agrees(Store(Freed(s.heap, off), s.contents - {off}))
  {
    hide WellFormed, Live, Release;
    var bs := s.heap.bs;
    var b := BlockOfLive(bs, off);
    ReleaseSpec(bs, Position(bs, off));
    var bs1 := Release(bs, Position(bs, off));
    if IsLive(bs1, off) {
      var c := BlockOfLive(bs1, off);
      LiveByBlock(bs, c);
    }
    forall o | o != off
      ensures IsLive(bs1, o) <==> IsLive(bs, o)
      ensures IsLive(bs, o) ==> SizeAt(bs1, o) == SizeAt(bs, o)
    {
      LiveOffsets(bs, bs1, {b}, {}, o);
    }
  }

  /** The first half of a resize: the new block has taken over the contents. */
  ghost function Grown(s: Store, off: nat, size: nat): Store
    requires Agrees(s) && Legal(s, Resize(off, size)) && Allocate(s.heap.bs, size).1.Some?
  {
    Store(Malloced(s.heap, size), s.contents[Allocate(s.heap.bs, size).1.value := Prefix(s.contents[off], size)])
  }

  lemma GrownAgrees(s: Store, off: nat, size: nat)
    requires Agrees(s) && Legal(s, Resize(off, size)) && Allocate(s.heap.bs, size).1.Some?
    ensures Agrees(Grown(s, off, size)) && Allocate(s.heap.bs, size).1.value !in s.contents
  {
    hide WellFormed, Live, Allocate, IsLive, Carve, Rounded, FirstFit;
    AgreesIsWellFormed(s);
    NewAgrees(s, size);
    var nb, kn := NewBlock(s.heap.bs, size);
    LiveByBlock(Allocate(s.heap.bs, size).0, nb);
  }

  /** Resizing is allocating, taking over the contents, and dropping. */
  lemma ResizeIsDrop(s: Store, off: nat, size: nat)
    requires Agrees(s) && Legal(s, Resize(off, size)) && Allocate(s.heap.bs, size).1.Some? && size > 0
    requires Agrees(Grown(s, off, size)) && Allocate(s.heap.bs, size).1.value !in s.contents
    ensures IsLive(Grown(s, off, size).heap.bs, off)
    ensures After(s, Resize(off, size)) ==
            Store(Freed(Grown(s, off, size).heap, off), Grown(s, off, size).contents - {off})
  {
    hide Allocate, WellFormed, IsLive, Malloced, Freed;
    var o, p := Allocate(s.heap.bs, size).1.value, Prefix(s.contents[off], size);
    assert (s.contents - {off})[o := p] == s.contents[o := p] - {off};
  }

  lemma AfterAgrees(s: Store, c: Call)
    requires Agrees(s) && Legal(s, c)
    ensures Agrees(After(s, c))
  {
    match c
    case New(size) => NewAgrees(s, size);
    case Drop(off) => DropAgrees(s, off);
    case Resize(off, size) =>
      hide Allocate, WellFormed, IsLive, Malloced, Freed;
      if size == 0 {
        DropAgrees(s, off);
      } else if Allocate(s.heap.bs, size).1.Some? {
        GrownAgrees(s, off, size);
        ResizeIsDrop(s, off, size);
        DropAgrees(Grown(s, off, size), off);
      }
    case Fill(off, at, data) =>
  }

  // ---------- Whole runs ----------

  ghost predicate IsRun(trace: seq<Store>, calls: seq<Call>) {
    && |trace| == |calls| + 1 && Agrees(trace[0])
    && forall n :: 0 <= n < |calls| ==> Legal(trace[n], calls[n]) && trace[n + 1] == After(trace[n], calls[n])
  }

  lemma {:induction false} RunAgrees(trace: seq<Store>, calls: seq<Call>, n: nat)
    requires IsRun(trace, calls) && n < |trace|
    ensures Agrees(trace[n])
  {
    hide After, Legal, Agrees;
    if n > 0 {
      RunAgrees(trace, calls, n - 1);
      AfterAgrees(trace[n - 1], calls[n - 1]);
    }
  }

  /** An object through a call: where its block is, and how many of its first bytes are kept.
      It moves with a resize and ends with a release. */
  ghost function Moves(s: Store, c: Call, place: Option<(nat, nat)>): Option<(nat, nat)> {
    if place.None? then None
    else
      var (off, n) := place.value;
      if c == Drop(off) then None
      else if c.Resize? && c.off == off then
        if c.newSize == 0 then None
        else (match Allocate(s.heap.bs, c.newSize).1
              case None => place
              case Some(o) => Some((o, Min(n, c.newSize))))
      else place
  }

  ghost function Place(trace: seq<Store>, calls: seq<Call>, off: nat, n: nat): Option<(nat, nat)>
    requires n <= |calls| && n < |trace| && |trace| > 0 && off in trace[0].contents
  {
    if n == 0 then Some((off, |trace[0].contents[off]|))
    else Moves(trace[n - 1], calls[n - 1], Place(trace, calls, off, n - 1))
  }

  /** The object is at its place, with the bytes `d` as far as they are kept. */
  ghost predicate IsAt(s: Store, place: Option<(nat, nat)>, d: seq<byte>) {
    place.Some? ==>
      place.value.1 <= |d| && place.value.0 in s.contents && s.contents[place.value.0] == d[..place.value.1]
  }

  /** A call that does not write to the object leaves its bytes in place, wherever it moves. */
  lemma CallKeepsBytes(s: Store, c: Call, place: Option<(nat, nat)>, d: seq<byte>)
    requires Agrees(s) && Legal(s, c) && IsAt(s, place, d)
    requires place.Some? && c.Fill? ==> c.off != place.value.0
    ensures IsAt(After(s, c), Moves(s, c, place), d)
  {
    hide Agrees, Allocate, Malloced, Freed, Reallocated, IsLive, Overwritten;
    match c
    case New(size) => NewAgrees(s, size);
    case Resize(off, size) => if Allocate(s.heap.bs, size).1.Some? { GrownAgrees(s, off, size); }
    case Drop(_) =>
    case Fill(_, _, _) =>
  }

  /** Bytes stored in a live block stay there through any calls of all owners, across
      resizes, until the block is dropped or its owner writes to it again. */
  lemma {:induction false} BytesStay(trace: seq<Store>, calls: seq<Call>, off: nat, n: nat)
    requires IsRun(trace, calls) && n < |trace| && off in trace[0].contents
    requires forall m :: 0 <= m < n && calls[m].Fill? && Place(trace, calls, off, m).Some? ==>
               calls[m].off != Place(trace, calls, off, m).value.0
    ensures IsAt(trace[n], Place(trace, calls, off, n), trace[0].contents[off])
  {
    hide After, Legal, Agrees, Moves;
    if n > 0 {
      BytesStay(trace, calls, off, n - 1);
      RunAgrees(trace, calls, n - 1);
      CallKeepsBytes(trace[n - 1], calls[n - 1], Place(trace, calls, off, n - 1), trace[0].contents[off]);
    }
  }

  // ---------- The heap in memory ----------

  ghost predicate StoredAt(m: seq<byte>, off: nat, d: seq<byte>) {
    off + HEADER + |d| <= |m| && m[off + HEADER..off + HEADER + |d|] == d
  }

  ghost predicate InMemory(m: seq<byte>, contents: map<nat, seq<byte>>) {
    |m| == HEAP_SIZE && forall off :: off in contents ==> StoredAt(m, off, contents[off])
  }

  ghost predicate Holds(k: KernelHeap, s: Store)
    reads k, k.mem
  {
    && k.Valid() && k.first != 0 && s.heap == Heap(k.blocks, k.allocs, k.frees)
    && Agrees(s) && InMemory(k.mem[..], s.contents)
  }

  /** Payloads that are kept keep the contents. */
  lemma KeepContents(s: Store, m: seq<byte>, m': seq<byte>)
    requires Agrees(s) && InMemory(m, s.contents) && PayloadsKept(s.heap.bs, m, m')
    ensures InMemory(m', s.contents)
  {
    hide Agrees, WellFormed;
    forall off | off in s.contents ensures StoredAt(m', off, s.contents[off]) {
      KeepOne(s, m, m', off);
    }
  }

  lemma KeepOne(s: Store, m: seq<byte>, m': seq<byte>, off: nat)
    requires Agrees(s) && off in s.contents && StoredAt(m, off, s.contents[off]) && PayloadsKept(s.heap.bs, m, m')
    ensures StoredAt(m', off, s.contents[off])
  {
    hide WellFormed;
    var b := BlockOfLive(s.heap.bs, off);
    var lo, hi := off + HEADER, off + HEADER + |s.contents[off]|;
    assert m'[lo..hi] == m[lo..hi];
  }

  /** The moved block starts with what is kept of the old contents. */
  lemma MovedOwn(m: seq<byte>, m': seq<byte>, src: nat, dst: nat, n: nat, d: seq<byte>, e: seq<byte>)
    requires src + n <= |m| && dst + n <= |m'| && m'[dst..dst + n] == m[src..src + n]
    requires src + |d| <= |m| && m[src..src + |d|] == d && e <= d && |e| <= n
    ensures dst + |e| <= |m'| && m'[dst..dst + |e|] == e
  {
    assert m'[dst..dst + |e|] == m'[dst..dst + n][..|e|];
    assert m[src..src + n][..|e|] == m[src..src + |d|][..|e|];
  }

  /** The other blocks are as they were. */
  lemma MovedOther(s: Store, bs': seq<Block>, m: seq<byte>, m': seq<byte>, b: Block, nb: Block, n: nat, off: nat)
    requires Agrees(s) && off in s.contents && off != b.off && StoredAt(m, off, s.contents[off])
    requires Moved(s.heap.bs, bs', m, m', b, nb, n)
    ensures StoredAt(m', off, s.contents[off])
  {
    hide WellFormed, Live;
    var c := BlockOfLive(s.heap.bs, off);
    var lo, hi := off + HEADER, off + HEADER + |s.contents[off]|;
    assert m'[lo..hi] == m[lo..hi];
  }

  lemma MoveContents(s: Store, s': Store, m: seq<byte>, m': seq<byte>, b: Block, nb: Block, size: nat)
    requires Agrees(s) && InMemory(m, s.contents) && b.off in s.contents
    requires Moved(s.heap.bs, s'.heap.bs, m, m', b, nb, Min(b.size, size))
    requires s'.contents == (s.contents - {b.off})[nb.off := Prefix(s.contents[b.off], size)]
    ensures InMemory(m', s'.contents)
  {
    hide WellFormed, Live, IsLive;
    LiveByBlock(s.heap.bs, b);
    var d := s.contents[b.off];
    assert StoredAt(m, b.off, d) && |d| <= b.size;
    MovedOwn(m, m', b.off + HEADER, nb.off + HEADER, Min(b.size, size), d, Prefix(d, size));
    hide Moved, Prefix, StoredAt, Agrees;
    forall off | off in s.contents && off != b.off ensures StoredAt(m', off, s.contents[off]) {
      assert StoredAt(m, off, s.contents[off]);
      MovedOther(s, s'.heap.bs, m, m', b, nb, Min(b.size, size), off);
    }
    assert StoredAt(m', nb.off, Prefix(d, size)) by { IsStored(m', nb.off, Prefix(d, size)); }
  }

  lemma IsStored(m: seq<byte>, off: nat, d: seq<byte>)
    requires off + HEADER + |d| <= |m| && m[off + HEADER..off + HEADER + |d|] == d
    ensures StoredAt(m, off, d)
  {
  }

  /** A store into block `b` leaves the contents of the others. */
  lemma FillOther(s: Store, b: Block, m: seq<byte>, m': seq<byte>, at: nat, n: nat, o: nat)
    requires Agrees(s) && o in s.contents && o != b.off && StoredAt(m, o, s.contents[o])
    requires b in Live(s.heap.bs) && at + n <= b.size && |m'| == |m|
    requires forall x :: 0 <= x < |m| && !(b.off + HEADER + at <= x < b.off + HEADER + at + n) ==> m'[x] == m[x]
    ensures StoredAt(m', o, s.contents[o])
  {
    hide Tiled, Coalesced, Live;
    var c := BlockOfLive(s.heap.bs, o);
    LivePayloadsDisjoint(s.heap.bs, b, c);
    var lo, hi := o + HEADER, o + HEADER + |s.contents[o]|;
    assert m'[lo..hi] == m[lo..hi];
  }

  lemma FillContents(s: Store, off: nat, at: nat, data: seq<byte>, m: seq<byte>)
    requires Agrees(s) && Legal(s, Fill(off, at, data)) && InMemory(m, s.contents)
    requires off + HEADER + at + |data| <= |m|
    ensures InMemory(Put(m, off + HEADER + at, data), After(s, Fill(off, at, data)).contents)
  {
    hide Tiled, Coalesced, Put, Live, IsLive, Overwritten;
    var m' := Put(m, off + HEADER + at, data);
    var b := BlockOfLive(s.heap.bs, off);
    forall o | o in s.contents ensures StoredAt(m', o, After(s, Fill(off, at, data)).contents[o]) {
      assert StoredAt(m, o, s.contents[o]);
      if o != off {
        FillOther(s, b, m, m', at, |data|, o);
      } else {
        FillOwn(m, o + HEADER, s.contents[o], at, data);
      }
    }
  }

  lemma FillOwn(m: seq<byte>, lo: nat, d: seq<byte>, at: nat, data: seq<byte>)
    requires lo + |d| <= |m| && m[lo..lo + |d|] == d && at <= |d| && lo + at + |data| <= |m|
    ensures var d' := Overwritten(d, at, data);
      lo + |d'| <= |m| && Put(m, lo + at, data)[lo..lo + |d'|] == d'
  {
    var d', m' := Overwritten(d, at, data), Put(m, lo + at, data);
    forall i | 0 <= i < |d'| ensures m'[lo + i] == d'[i] {
      if at <= i < at + |data| {
        assert m'[lo + at..lo + at + |data|][i - at] == data[i - at];
      } else {
        assert m[lo..lo + |d|][i] == d[i];
      }
    }
  }

  method CallNew(k: KernelHeap, size: nat, ghost s: Store) returns (p: nat)
    requires Holds(k, s) && Legal(s, New(size))
    modifies k, k.mem
    ensures Holds(k, After(s, New(size)))
    ensures p == match Allocate(s.heap.bs, size).1 case None => 0 case Some(o) => k.base + o + HEADER
  {
    hide Agrees, WellFormed, Allocate, PayloadsKept, IsLive, StoredAt;
    ghost var m := k.mem[..];
    p := k.Kmalloc(size);
    NewAgrees(s, size);
    KeepContents(s, m, k.mem[..]);
    if Allocate(s.heap.bs, size).1.Some? {
      NewFits(s.heap.bs, size, k.mem[..]);
    }
  }

  lemma NewFits(bs: seq<Block>, size: nat, m: seq<byte>)
    requires WellFormed(bs) && size < TWO64 && Allocate(bs, size).1.Some? && |m| == HEAP_SIZE
    ensures StoredAt(m, Allocate(bs, size).1.value, [])
  {
    var nb, kn := NewBlock(bs, size);
  }

  method CallDrop(k: KernelHeap, off: nat, ghost s: Store)
    requires Holds(k, s) && off in s.contents
    modifies k, k.mem
    ensures IsLive(s.heap.bs, off) && Holds(k, Store(Freed(s.heap, off), s.contents - {off}))
  {
    DropAgrees(s, off);
    hide Agrees, WellFormed, PayloadsKept, StoredAt, Release;
    ghost var m := k.mem[..];
    k.Kfree(k.base + off + HEADER);
    KeepContents(Store(Freed(s.heap, off), s.contents - {off}), m, k.mem[..]);
  }

  /** What a resize makes of heap and contents, case by case. */
  lemma AfterResize(s: Store, off: nat, size: nat)
    requires Agrees(s) && Legal(s, Resize(off, size))
    ensures IsLive(s.heap.bs, off) && After(s, Resize(off, size)).heap == Reallocated(s.heap, off, size)
    ensures size > 0 && Allocate(s.heap.bs, size).1.Some? ==>
      After(s, Resize(off, size)).contents ==
      (s.contents - {off})[Allocate(s.heap.bs, size).1.value := Prefix(s.contents[off], size)]
    ensures (size == 0 || Allocate(s.heap.bs, size).1.None?) ==>
      forall o :: o in After(s, Resize(off, size)).contents ==>
                    o in s.contents && After(s, Resize(off, size)).contents[o] == s.contents[o]
  {
    hide Allocate;
  }

  method CallResize(k: KernelHeap, off: nat, size: nat, ghost s: Store) returns (p: nat)
    requires Holds(k, s) && Legal(s, Resize(off, size))
    modifies k, k.mem
    ensures Holds(k, After(s, Resize(off, size)))
    ensures size > 0 ==> p == match Allocate(s.heap.bs, size).1 case None => 0 case Some(o) => k.base + o + HEADER
  {
    hide Agrees, WellFormed, Allocate, PayloadsKept, StoredAt, Release, Moved, Live, After, Reallocated, Malloced,
         Freed, CopyFits, IsLive, Position, Decodes, Encodes, Prefix;
    AgreesIsWellFormed(s);
    AfterAgrees(s, Resize(off, size));
    AfterResize(s, off, size);
    ghost var m := k.mem[..];
    p := k.Krealloc(k.base + off + HEADER, size);
    if p == 0 {
      assert InMemory(m, After(s, Resize(off, size)).contents);
      KeepContents(After(s, Resize(off, size)), m, k.mem[..]);
    } else {
      ghost var b: Block, nb: Block :|
        && off == b.off && p == k.base + nb.off + HEADER
        && Moved(s.heap.bs, k.blocks, m, k.mem[..], b, nb, Min(b.size, size));
      MoveContents(s, After(s, Resize(off, size)), m, k.mem[..], b, nb, size);
    }
  }

  method CallFill(k: KernelHeap, off: nat, at: nat, data: seq<byte>, ghost s: Store)
    requires Holds(k, s) && Legal(s, Fill(off, at, data))
    modifies k, k.mem
    ensures Holds(k, After(s, Fill(off, at, data)))
  {
    hide Agrees, WellFormed, StoredAt, Overwritten, IsLive, Live, Decodes, Encodes;
    AgreesIsWellFormed(s);
    AfterAgrees(s, Fill(off, at, data));
    ghost var b := BlockOfLive(s.heap.bs, off);
    LiveByBlock(s.heap.bs, b);
    FillContents(s, off, at, data, k.mem[..]);
    k.WritePayload(k.base + off + HEADER + at, data, Position(s.heap.bs, off));
  }

  /** Any run of calls by the owners of live blocks: the blocks and bytes in memory are those
      of the specification throughout, so `BytesStay` holds of the bytes in memory. */
  method Execute(k: KernelHeap, calls: seq<Call>, ghost trace: seq<Store>)
    requires IsRun(trace, calls) && Holds(k, trace[0])
    modifies k, k.mem
    ensures Holds(k, trace[|calls|])
  {
    hide Holds, After, Legal, Agrees;
    for n := 0 to |calls|
      invariant Holds(k, trace[n])
    {
      Perform(k, calls[n], trace[n]);
    }
  }

  method Perform(k: KernelHeap, c: Call, ghost s: Store)
    requires Holds(k, s) && Legal(s, c)
    modifies k, k.mem
    ensures Holds(k, After(s, c))
  {
    hide Agrees, InMemory, WellFormed, Allocate;
    match c
    case New(size) => var p := CallNew(k, size, s);
    case Drop(off) => CallDrop(k, off, s);
    case Resize(off, size) => var p := CallResize(k, off, size, s);
    case Fill(off, at, data) => CallFill(k, off, at, data, s);
  }
}
