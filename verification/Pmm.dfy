/** The physical page allocator of kernel/mm/pmm.c: free lists whose links are the first
    words of the free blocks themselves. */
module PhysicalMemory {
  import opened Machine
  import opened BuddyModel

  /** A result kept in 64 bits. */
  function Wrap(x: int): (r: nat)
    ensures r < TWO64
  {
    x % TWO64
  }

  lemma WrapAdd(x: int, n: int)
    ensures Wrap(Wrap(x) + n) == Wrap(x + n)
  {
  }

  lemma WrapSmall(x: nat)
    requires x < TWO64
    ensures Wrap(x) == x && Wrap(0) == 0
  {
  }

  /** Page counts for which the search for an order ends. */
  const MAX_COUNT: nat := 0x8000_0000_0000_0000

  /** Memory as 64-bit words by address. */
  type Memory = int -> int

  function Store(m: Memory, a: int, v: int): Memory {
    x => if x == a then v else m(x)
  }

  function Zero(m: Memory, lo: int, hi: int): Memory {
    x => if lo <= x < hi then 0 else m(x)
  }

  /** The list starting at `head` runs through the blocks of `s`. */
  ghost predicate Chain(m: Memory, head: int, s: seq<nat>)
    decreases s
  {
    if s == [] then head == 0
    else head == s[0] && head != 0 && head % PAGE_SIZE == 0 && Chain(m, m(head), s[1..])
  }

  lemma {:induction false} ChainFrame(m: Memory, m': Memory, head: int, s: seq<nat>)
    requires Chain(m, head, s) && forall a :: a in s ==> m'(a) == m(a)
    ensures Chain(m', head, s)
    decreases s
  {
    if s != [] {
      assert forall a :: a in s[1..] ==> a in s;
      ChainFrame(m, m', m(head), s[1..]);
    }
  }

  ghost predicate Chains(m: Memory, heads: seq<int>, ls: Lists) {
    && |heads| == |ls|
    && forall k :: 0 <= k < |ls| ==> Chain(m, heads[k], ls[k])
  }

  /** No page is listed twice; page 0 and pages beyond the 64-bit address space never. */
  ghost predicate Sound(ls: Lists) {
    forall x :: Listed(ls, x) <= Cap(x)
  }

  lemma SoundMeans(ls: Lists)
    requires Sound(ls)
    ensures forall x: nat :: Listed(ls, x) <= Cap(x)
  {
  }

  function Cap(x: nat): nat { if 1 <= x < 0x10_0000_0000_0000 then 1 else 0 }

  /** Memory that differs outside the listed pages only leaves all lists intact. */
  lemma ChainsFrame(m: Memory, m': Memory, heads: seq<int>, ls: Lists)
    requires Chains(m, heads, ls)
    requires forall a: nat :: m'(a) != m(a) ==> Listed(ls, a / PAGE_SIZE) == 0
    ensures Chains(m', heads, ls)
  {
    forall k | 0 <= k < |ls| ensures Chain(m', heads[k], ls[k]) {
      forall a | a in ls[k] ensures m'(a) == m(a) { BlockIsFree(ls, k, a); }
      ChainFrame(m, m', heads[k], ls[k]);
    }
  }

  lemma PushChains(m: Memory, heads: seq<int>, ls: Lists, k: nat, b: nat)
    requires Chains(m, heads, ls) && k < |ls| && b > 0 && b % PAGE_SIZE == 0
    requires Listed(ls, b / PAGE_SIZE) == 0
    ensures Chains(Store(m, b, heads[k]), heads[k := b], Push(ls, k, b))
  {
    var m' := Store(m, b, heads[k]);
    ChainsFrame(m, m', heads, ls);
    assert ([b] + ls[k])[1..] == ls[k];
  }

  lemma PopChains(m: Memory, heads: seq<int>, ls: Lists, k: nat)
    requires Chains(m, heads, ls) && k < |ls| && ls[k] != []
    ensures Chains(m, heads[k := m(heads[k])], Pop(ls, k))
  {
  }

  /** Pages of a block, by address. */
  lemma AddressInBlock(b: nat, k: nat, a: nat)
    requires b % PAGE_SIZE == 0 && b <= a < b + Size(k)
    ensures InBlock(b, k, a / PAGE_SIZE) == 1
  {
  }

  ghost function Nothing(): Lists { seq(ORDERS, _ => []) }

  lemma {:induction false} NothingFrom(k: nat, x: nat)
    ensures Listed(Nothing(), x, k) == 0 && Total(Nothing(), k) == 0
    decreases ORDERS - k
  {
    if k < ORDERS { NothingFrom(k + 1, x); }
  }

  lemma NothingListed()
    ensures Sound(Nothing()) && Total(Nothing()) == 0 && (forall x: nat :: Listed(Nothing(), x) == 0)
  {
    forall x: nat ensures Listed(Nothing(), x) == 0 && Total(Nothing()) == 0 { NothingFrom(0, x); }
  }

  lemma NothingChains(m: Memory, heads: seq<int>)
    requires |heads| == ORDERS && forall k :: 0 <= k < ORDERS ==> heads[k] == 0
    ensures Chains(m, heads, Nothing())
  {
  }

  /** Moving `n` pages from used to free, or back, keeps the sum modulo 2^64. */
  lemma AccountKept(used: nat, count: nat, n: int)
    ensures Wrap(Wrap(used - n * PAGE_SIZE) + PAGE_SIZE * Wrap(count + n)) == Wrap(used + PAGE_SIZE * count)
  {
    var q, r := (used - n * PAGE_SIZE) / TWO64, (count + n) / TWO64;
    var sum := Wrap(used - n * PAGE_SIZE) + PAGE_SIZE * Wrap(count + n);
    assert sum == used + PAGE_SIZE * count - TWO64 * (q + PAGE_SIZE * r);
    WholeTurns(used + PAGE_SIZE * count, -(q + PAGE_SIZE * r));
  }

  lemma WholeTurns(a: int, k: int)
    ensures Wrap(a + TWO64 * k) == Wrap(a)
  {
  }

  /** The least order whose blocks have at least `count` pages. */
  function OrderOf(count: nat, k: nat := 0): (order: nat)
    ensures k <= order && Pow2(order) >= count
    ensures forall j :: k <= j < order ==> Pow2(j) < count
    decreases if Pow2(k) >= count then 0 else count - Pow2(k)
  {
    if Pow2(k) >= count then k else OrderOf(count, k + 1)
  }

  method OrderFor(count: nat) returns (order: nat)
    requires count <= MAX_COUNT
    ensures order == OrderOf(count)
  {
    var total := 1;
    order := 0;
    while total < count
      invariant total == Pow2(order) < TWO64
      invariant OrderOf(count) == OrderOf(count, order)
      decreases if total < count then count - total else 0
    {
      total, order := total * 2 % TWO64, order + 1;
    }
  }

  /** No list is long enough for more than 1024 pages. */
  lemma TooManyPages(ls: Lists, count: nat)
    requires |ls| == ORDERS
    ensures OrderOf(count) < ORDERS <==> count <= 1024
    ensures count > 1024 ==> Alloc(ls, OrderOf(count)) == (ls, None)
  {
    assert Pow2(10) == 1024 by {
      assert Pow2(4) == 16;
      assert Pow2(8) == 16 * Pow2(4);
    }
    hide Alloc, Pow2;
    if count > 1024 {
      LargerPowers(OrderOf(count), 10);
      NoSuchList(ls, OrderOf(count));
    }
  }

  lemma {:induction false} LargerPowers(a: nat, b: nat)
    ensures a <= b ==> Pow2(a) <= Pow2(b)
  {
    if a < b { LargerPowers(a, b - 1); }
  }

  lemma NoSuchList(ls: Lists, order: nat)
    ensures order >= |ls| ==> Alloc(ls, order) == (ls, None)
  {
  }

  // ---------- Seeding from the boot memory map ----------

  datatype Region = Region(base: nat, length: nat, usable: bool)

  function AlignedBase(r: Region): (b: nat)
    ensures b % PAGE_SIZE == 0
  {
    (r.base + PAGE_SIZE - 1) % TWO64 / PAGE_SIZE * PAGE_SIZE
  }

  function AlignedLength(r: Region): (n: nat)
    ensures n % PAGE_SIZE == 0
  {
    (r.length - (AlignedBase(r) - r.base)) % TWO64 / PAGE_SIZE * PAGE_SIZE
  }

  /** Where the seeding loop for the region stops. */
  function SeedEnd(r: Region): (e: nat)
    ensures e % PAGE_SIZE == 0
  {
    (AlignedBase(r) + AlignedLength(r)) % TWO64
  }

  predicate Seeds(r: Region) { r.usable && AlignedBase(r) >= 0x100_0000 }

  /** How often the region puts page `x` on the lists. */
  function Seeded(r: Region, x: nat): nat {
    if Seeds(r) && AlignedBase(r) / PAGE_SIZE <= x < SeedEnd(r) / PAGE_SIZE then 1 else 0
  }

  function SeededBy(rs: seq<Region>, x: nat): nat {
    if rs == [] then 0 else SeededBy(rs[..|rs| - 1], x) + Seeded(rs[|rs| - 1], x)
  }

  lemma {:induction false} SeededPrefix(rs: seq<Region>, n: nat, x: nat)
    requires n <= |rs|
    ensures SeededBy(rs[..n], x) <= SeededBy(rs, x)
    decreases |rs| - n
  {
    if n < |rs| {
      SeededPrefix(rs, n + 1, x);
      assert rs[..n + 1][..n] == rs[..n];
    } else {
      assert rs[..n] == rs;
    }
  }

  /** Page `x` lies in the region, which is usable, starts above 16 MB less a page, and does
      not reach the end of the address space. */
  predicate Contains(r: Region, x: nat) {
    && r.usable && r.base > 0xFF_F000 && r.base + r.length < TWO64
    && r.base <= x * PAGE_SIZE && (x + 1) * PAGE_SIZE <= r.base + r.length
  }

  /** Rounding up and down to pages: the pages seeded begin at the first boundary in the region
      and end at the last, when it has one and does not reach the end of the address space. */
  lemma AlignedExact(r: Region)
    requires r.base < TWO64 && r.length < TWO64 && r.base + r.length < TWO64
    requires AlignedBase(r) <= r.base + r.length && r.base <= TWO64 - PAGE_SIZE
    ensures r.base <= AlignedBase(r) < r.base + PAGE_SIZE
    ensures r.base + r.length - PAGE_SIZE < AlignedBase(r) + AlignedLength(r) <= r.base + r.length
    ensures SeedEnd(r) == AlignedBase(r) + AlignedLength(r)
  {
  }

  /** Which pages a region seeds, from its own fields. */
  lemma SeededExact(r: Region, x: nat)
    requires r.base < TWO64 && r.length < TWO64
    ensures Seeded(r, x) == if Contains(r, x) then 1 else 0
  {
    if r.usable && r.base > TWO64 - PAGE_SIZE {
      assert AlignedBase(r) == 0;
    } else if r.usable {
      BaseExact(r);
      if r.base > 0xFF_F000 {
        if AlignedBase(r) <= r.base + r.length < TWO64 {
          AlignedExact(r);
          hide AlignedBase, AlignedLength, SeedEnd;
          InPages(AlignedBase(r), SeedEnd(r), x);
          WithinRegion(r.base, r.base + r.length, AlignedBase(r), SeedEnd(r), x);
        } else {
          NothingSeeded(r);
        }
      }
    }
  }

  lemma BaseExact(r: Region)
    requires r.base <= TWO64 - PAGE_SIZE
    ensures r.base <= AlignedBase(r) < r.base + PAGE_SIZE
    ensures AlignedBase(r) >= 0x100_0000 <==> r.base > 0xFF_F000
  {
  }

  lemma InPages(lo: nat, hi: nat, x: nat)
    requires lo % PAGE_SIZE == 0 && hi % PAGE_SIZE == 0
    ensures lo / PAGE_SIZE <= x < hi / PAGE_SIZE <==> lo <= x * PAGE_SIZE && (x + 1) * PAGE_SIZE <= hi
  {
  }

  lemma WithinRegion(base: nat, end: nat, lo: nat, hi: nat, x: nat)
    requires lo % PAGE_SIZE == 0 && hi % PAGE_SIZE == 0
    requires base <= lo < base + PAGE_SIZE && end - PAGE_SIZE < hi <= end
    ensures lo <= x * PAGE_SIZE && (x + 1) * PAGE_SIZE <= hi <==> base <= x * PAGE_SIZE && (x + 1) * PAGE_SIZE <= end
  {
    var p, q := lo / PAGE_SIZE, hi / PAGE_SIZE;
    assert lo == p * PAGE_SIZE && hi == q * PAGE_SIZE;
  }

  lemma NothingSeeded(r: Region)
    requires r.base <= TWO64 - PAGE_SIZE && r.length < TWO64
    requires !(AlignedBase(r) <= r.base + r.length < TWO64)
    ensures SeedEnd(r) <= AlignedBase(r)
    ensures r.base + r.length < TWO64 ==>
      forall x: nat :: r.base <= x * PAGE_SIZE ==> (x + 1) * PAGE_SIZE > r.base + r.length
  {
    var p := AlignedBase(r) / PAGE_SIZE;
    assert AlignedBase(r) == p * PAGE_SIZE;
    forall x: nat | r.base + r.length < TWO64 && r.base <= x * PAGE_SIZE
      ensures (x + 1) * PAGE_SIZE > r.base + r.length
    {
      assert x >= p;
    }
  }

  /** No page lies in two regions. */
  ghost predicate Apart(rs: seq<Region>) {
    forall i, j, x: nat :: 0 <= i < j < |rs| ==> !(Contains(rs[i], x) && Contains(rs[j], x))
  }

  lemma {:induction false} SeededByExact(rs: seq<Region>, x: nat)
    requires Apart(rs) && forall i :: 0 <= i < |rs| ==> rs[i].base < TWO64 && rs[i].length < TWO64
    ensures SeededBy(rs, x) == if exists i :: 0 <= i < |rs| && Contains(rs[i], x) then 1 else 0
    ensures SeededBy(rs, x) <= Cap(x)
  {
    if rs != [] {
      var n := |rs| - 1;
      SeededByExact(rs[..n], x);
      SeededExact(rs[n], x);
      hide Seeded;
      if Contains(rs[n], x) {
        assert forall i :: 0 <= i < n ==> !Contains(rs[..n][i], x);
        assert 1 <= x < 0x10_0000_0000_0000;
      } else if exists i :: 0 <= i < |rs| && Contains(rs[i], x) {
        var i :| 0 <= i < |rs| && Contains(rs[i], x);
        assert Contains(rs[..n][i], x);
      }
    }
  }

  /** The table the kernel itself builds at boot, one region from 1 MB on, lists no page. */
  lemma BootTableListsNothing(length: nat, x: nat)
    ensures !Contains(Region(0x10_0000, length, true), x)
  {
  }

  /** The length counted into `total_memory` is the length of the pages listed exactly
      when the region reaches up to its first page boundary and not past the address space. */
  lemma SeedLength(r: Region)
    requires r.base < TWO64 && r.length < TWO64 && Seeds(r)
    ensures AlignedLength(r) == (if SeedEnd(r) >= AlignedBase(r) then SeedEnd(r) - AlignedBase(r) else 0)
            <==> AlignedBase(r) <= r.base + r.length < TWO64
  {
  }

  /** A region of one byte between two page boundaries lists nothing, and takes a page off
      the total. */
  lemma ShortRegionSpoilsTotal()
    ensures var r := Region(0x100_0001, 1, true);
      Seeds(r) && (forall x :: Seeded(r, x) == 0) && Wrap(4096 + AlignedLength(r)) == 0
  {
    var r := Region(0x100_0001, 1, true);
    assert AlignedBase(r) == 0x100_1000;
    assert AlignedLength(r) == TWO64 - 4096;
  }

  /** What seeding from the regions adds to `total_memory`. */
  function Counted(rs: seq<Region>): nat {
    if rs == [] then 0
    else
      var r := rs[|rs| - 1];
      Counted(rs[..|rs| - 1]) + if Seeds(r) then AlignedLength(r) else 0
  }

  /** One page of memory: it is counted as total, while used plus free stay at zero. */
  lemma UsedPlusFreeIsNotTotal()
    ensures var rs := [Region(0x100_0000, 0x1000, true)];
      Apart(rs) && Wrap(Counted(rs)) == 0x1000
  {
    var r := Region(0x100_0000, 0x1000, true);
    assert AlignedBase(r) == 0x100_0000 && AlignedLength(r) == 0x1000;
    assert SeedEnd(r) == 0x100_1000;
    var rs := [r];
    assert rs[..0] == [];
  }

  // ---------- Runs ----------

  /** In every run from a sound start, what a holder gives back is not listed: the caller of
      `buddy_free` never lists a page twice. */
  lemma GiveIsSafe(trace: seq<State>, ops: seq<Op>, n: nat, i: nat, x: nat)
    requires IsRun(trace, ops) && n < |trace| && i < |trace[n].held|
    requires Listed(trace[0].lists, x) + Held(trace[0].held, x) <= Cap(x)
    ensures Listed(trace[n].lists, x) + InBlock(trace[n].held[i].0, trace[n].held[i].1, x) <= Cap(x)
  {
    RunConserves(trace, ops, n, x);
    HeldWithout(trace[n].held, i, x);
  }

  /** In every run from single pages, a request for two pages or more fails. */
  lemma ManyPagesNever(trace: seq<State>, ops: seq<Op>, n: nat, count: nat)
    requires IsRun(trace, ops) && OnlyPages(trace[0]) && n < |trace| && 2 <= count <= MAX_COUNT
    ensures Alloc(trace[n].lists, OrderOf(count)).1 == None
  {
    assert Pow2(0) == 1;
    NoLargeBlocksEver(trace, ops, n, OrderOf(count));
  }

  /** What the callers of the allocator do: ask for a number of pages, give back the `index`-th
      of the blocks they hold, or store a word in it. */
  datatype Request =
    | Pages(count: nat)
    | Return(index: nat)
    | Put(index: nat, at: nat, value: int)

  predicate Bounded(rs: seq<Request>) {
    forall i :: 0 <= i < |rs| && rs[i].Pages? ==> rs[i].count <= MAX_COUNT
  }

  ghost function Serve(s: State, r: Request): State {
    match r
    case Pages(count) => Step(s, Take(OrderOf(count)))
    case Return(i) => if Legal(s, Give(i)) then Step(s, Give(i)) else s
    case Put(_, _, _) => s
  }

  ghost function ServeAll(s: State, rs: seq<Request>): State {
    if rs == [] then s else Serve(ServeAll(s, rs[..|rs| - 1]), rs[|rs| - 1])
  }

  /** What the holders of blocks find in memory: zeros at first, then what they store. */
  ghost function Content(s: State, d: Memory, r: Request): Memory {
    match r
    case Pages(count) =>
      (match Alloc(s.lists, OrderOf(count)).1
       case None => d
       case Some(b) => Zero(d, b, b + Size(OrderOf(count))))
    case Return(_) => d
    case Put(i, at, value) =>
      if i < |s.held| && at < Size(s.held[i].1) then Store(d, s.held[i].0 + at, value) else d
  }

  ghost function ContentAll(s: State, d: Memory, rs: seq<Request>): Memory {
    if rs == [] then d
    else Content(ServeAll(s, rs[..|rs| - 1]), ContentAll(s, d, rs[..|rs| - 1]), rs[|rs| - 1])
  }

  /** The request stores a word at address `a`. */
  ghost predicate PutsAt(s: State, r: Request, a: int) {
    r.Put? && r.index < |s.held| && r.at < Size(s.held[r.index].1) && a == s.held[r.index].0 + r.at
  }

  ghost predicate AllAligned(ls: Lists) {
    forall k, b :: 0 <= k < |ls| && b in ls[k] ==> b % PAGE_SIZE == 0
  }

  /** Every page is free once, held once, or neither, and blocks start on pages. */
  ghost predicate Exclusive(s: State) {
    && (forall x: nat :: Listed(s.lists, x) + Held(s.held, x) <= 1)
    && AllAligned(s.lists) && forall i :: 0 <= i < |s.held| ==> s.held[i].0 % PAGE_SIZE == 0
  }

  lemma {:induction false} SplitDownAligned(ls: Lists, b: nat, i: nat, order: nat)
    requires i <= |ls| && AllAligned(ls) && b % PAGE_SIZE == 0
    ensures AllAligned(SplitDown(ls, b, i, order))
    decreases i
  {
    if i > order {
      SplitDownAligned(Push(ls, i - 1, b + Size(i - 1)), b, i - 1, order);
    }
  }

  lemma AllocAligned(ls: Lists, order: nat)
    requires AllAligned(ls)
    ensures AllAligned(Alloc(ls, order).0)
    ensures Alloc(ls, order).1.Some? ==> Alloc(ls, order).1.value % PAGE_SIZE == 0
  {
    if order < |ls| {
      var i := FirstNonEmpty(ls, order);
      if i < |ls| {
        assert ls[i][0] in ls[i];
        assert forall b :: b in ls[i][1..] ==> b in ls[i];
        assert AllAligned(Pop(ls, i));
        SplitDownAligned(Pop(ls, i), ls[i][0], i, order);
      }
    }
  }

  lemma ServeExclusive(s: State, r: Request)
    requires Exclusive(s)
    ensures Exclusive(Serve(s, r))
  {
    hide Listed, Held, Pow2, Alloc, OrderOf;
    if r.Pages? {
      AllocAligned(s.lists, OrderOf(r.count));
      forall x: nat ensures Listed(Serve(s, r).lists, x) + Held(Serve(s, r).held, x) <= 1 {
        StepConserves(s, Take(OrderOf(r.count)), x);
      }
    } else if r.Return? && Legal(s, Give(r.index)) {
      forall x: nat ensures Listed(Serve(s, r).lists, x) + Held(Serve(s, r).held, x) <= 1 {
        StepConserves(s, Give(r.index), x);
      }
    }
  }

  lemma {:induction false} ServeAllExclusive(s: State, rs: seq<Request>)
    requires Exclusive(s)
    ensures Exclusive(ServeAll(s, rs))
  {
    hide Exclusive, Serve;
    if rs != [] {
      ServeAllExclusive(s, rs[..|rs| - 1]);
      ServeExclusive(ServeAll(s, rs[..|rs| - 1]), rs[|rs| - 1]);
    }
  }

  /** No request but a store by its holder changes a word in a held page. */
  lemma WordStays(s: State, d: Memory, r: Request, a: nat)
    requires Exclusive(s) && Held(s.held, a / PAGE_SIZE) > 0 && !PutsAt(s, r, a)
    ensures Content(s, d, r)(a) == d(a)
  {
    if r.Pages? {
      AllocConserves(s.lists, OrderOf(r.count), a / PAGE_SIZE);
      AllocAligned(s.lists, OrderOf(r.count));
      hide Listed, Held, Pow2, OrderOf, Alloc, AllAligned;
      var b := Alloc(s.lists, OrderOf(r.count)).1;
      if b.Some? && b.value <= a < b.value + Size(OrderOf(r.count)) {
        AddressInBlock(b.value, OrderOf(r.count), a);
      }
    }
  }

  /** A word in a page that stays held stays what it is through any requests of all holders,
      until its holder stores there again. */
  lemma {:induction false} WordsStay(s: State, d: Memory, rs: seq<Request>, m: nat, n: nat, a: nat)
    requires Exclusive(s) && m <= n <= |rs|
    requires forall j :: m <= j < n ==>
               Held(ServeAll(s, rs[..j]).held, a / PAGE_SIZE) > 0 && !PutsAt(ServeAll(s, rs[..j]), rs[j], a)
    ensures ContentAll(s, d, rs[..n])(a) == ContentAll(s, d, rs[..m])(a)
    decreases n - m
  {
    hide Exclusive, Serve, Content, PutsAt, Held;
    if m < n {
      WordsStay(s, d, rs, m, n - 1, a);
      ServeAllExclusive(s, rs[..n - 1]);
      WordStays(ServeAll(s, rs[..n - 1]), ContentAll(s, d, rs[..n - 1]), rs[n - 1], a);
      assert rs[..n][..n - 1] == rs[..n - 1];
    }
  }

  /** Every series of requests is a run of the lists, so what holds in all runs holds after it. */
  lemma {:induction false} ServingIsRun(s: State, rs: seq<Request>) returns (trace: seq<State>, ops: seq<Op>)
    ensures IsRun(trace, ops) && trace[0] == s && trace[|ops|] == ServeAll(s, rs)
  {
    if rs == [] {
      return [s], [];
    }
    var n := |rs| - 1;
    trace, ops := ServingIsRun(s, rs[..n]);
    var last := trace[|ops|];
    if !rs[n].Put? {
      var op := if rs[n].Pages? then Take(OrderOf(rs[n].count)) else Give(rs[n].index);
      if Legal(last, op) {
        trace, ops := trace + [Step(last, op)], ops + [op];
      }
    }
  }

  /** After any series of requests to lists of single pages, two pages or more are refused. */
  lemma LargeRequestsFail(s: State, rs: seq<Request>, count: nat)
    requires OnlyPages(s) && 2 <= count <= MAX_COUNT && Bounded(rs)
    ensures Alloc(ServeAll(s, rs).lists, OrderOf(count)).1 == None
  {
    var trace, ops := ServingIsRun(s, rs);
    ManyPagesNever(trace, ops, |ops|, count);
  }

  /** A block that was asked for by page count and can be given back by it. */
  predicate Holdable(h: (nat, nat)) {
    h.0 > 0 && h.0 % PAGE_SIZE == 0 && h.1 <= MAX_COUNT && OrderOf(h.1) < ORDERS
  }

  lemma OrderIsSmall(ls: Lists, order: nat)
    ensures Alloc(ls, order).1.Some? ==> order < |ls|
  {
  }

  /** Giving block `i` back conserves the pages, and no page of it is listed yet. */
  lemma GiveOneFacts(s: State, i: nat, start: Lists)
    requires Legal(s, Give(i)) && forall x: nat :: Listed(s.lists, x) + Held(s.held, x) == Listed(start, x)
    ensures forall x: nat ::
      Listed(Step(s, Give(i)).lists, x) + Held(Step(s, Give(i)).held, x) == Listed(start, x)
    ensures forall x: nat :: Listed(s.lists, x) + InBlock(s.held[i].0, s.held[i].1, x) <= Listed(start, x)
    ensures Listed(start, s.held[i].0 / PAGE_SIZE) > 0
  {
    hide Listed, Step, Held, Pow2;
    forall x: nat ensures
      && Listed(Step(s, Give(i)).lists, x) + Held(Step(s, Give(i)).held, x) == Listed(start, x)
      && Listed(s.lists, x) + InBlock(s.held[i].0, s.held[i].1, x) <= Listed(start, x)
    {
      StepConserves(s, Give(i), x);
      HeldWithout(s.held, i, x);
    }
    assert InBlock(s.held[i].0, s.held[i].1, s.held[i].0 / PAGE_SIZE) == 1;
  }

  lemma SimpleRequests(s: State, d: Memory, r: Request)
    ensures r.Return? ==> Content(s, d, r) == d
    ensures r.Put? ==> Serve(s, r) == s
  {
  }

  /** After taking block `b`: its pages were listed, so they are not those held before. */
  lemma TakenPage(s: State, start: Lists, b: nat, k: nat, a: nat)
    requires b % PAGE_SIZE == 0 && Listed(start, a / PAGE_SIZE) <= Cap(a / PAGE_SIZE)
    requires Listed(s.lists, a / PAGE_SIZE) + Held(s.held, a / PAGE_SIZE) == Listed(start, a / PAGE_SIZE)
    requires InBlock(b, k, a / PAGE_SIZE) <= Listed(s.lists, a / PAGE_SIZE)
    ensures Held([(b, k)] + s.held, a / PAGE_SIZE) > 0 ==>
      b <= a < b + Size(k) || (Held(s.held, a / PAGE_SIZE) > 0 && Listed(s.lists, a / PAGE_SIZE) == 0)
    ensures b <= a < b + Size(k) ==> InBlock(b, k, a / PAGE_SIZE) == 1
  {
    assert ([(b, k)] + s.held)[1..] == s.held;
    hide Listed;
    if b <= a < b + Size(k) { AddressInBlock(b, k, a); }
  }

  /** After giving block `i` back: the word its link is written to is in no held page. */
  lemma LeftPage(s: State, start: Lists, i: nat, a: nat)
    requires Legal(s, Give(i)) && Listed(start, a / PAGE_SIZE) <= Cap(a / PAGE_SIZE)
    requires Listed(s.lists, a / PAGE_SIZE) + Held(s.held, a / PAGE_SIZE) == Listed(start, a / PAGE_SIZE)
    requires Held(s.held[..i] + s.held[i + 1..], a / PAGE_SIZE) > 0
    ensures a != s.held[i].0 && Held(s.held, a / PAGE_SIZE) > 0
  {
    HeldWithout(s.held, i, a / PAGE_SIZE);
    hide Listed, Held;
    assert InBlock(s.held[i].0, s.held[i].1, s.held[i].0 / PAGE_SIZE) == 1;
  }

  /** A word of a held block is in a page that was free at the start and is listed no more. */
  lemma HeldPage(s: State, start: Lists, i: nat, a: nat)
    requires i < |s.held| && s.held[i].0 % PAGE_SIZE == 0 && s.held[i].0 <= a < s.held[i].0 + Size(s.held[i].1)
    requires Listed(start, a / PAGE_SIZE) <= Cap(a / PAGE_SIZE)
    requires Listed(s.lists, a / PAGE_SIZE) + Held(s.held, a / PAGE_SIZE) == Listed(start, a / PAGE_SIZE)
    ensures Listed(s.lists, a / PAGE_SIZE) == 0 && Listed(start, a / PAGE_SIZE) == 1
  {
    HeldWithout(s.held, i, a / PAGE_SIZE);
    AddressInBlock(s.held[i].0, s.held[i].1, a);
    hide Listed, Held;
  }

  /** The blocks held, with the orders their page counts imply. */
  ghost function Orders(held: seq<(nat, nat)>): (r: seq<(nat, nat)>)
    ensures |r| == |held|
    ensures forall i :: 0 <= i < |held| ==> r[i] == (held[i].0, OrderOf(held[i].1))
  {
    seq(|held|, i requires 0 <= i < |held| => (held[i].0, OrderOf(held[i].1)))
  }

  class Zone {
    const heads: array<int>
    var mem: Memory
    var freeCount: nat
    var used: nat
    var total: nat
    ghost var lists: Lists

    ghost predicate Valid()
      reads this, heads
    {
      && heads.Length == ORDERS && |lists| == ORDERS
      && Chains(mem, heads[..], lists)
      && Sound(lists)
      && freeCount == Wrap(Total(lists)) && used < TWO64 && total < TWO64
    }

    /** The quantity that allocation and release keep, modulo 2^64. */
    ghost function Account(): nat
      reads this
    {
      Wrap(used + PAGE_SIZE * freeCount)
    }

    method BuddyFree(phys: nat, order: nat)
      requires Valid() && order < ORDERS && phys % PAGE_SIZE == 0
      requires forall x :: Listed(lists, x) + InBlock(phys, order, x) <= Cap(x)
      modifies this, heads
      ensures Valid() && total == old(total)
      ensures lists == Push(old(lists), order, phys)
      ensures Account() == old(Account())
      ensures forall a: int :: a != phys ==> mem(a) == old(mem)(a)
    {
      hide Chains, Listed, Total, Pow2, Wrap;
      assert InBlock(phys, order, phys / PAGE_SIZE) == 1 && Cap(0) == 0;
      PushChains(mem, heads[..], lists, order, phys);
      forall x ensures Listed(Push(lists, order, phys), x) <= Cap(x) {
        PushPages(lists, order, phys, x);
      }
      PushPages(lists, order, phys, 0);
      mem := Store(mem, phys, heads[order]);
      heads[order] := phys;
      lists := Push(lists, order, phys);
      AccountKept(used, freeCount, Pow2(order));
      WrapAdd(Total(old(lists)), Pow2(order));
      freeCount := Wrap(freeCount + Pow2(order));
      used := Wrap(used - Pow2(order) * PAGE_SIZE);
      assert heads[..] == old(heads[..])[order := phys];
    }

    method PopBlock(i: nat) returns (block: nat)
      requires Valid() && i < ORDERS && lists[i] != []
      modifies `lists, heads
      ensures |lists| == ORDERS && lists == Pop(old(lists), i)
      ensures block == old(lists)[i][0] && block > 0 && block % PAGE_SIZE == 0
      ensures Chains(mem, heads[..], lists)
      ensures forall x: nat :: Listed(lists, x) + InBlock(block, i, x) == Listed(old(lists), x)
    {
      hide Listed, Pow2;
      block := heads[i];
      PopChains(mem, heads[..], lists, i);
      forall x: nat ensures Listed(Pop(lists, i), x) + InBlock(block, i, x) == Listed(lists, x) {
        PopPages(lists, i, x);
      }
      heads[i] := mem(block);
      lists := Pop(lists, i);
      assert heads[..] == old(heads[..])[i := heads[i]];
    }

    /** Takes the first block of list `i` and splits it down to `order`, upper halves going
        back on the lists. The block itself keeps stale links until it is cleared. */
    method PopAndSplit(i: nat, order: nat) returns (block: nat)
      requires Valid() && order <= i < ORDERS && lists[i] != []
      modifies `mem, `lists, heads
      ensures |lists| == ORDERS && block == old(lists)[i][0] && block > 0 && block % PAGE_SIZE == 0
      ensures lists == SplitDown(Pop(old(lists), i), block, i, order)
      ensures Chains(mem, heads[..], lists)
      ensures forall x: nat :: Listed(lists, x) + InBlock(block, order, x) == Listed(old(lists), x)
      ensures forall a: nat :: Listed(old(lists), a / PAGE_SIZE) == 0 ==> mem(a) == old(mem)(a)
    {
      hide Pow2, Chains, Listed, Chain;
      block := PopBlock(i);
      var k := i;
      while k > order
        invariant order <= k <= i && |lists| == ORDERS && Chains(mem, heads[..], lists)
        invariant SplitDown(lists, block, k, order) == SplitDown(Pop(old(lists), i), block, i, order)
        invariant forall x: nat :: Listed(lists, x) + InBlock(block, k, x) == Listed(old(lists), x)
        invariant forall a: nat :: Listed(old(lists), a / PAGE_SIZE) == 0 ==> mem(a) == old(mem)(a)
      {
        k := k - 1;
        Split(block, k, old(lists));
      }
    }

    /** One split: the upper half of the block of order `k + 1` goes on list `k`. */
    method Split(block: nat, k: nat, ghost start: Lists)
      requires k < ORDERS && |lists| == ORDERS == heads.Length && block > 0 && block % PAGE_SIZE == 0
      requires Chains(mem, heads[..], lists) && Sound(start)
      requires forall x: nat :: Listed(lists, x) + InBlock(block, k + 1, x) == Listed(start, x)
      modifies `mem, `lists, heads
      ensures lists == Push(old(lists), k, block + Size(k))
      ensures Chains(mem, heads[..], lists)
      ensures forall x: nat :: Listed(lists, x) + InBlock(block, k, x) == Listed(start, x)
      ensures forall a: nat :: Listed(start, a / PAGE_SIZE) == 0 ==> mem(a) == old(mem)(a)
    {
      hide Chains, Listed;
      var buddy := block + Size(k);
      HalfBlock(block, k + 1, buddy / PAGE_SIZE);
      assert InBlock(buddy, k, buddy / PAGE_SIZE) == 1;
      PushChains(mem, heads[..], lists, k, buddy);
      forall x: nat ensures Listed(Push(lists, k, buddy), x) + InBlock(block, k, x) == Listed(start, x) {
        HalfBlock(block, k + 1, x);
        PushPages(lists, k, buddy, x);
      }
      mem := Store(mem, buddy, heads[k]);
      heads[k] := buddy;
      lists := Push(lists, k, buddy);
      assert heads[..] == old(heads[..])[k := buddy];
    }

    /** Clearing the block breaks no list, since it shares no page with them. */
    method Clear(block: nat, order: nat, ghost start: Lists)
      requires |lists| == ORDERS == heads.Length && block > 0 && block % PAGE_SIZE == 0
      requires Chains(mem, heads[..], lists) && Sound(start)
      requires forall x: nat :: Listed(lists, x) + InBlock(block, order, x) == Listed(start, x)
      modifies `mem
      ensures mem == Zero(old(mem), block, block + Size(order))
      ensures Chains(mem, heads[..], lists)
      ensures forall a: nat :: Listed(start, a / PAGE_SIZE) == 0 ==> mem(a) == old(mem)(a)
    {
      hide Chains, Listed;
      forall a: nat | block <= a < block + Size(order) ensures Listed(lists, a / PAGE_SIZE) == 0 {
        AddressInBlock(block, order, a);
      }
      ChainsFrame(mem, Zero(mem, block, block + Size(order)), heads[..], lists);
      mem := Zero(mem, block, block + Size(order));
    }

    /** The search for a list with a block. */
    method FirstList(order: nat) returns (i: nat)
      requires Valid()
      ensures order >= ORDERS ==> i >= ORDERS
      ensures order < ORDERS ==> i == FirstNonEmpty(lists, order)
    {
      hide Listed, Total;
      i := order;
      while i < ORDERS && heads[i] == 0
        invariant order <= i && (order <= ORDERS ==> i <= ORDERS)
        invariant forall j :: order <= j < i && j < ORDERS ==> lists[j] == []
      {
        i := i + 1;
      }
    }

    method BuddyAlloc(order: nat) returns (block: nat)
      requires Valid()
      modifies this, heads
      ensures Valid()
      ensures lists == Alloc(old(lists), order).0
      ensures block == match Alloc(old(lists), order).1 case None => 0 case Some(b) => b
      ensures Account() == old(Account())
      ensures block % PAGE_SIZE == 0 && (block == 0 <==> Alloc(old(lists), order).1.None?)
      ensures block == 0 ==> unchanged(this) && unchanged(heads)
      ensures block != 0 ==>
        && (forall x: nat :: Listed(lists, x) + InBlock(block, order, x) == Listed(old(lists), x))
        && (forall a: nat :: block <= a < block + Size(order) ==> mem(a) == 0)
        && (forall a: nat :: Listed(old(lists), a / PAGE_SIZE) == 0 ==> mem(a) == old(mem)(a))
    {
      hide Listed, Pow2, Total, Wrap, Chains;
      var i := FirstList(order);
      if i >= ORDERS { return 0; }
      ghost var start := lists;
      block := PopAndSplit(i, order);
      Clear(block, order, start);
      AllocConserves(start, order, 0);
      AccountKept(used, freeCount, 0 - Pow2(order));
      WrapAdd(Total(start), 0 - Pow2(order));
      freeCount := Wrap(freeCount - Pow2(order));
      used := Wrap(used + Pow2(order) * PAGE_SIZE);
    }

    /** Boot: the static zone is all zero. */
    constructor ()
      ensures Valid() && lists == Nothing() && used == 0 && total == 0 && fresh(heads)
    {
      heads := new int[ORDERS](_ => 0);
      mem := _ => 0;
      freeCount, used, total := 0, 0, 0;
      lists := Nothing();
      new;
      NothingListed();
      NothingChains(mem, heads[..]);
    }

    method AllocPages(count: nat) returns (block: nat)
      requires Valid() && count <= MAX_COUNT
      modifies this, heads
      ensures Valid() && Account() == old(Account())
      ensures lists == Alloc(old(lists), OrderOf(count)).0
      ensures block == match Alloc(old(lists), OrderOf(count)).1 case None => 0 case Some(b) => b
      ensures block % PAGE_SIZE == 0 && (block == 0 <==> Alloc(old(lists), OrderOf(count)).1.None?)
      ensures block == 0 ==> unchanged(this) && unchanged(heads)
      ensures block != 0 ==>
        && (forall x: nat :: Listed(lists, x) + InBlock(block, OrderOf(count), x) == Listed(old(lists), x))
        && (forall a: nat :: block <= a < block + Size(OrderOf(count)) ==> mem(a) == 0)
        && count * PAGE_SIZE <= Size(OrderOf(count))
      ensures forall a: nat :: Listed(old(lists), a / PAGE_SIZE) == 0 ==> mem(a) == old(mem)(a)
    {
      hide Listed, Alloc, Chains, Total;
      var order := OrderFor(count);
      block := BuddyAlloc(order);
    }

    /** `pmm_free_pages`: the block is given back with the order its count implies. */
    method FreePages(phys: nat, count: nat)
      requires Valid() && count <= MAX_COUNT && OrderOf(count) < ORDERS
      requires phys != 0 ==>
        forall x :: Listed(lists, x) + InBlock(phys / PAGE_SIZE * PAGE_SIZE, OrderOf(count), x) <= Cap(x)
      modifies this, heads
      ensures Valid() && Account() == old(Account())
      ensures lists == if phys == 0 then old(lists)
                       else Push(old(lists), OrderOf(count), phys / PAGE_SIZE * PAGE_SIZE)
      ensures forall a: int :: a != phys / PAGE_SIZE * PAGE_SIZE ==> mem(a) == old(mem)(a)
    {
      if phys == 0 { return; }
      var order := OrderFor(count);
      BuddyFree(phys / PAGE_SIZE * PAGE_SIZE, order);
    }

    /** The state between requests: `held` are blocks got from lists that were `start`, in
        memory that was `m`. Every page is free or held as often as it was listed then. */
    ghost predicate Serving(start: Lists, m: Memory, held: seq<(nat, nat)>)
      reads this, heads
    {
      && Valid()
      && (forall i :: 0 <= i < |held| ==> Holdable(held[i]))
      && (forall x: nat :: Listed(lists, x) + Held(Orders(held), x) == Listed(start, x))
      && (forall a: nat :: Listed(start, a / PAGE_SIZE) == 0 ==> mem(a) == m(a))
    }

    /** The words in held pages are `d`. */
    ghost predicate Stored(held: seq<(nat, nat)>, d: Memory)
      reads this
    {
      forall a: nat :: Held(Orders(held), a / PAGE_SIZE) > 0 ==> mem(a) == d(a)
    }

    method TakeOne(count: nat, held: seq<(nat, nat)>, ghost start: Lists, ghost m: Memory, ghost d: Memory)
      returns (held': seq<(nat, nat)>)
      requires Serving(start, m, held) && Sound(start) && count <= MAX_COUNT && Stored(held, d)
      modifies this, heads
      ensures Serving(start, m, held') && Account() == old(Account())
      ensures State(lists, Orders(held')) == Serve(State(old(lists), Orders(held)), Pages(count))
      ensures Stored(held', Content(State(old(lists), Orders(held)), d, Pages(count)))
    {
      hide Listed, Chains, Total, Pow2, Wrap, Alloc, OrderOf, InBlock, Held, Cap, Sound;
      ghost var s := State(lists, Orders(held));
      forall x: nat ensures
        Listed(Step(s, Take(OrderOf(count))).lists, x) + Held(Step(s, Take(OrderOf(count))).held, x) == Listed(start, x)
      {
        StepConserves(s, Take(OrderOf(count)), x);
      }
      OrderIsSmall(lists, OrderOf(count));
      var block := AllocPages(count);
      if block == 0 { return held; }
      held' := [(block, count)] + held;
      assert Orders(held') == [(block, OrderOf(count))] + Orders(held);
      SoundMeans(start);
      forall a: nat | Held(Orders(held'), a / PAGE_SIZE) > 0
        ensures mem(a) == Zero(d, block, block + Size(OrderOf(count)))(a)
      {
        TakenPage(s, start, block, OrderOf(count), a);
      }
    }

    method GiveOne(i: nat, held: seq<(nat, nat)>, ghost start: Lists, ghost m: Memory, ghost d: Memory)
      returns (held': seq<(nat, nat)>)
      requires Serving(start, m, held) && Sound(start) && Stored(held, d)
      modifies this, heads
      ensures Serving(start, m, held') && Account() == old(Account())
      ensures State(lists, Orders(held')) == Serve(State(old(lists), Orders(held)), Return(i))
      ensures Stored(held', d)
    {
      hide Listed, Chains, Total, Pow2, Wrap, Alloc, OrderOf, InBlock, Held, Cap, Sound;
      if i >= |held| { return held; }
      ghost var s := State(lists, Orders(held));
      GiveOneFacts(s, i, start);
      var block, count := held[i].0, held[i].1;
      assert block / PAGE_SIZE * PAGE_SIZE == block;
      assert forall x: nat :: Listed(lists, x) + InBlock(block, OrderOf(count), x) <= Cap(x) by {
        SoundMeans(start);
      }
      FreePages(block, count);
      held' := held[..i] + held[i + 1..];
      assert Orders(held') == Orders(held)[..i] + Orders(held)[i + 1..];
      assert State(lists, Orders(held')) == Step(s, Give(i));
      SoundMeans(start);
      forall a: nat | Held(Orders(held'), a / PAGE_SIZE) > 0 ensures mem(a) == d(a) {
        LeftPage(s, start, i, a);
      }
    }

    /** A holder stores a word in one of its blocks, which breaks no list. */
    method PutOne(i: nat, at: nat, value: int, held: seq<(nat, nat)>, ghost start: Lists, ghost m: Memory,
                  ghost d: Memory)
      requires Serving(start, m, held) && Sound(start) && Stored(held, d)
      modifies `mem
      ensures Serving(start, m, held) && Account() == old(Account())
      ensures Stored(held, Content(State(lists, Orders(held)), d, Put(i, at, value)))
    {
      hide Listed, Chains, Total, Pow2, Wrap, Alloc, OrderOf, InBlock, Held, Cap;
      if i >= |held| || at >= Size(OrderOf(held[i].1)) { return; }
      var a := held[i].0 + at;
      SoundMeans(start);
      HeldPage(State(lists, Orders(held)), start, i, a);
      ChainsFrame(mem, Store(mem, a, value), heads[..], lists);
      mem := Store(mem, a, value);
    }

    /** Any series of requests, blocks being given back with the counts they were asked for:
        the lists in memory and the blocks held are those of the specification, every page is
        free or held as often as it was free at the start, the account is kept, memory that was
        not free at the start is as it was, and held pages hold what their holders stored. */
    method Execute(reqs: seq<Request>) returns (held: seq<(nat, nat)>)
      requires Valid() && Bounded(reqs)
      modifies this, heads
      ensures Valid() && Account() == old(Account())
      ensures State(lists, Orders(held)) == ServeAll(State(old(lists), []), reqs)
      ensures forall x: nat :: Listed(lists, x) + Held(Orders(held), x) == Listed(old(lists), x)
      ensures forall a: nat :: Listed(old(lists), a / PAGE_SIZE) == 0 ==> mem(a) == old(mem)(a)
      ensures Stored(held, ContentAll(State(old(lists), []), old(mem), reqs))
    {
      hide Listed, Chains, Total, Serve, Wrap, Content;
      ghost var start, m := lists, mem;
      held := [];
      assert Orders(held) == [];
      for n := 0 to |reqs|
        invariant Serving(start, m, held) && Account() == old(Account())
        invariant State(lists, Orders(held)) == ServeAll(State(start, []), reqs[..n])
        invariant Stored(held, ContentAll(State(start, []), m, reqs[..n]))
      {
        assert reqs[..n + 1][..n] == reqs[..n];
        ghost var s, d := State(lists, Orders(held)), ContentAll(State(start, []), m, reqs[..n]);
        SimpleRequests(s, d, reqs[n]);
        match reqs[n]
        case Pages(count) => held := TakeOne(count, held, start, m, d);
        case Return(i) => held := GiveOne(i, held, start, m, d);
        case Put(i, at, value) => PutOne(i, at, value, held, start, m, d);
      }
      assert reqs[..|reqs|] == reqs;
    }

    /** `pmm_init`: only single pages are listed, exactly those of the usable regions from
        16 MB up; the counters start from whatever they held. */
    method Init(regions: seq<Region>)
      requires forall i :: 0 <= i < |regions| ==> regions[i].base < TWO64 && regions[i].length < TWO64
      requires Valid() && Apart(regions)
      modifies this, heads
      ensures Valid() && OnlyPages(State(lists, []))
      ensures forall x: nat ::
        Listed(lists, x) == if exists i :: 0 <= i < |regions| && Contains(regions[i], x) then 1 else 0
      ensures Account() == old(used)
      ensures total == Wrap(old(total) + Counted(regions))
      ensures Account() == total <==> old(used) == Wrap(old(total) + Counted(regions))
    {
      hide Listed, Chains, Total, Wrap, Seeded, AlignedLength, AlignedBase, Cap, Contains;
      forall x: nat
        ensures SeededBy(regions, x) == if exists i :: 0 <= i < |regions| && Contains(regions[i], x) then 1 else 0
        ensures SeededBy(regions, x) <= Cap(x)
      {
        SeededByExact(regions, x);
      }
      for k := 0 to ORDERS
        invariant forall j :: 0 <= j < k ==> heads[j] == 0
        invariant used == old(used) && total == old(total)
      {
        heads[k] := 0;
      }
      freeCount := 0;
      lists := Nothing();
      NothingListed();
      ghost var start := used;
      WrapSmall(used);
      WrapSmall(total);
      NothingChains(mem, heads[..]);
      for i := 0 to |regions|
        invariant Valid() && OnlyPages(State(lists, []))
        invariant forall x: nat :: Listed(lists, x) == SeededBy(regions[..i], x)
        invariant Account() == start && total == Wrap(old(total) + Counted(regions[..i]))
      {
        assert regions[..i + 1][..i] == regions[..i];
        forall x ensures SeededBy(regions[..i], x) + Seeded(regions[i], x) <= Cap(x) {
          SeededPrefix(regions, i + 1, x);
        }
        SeedRegion(regions[i]);
        WrapAdd(old(total) + Counted(regions[..i]), AlignedLength(regions[i]));
      }
      assert regions[..|regions|] == regions;
    }

    method SeedRegion(r: Region)
      requires r.base < TWO64 && r.length < TWO64
      requires Valid() && OnlyPages(State(lists, []))
      requires forall x :: Listed(lists, x) + Seeded(r, x) <= Cap(x)
      modifies this, heads
      ensures Valid() && OnlyPages(State(lists, [])) && Account() == old(Account())
      ensures forall x: nat :: Listed(lists, x) == old(Listed(lists, x)) + Seeded(r, x)
      ensures total == if Seeds(r) then Wrap(old(total) + AlignedLength(r)) else old(total)
    {
      hide Listed, Chains, Total, AlignedBase, AlignedLength, SeedEnd, Sound, Wrap;
      if !r.usable { return; }
      var base := AlignedBase(r);
      if base < 0x100_0000 { return; }
      total := Wrap(total + AlignedLength(r));
      var end := SeedEnd(r);
      var addr := base;
      while addr < end
        invariant base <= addr && addr % PAGE_SIZE == 0 && (addr <= end || addr == base)
        invariant Valid() && OnlyPages(State(lists, [])) && Account() == old(Account())
        invariant total == Wrap(old(total) + AlignedLength(r))
        invariant forall x: nat :: Listed(lists, x) ==
                    old(Listed(lists, x)) + if base / PAGE_SIZE <= x < addr / PAGE_SIZE then 1 else 0
      {
        ghost var before := lists;
        BuddyFree(addr, 0);
        forall x: nat ensures Listed(lists, x) == Listed(before, x) + InBlock(addr, 0, x) {
          PushPages(before, 0, addr, x);
        }
        addr := addr + PAGE_SIZE;
      }
    }
  }
}
