/** The free lists of the physical page allocator, without their links in memory. */
module BuddyModel {
  import opened Machine

  const ORDERS: nat := 11

  function Pow2(k: nat): (r: nat)
    ensures r > 0
  {
    if k == 0 then 1 else 2 * Pow2(k - 1)
  }

  /** Bytes in a block of order `k`. */
  function Size(k: nat): (r: nat)
    ensures r % PAGE_SIZE == 0 && r > 0
  {
    Pow2(k) * PAGE_SIZE
  }

  /** One list of block addresses per order. */
  type Lists = seq<seq<nat>>

  // ---------- Pages ----------

  /** How often page number `x` occurs in the block of order `k` at address `a`. */
  function InBlock(a: nat, k: nat, x: nat): nat {
    if a / PAGE_SIZE <= x < a / PAGE_SIZE + Pow2(k) then 1 else 0
  }

  function InList(s: seq<nat>, k: nat, x: nat): nat {
    if s == [] then 0 else InBlock(s[0], k, x) + InList(s[1..], k, x)
  }

  /** How many listed blocks of order `k` and up contain page `x`. */
  function Listed(ls: Lists, x: nat, k: nat := 0): nat
    decreases |ls| - k
  {
    if k >= |ls| then 0 else InList(ls[k], k, x) + Listed(ls, x, k + 1)
  }

  /** The number of listed pages: 2^k for every block on list k. */
  function Total(ls: Lists, k: nat := 0): nat
    decreases |ls| - k
  {
    if k >= |ls| then 0 else |ls[k]| * Pow2(k) + Total(ls, k + 1)
  }

  lemma {:induction false} UpdateAbove(ls: Lists, i: nat, s: seq<nat>, x: nat, k: nat)
    requires i < k && i < |ls|
    ensures Listed(ls[i := s], x, k) == Listed(ls, x, k)
    ensures Total(ls[i := s], k) == Total(ls, k)
    decreases |ls| - k
  {
    if k < |ls| { UpdateAbove(ls, i, s, x, k + 1); }
  }

  lemma {:induction false} UpdateList(ls: Lists, i: nat, s: seq<nat>, x: nat, k: nat)
    requires k <= i < |ls|
    ensures Listed(ls[i := s], x, k) + InList(ls[i], i, x) == Listed(ls, x, k) + InList(s, i, x)
    ensures Total(ls[i := s], k) + |ls[i]| * Pow2(i) == Total(ls, k) + |s| * Pow2(i)
    decreases |ls| - k
  {
    if k == i {
      UpdateAbove(ls, i, s, x, k + 1);
    } else {
      UpdateList(ls, i, s, x, k + 1);
    }
  }

  lemma {:induction false} ListedIsFree(s: seq<nat>, k: nat, a: nat)
    requires a in s
    ensures InList(s, k, a / PAGE_SIZE) >= 1
  {
    if a != s[0] {
      ListedIsFree(s[1..], k, a);
    }
  }

  lemma {:induction false} ListIsPart(ls: Lists, i: nat, x: nat, k: nat)
    requires k <= i < |ls|
    ensures InList(ls[i], i, x) <= Listed(ls, x, k)
    decreases |ls| - k
  {
    if k < i { ListIsPart(ls, i, x, k + 1); }
  }

  /** A listed block starts on a free page. */
  lemma BlockIsFree(ls: Lists, i: nat, a: nat)
    requires i < |ls| && a in ls[i]
    ensures Listed(ls, a / PAGE_SIZE) >= 1
  {
    ListedIsFree(ls[i], i, a);
    ListIsPart(ls, i, a / PAGE_SIZE, 0);
  }

  // ---------- Operations ----------

  function Push(ls: Lists, k: nat, b: nat): (r: Lists)
    requires k < |ls|
    ensures |r| == |ls|
  {
    ls[k := [b] + ls[k]]
  }

  function Pop(ls: Lists, k: nat): (r: Lists)
    requires k < |ls| && ls[k] != []
    ensures |r| == |ls|
  {
    ls[k := ls[k][1..]]
  }

  lemma PushPages(ls: Lists, k: nat, b: nat, x: nat)
    requires k < |ls|
    ensures Listed(Push(ls, k, b), x) == Listed(ls, x) + InBlock(b, k, x)
    ensures Total(Push(ls, k, b)) == Total(ls) + Pow2(k)
  {
    UpdateList(ls, k, [b] + ls[k], x, 0);
    LongerList(ls[k], k, b, x);
  }

  lemma LongerList(s: seq<nat>, k: nat, b: nat, x: nat)
    ensures InList([b] + s, k, x) == InBlock(b, k, x) + InList(s, k, x)
    ensures |[b] + s| * Pow2(k) == |s| * Pow2(k) + Pow2(k)
  {
    assert ([b] + s)[1..] == s;
    assert (|s| + 1) * Pow2(k) == |s| * Pow2(k) + Pow2(k);
  }

  lemma PopPages(ls: Lists, k: nat, x: nat)
    requires k < |ls| && ls[k] != []
    ensures Listed(Pop(ls, k), x) + InBlock(ls[k][0], k, x) == Listed(ls, x)
    ensures Total(Pop(ls, k)) + Pow2(k) == Total(ls)
  {
    UpdateList(ls, k, ls[k][1..], x, 0);
    assert (|ls[k]| - 1) * Pow2(k) == |ls[k]| * Pow2(k) - Pow2(k);
  }

  function FirstNonEmpty(ls: Lists, order: nat): (i: nat)
    requires order <= |ls|
    ensures order <= i <= |ls|
    ensures forall j :: order <= j < i ==> ls[j] == []
    ensures i < |ls| ==> ls[i] != []
    decreases |ls| - order
  {
    if order == |ls| || ls[order] != [] then order else FirstNonEmpty(ls, order + 1)
  }

  /** Splits the unlisted block `b` of order `i` down to `order`, listing the upper halves. */
  function SplitDown(ls: Lists, b: nat, i: nat, order: nat): (r: Lists)
    requires i <= |ls|
    ensures |r| == |ls|
    decreases i
  {
    if i <= order then ls else SplitDown(Push(ls, i - 1, b + Size(i - 1)), b, i - 1, order)
  }

  /** `buddy_alloc`: the lists afterwards, and the block. */
  function Alloc(ls: Lists, order: nat): (r: (Lists, Option<nat>))
    ensures |r.0| == |ls|
    ensures r.1.None? ==> r.0 == ls
  {
    if order >= |ls| then (ls, None) else
    var i := FirstNonEmpty(ls, order);
    if i == |ls| then (ls, None) else (SplitDown(Pop(ls, i), ls[i][0], i, order), Some(ls[i][0]))
  }

  lemma HalfBlock(b: nat, k: nat, x: nat)
    requires k > 0
    ensures InBlock(b, k, x) == InBlock(b, k - 1, x) + InBlock(b + Size(k - 1), k - 1, x)
  {
    assert (b + Size(k - 1)) / PAGE_SIZE == b / PAGE_SIZE + Pow2(k - 1);
  }

  lemma {:induction false} SplitDownPages(ls: Lists, b: nat, i: nat, order: nat, x: nat)
    requires order <= i <= |ls|
    ensures Listed(SplitDown(ls, b, i, order), x) + InBlock(b, order, x) == Listed(ls, x) + InBlock(b, i, x)
    ensures Total(SplitDown(ls, b, i, order)) + Pow2(order) == Total(ls) + Pow2(i)
    decreases i
  {
    if i > order {
      HalfBlock(b, i, x);
      PushPages(ls, i - 1, b + Size(i - 1), x);
      SplitDownPages(Push(ls, i - 1, b + Size(i - 1)), b, i - 1, order, x);
    }
  }

  /** Allocation moves the `2^order` pages of one block out of the lists, page by page, and
      loses none; it fails exactly when no list of that order or above has a block. */
  lemma AllocConserves(ls: Lists, order: nat, x: nat)
    ensures var (r, b) := Alloc(ls, order);
      && (b.None? <==> forall i :: order <= i < |ls| ==> ls[i] == [])
      && (b.Some? ==> Listed(r, x) + InBlock(b.value, order, x) == Listed(ls, x))
      && (b.Some? ==> Total(r) + Pow2(order) == Total(ls))
      && (b.Some? ==> exists i :: order <= i < |ls| && ls[i] != [] && b.value == ls[i][0]
                                  && forall j :: order <= j < i ==> ls[j] == [])
  {
    if order < |ls| {
      var i := FirstNonEmpty(ls, order);
      if i < |ls| {
        PopPages(ls, i, x);
        SplitDownPages(Pop(ls, i), ls[i][0], i, order, x);
      }
    }
  }

  /** A block that is given back is the next to be handed out, and the lists are as before. */
  lemma FreeThenAlloc(ls: Lists, k: nat, b: nat)
    requires k < |ls|
    ensures Alloc(Push(ls, k, b), k) == (ls, Some(b))
  {
    var pushed := Push(ls, k, b);
    assert FirstNonEmpty(pushed, k) == k;
    assert pushed[k][1..] == ls[k];
    assert Pop(pushed, k) == ls;
  }

  lemma {:induction false} SplitDownLists(ls: Lists, b: nat, i: nat, order: nat, k: nat)
    requires order <= i <= |ls| && k < |ls|
    ensures SplitDown(ls, b, i, order)[k] == if order <= k < i then [b + Size(k)] + ls[k] else ls[k]
    decreases i
  {
    if i > order { SplitDownLists(Push(ls, i - 1, b + Size(i - 1)), b, i - 1, order, k); }
  }

  /** Of the list the block came from one block is gone; each list between it and the order
      asked for gets the upper half of what is left; the others stay. */
  lemma AllocLists(ls: Lists, order: nat, i: nat, k: nat)
    requires order <= i < |ls| && k < |ls| && ls[i] != [] && forall j :: order <= j < i ==> ls[j] == []
    ensures Alloc(ls, order).0[k] ==
            if order <= k < i then [ls[i][0] + Size(k)] else if k == i then ls[i][1..] else ls[k]
  {
    assert FirstNonEmpty(ls, order) == i;
    SplitDownLists(Pop(ls, i), ls[i][0], i, order, k);
  }

  // ---------- Runs ----------

  /** The lists, and the blocks handed out with the order they were asked for. */
  datatype State = State(lists: Lists, held: seq<(nat, nat)>)

  datatype Op = Take(order: nat) | Give(index: nat)

  ghost function Held(held: seq<(nat, nat)>, x: nat): nat {
    if held == [] then 0 else InBlock(held[0].0, held[0].1, x) + Held(held[1..], x)
  }

  /** A block is given back with the order it was taken with. */
  ghost predicate Legal(s: State, op: Op) {
    op.Give? ==> op.index < |s.held| && s.held[op.index].1 < |s.lists|
  }

  ghost function Step(s: State, op: Op): State
    requires Legal(s, op)
  {
    match op
    case Take(order) =>
      var (r, b) := Alloc(s.lists, order);
      if b.None? then s else State(r, [(b.value, order)] + s.held)
    case Give(i) =>
      State(Push(s.lists, s.held[i].1, s.held[i].0), s.held[..i] + s.held[i + 1..])
  }

  lemma {:induction false} HeldWithout(held: seq<(nat, nat)>, i: nat, x: nat)
    requires i < |held|
    ensures Held(held, x) == Held(held[..i] + held[i + 1..], x) + InBlock(held[i].0, held[i].1, x)
  {
    var rest := held[..i] + held[i + 1..];
    if i == 0 {
      assert rest == held[1..];
    } else {
      HeldWithout(held[1..], i - 1, x);
      assert rest[1..] == held[1..][..i - 1] + held[1..][i..];
    }
  }

  lemma StepConserves(s: State, op: Op, x: nat)
    requires Legal(s, op)
    ensures Listed(Step(s, op).lists, x) + Held(Step(s, op).held, x) == Listed(s.lists, x) + Held(s.held, x)
    ensures |Step(s, op).lists| == |s.lists|
  {
    match op
    case Take(order) =>
      AllocConserves(s.lists, order, x);
      var (r, b) := Alloc(s.lists, order);
      if b.Some? {
        assert ([(b.value, order)] + s.held)[1..] == s.held;
      }
    case Give(i) =>
      HeldWithout(s.held, i, x);
      PushPages(s.lists, s.held[i].1, s.held[i].0, x);
  }

  ghost predicate IsRun(trace: seq<State>, ops: seq<Op>) {
    && |trace| == |ops| + 1
    && forall i :: 0 <= i < |ops| ==> Legal(trace[i], ops[i]) && trace[i + 1] == Step(trace[i], ops[i])
  }

  /** Over every run, each page is free or held as often as at the start; so if no page was
      listed or held twice then, none is ever free twice, held twice, or both. */
  lemma {:induction false} RunConserves(trace: seq<State>, ops: seq<Op>, n: nat, x: nat)
    requires IsRun(trace, ops) && n < |trace|
    ensures Listed(trace[n].lists, x) + Held(trace[n].held, x) == Listed(trace[0].lists, x) + Held(trace[0].held, x)
    ensures |trace[n].lists| == |trace[0].lists|
  {
    if n > 0 {
      RunConserves(trace, ops, n - 1, x);
      StepConserves(trace[n - 1], ops[n - 1], x);
    }
  }

  /** All blocks are single pages. */
  ghost predicate OnlyPages(s: State) {
    && |s.lists| > 0
    && (forall k :: 1 <= k < |s.lists| ==> s.lists[k] == [])
    && (forall i :: 0 <= i < |s.held| ==> s.held[i].1 == 0)
  }

  lemma StepOnlyPages(s: State, op: Op)
    requires OnlyPages(s) && Legal(s, op)
    ensures OnlyPages(Step(s, op))
    ensures op.Take? && op.order > 0 ==> Step(s, op) == s
  {
    if op.Take? {
      AllocConserves(s.lists, op.order, 0);
      if op.order == 0 && s.lists[0] != [] {
        assert FirstNonEmpty(s.lists, 0) == 0;
        assert Alloc(s.lists, 0).0 == Pop(s.lists, 0);
      }
    }
  }

  /** Nothing is ever merged: in every run that starts with single pages only, every request
      for a block of order 1 or more fails. */
  lemma {:induction false} NoLargeBlocksEver(trace: seq<State>, ops: seq<Op>, n: nat, order: nat)
    requires IsRun(trace, ops) && OnlyPages(trace[0]) && n < |trace| && order > 0
    ensures OnlyPages(trace[n]) && Alloc(trace[n].lists, order).1 == None
  {
    if n > 0 {
      NoLargeBlocksEver(trace, ops, n - 1, order);
      StepOnlyPages(trace[n - 1], ops[n - 1]);
    }
    AllocConserves(trace[n].lists, order, 0);
  }
}
