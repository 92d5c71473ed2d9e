/** The region table of kernel/mm/vmm.c. Unmapping looks for the first slot with the given start
    and never asks whether the slot is in use; freed slots keep their start. */
module VmRegions {
  import opened Machine

  const REGION_MAX: nat := 1024

  datatype Region = Region(start: nat, end: nat, flags: nat, id: nat, phys: nat, used: bool)

  type Table = seq<Region>

  function FirstFree(rs: Table, i: nat := 0): (k: nat)
    requires i <= |rs|
    ensures i <= k <= |rs| && (k < |rs| ==> !rs[k].used) && forall j :: i <= j < k ==> rs[j].used
    decreases |rs| - i
  {
    if i == |rs| || !rs[i].used then i else FirstFree(rs, i + 1)
  }

  /** The first slot with this start, in use or not. */
  function FirstAt(rs: Table, virt: nat, i: nat := 0): (k: nat)
    requires i <= |rs|
    ensures i <= k <= |rs| && (k < |rs| ==> rs[k].start == virt) && forall j :: i <= j < k ==> rs[j].start != virt
    decreases |rs| - i
  {
    if i == |rs| || rs[i].start == virt then i else FirstAt(rs, virt, i + 1)
  }

  /** The table and the 32-bit count of regions kept beside it. */
  datatype Space = Space(rs: Table, count: nat)

  function Mapped(s: Space, r: Region): Space {
    var k := FirstFree(s.rs);
    if k == |s.rs| then s else Space(s.rs[k := r], (s.count + 1) % TWO32)
  }

  function Unmapped(s: Space, virt: nat): Space {
    var k := FirstAt(s.rs, virt);
    if k == |s.rs| then s else Space(s.rs[k := s.rs[k].(used := false)], (s.count - 1) % TWO32)
  }

  function UsedCount(rs: Table): nat {
    if rs == [] then 0 else UsedCount(rs[..|rs| - 1]) + if rs[|rs| - 1].used then 1 else 0
  }

  lemma {:induction false} UsedCountUpdate(rs: Table, k: nat, r: Region)
    requires k < |rs|
    ensures UsedCount(rs[k := r]) + (if rs[k].used then 1 else 0) == UsedCount(rs) + (if r.used then 1 else 0)
  {
    var n := |rs| - 1;
    if k < n {
      assert rs[k := r][..n] == rs[..n][k := r];
      UsedCountUpdate(rs[..n], k, r);
    } else {
      assert rs[k := r][..n] == rs[..n];
    }
  }

  lemma {:induction false} UsedCountBound(rs: Table)
    ensures UsedCount(rs) <= |rs|
    ensures UsedCount(rs) == 0 <==> forall i :: 0 <= i < |rs| ==> !rs[i].used
  {
    if rs != [] {
      UsedCountBound(rs[..|rs| - 1]);
      assert forall i :: 0 <= i < |rs| - 1 ==> rs[..|rs| - 1][i] == rs[i];
    }
  }

  ghost predicate IsLive(rs: Table, virt: nat) {
    exists i :: 0 <= i < |rs| && rs[i].used && rs[i].start == virt
  }

  ghost predicate CountOk(s: Space) {
    s.count == UsedCount(s.rs) % TWO32
  }

  /** The stored count still is the number of regions in use after an unmapping exactly when
      no slot has that start, or the first slot that has it is in use. */
  lemma UnmapCountExact(s: Space, virt: nat)
    requires CountOk(s) && |s.rs| <= REGION_MAX
    ensures CountOk(Unmapped(s, virt)) <==> FirstAt(s.rs, virt) == |s.rs| || s.rs[FirstAt(s.rs, virt)].used
  {
    var k := FirstAt(s.rs, virt);
    UsedCountBound(s.rs);
    hide UsedCount, FirstAt;
    if k < |s.rs| {
      UsedCountUpdate(s.rs, k, s.rs[k].(used := false));
      CountDown(UsedCount(s.rs), s.count);
    }
  }

  lemma CountDown(used: nat, count: nat)
    requires count == used % TWO32 && used <= REGION_MAX
    ensures used > 0 ==> (count + TWO32 - 1) % TWO32 == (used - 1) % TWO32
    ensures (count + TWO32 - 1) % TWO32 != used % TWO32
  {
  }

  /** Unmapping address 0 in a table that was never used spoils the count: slot 0 starts at 0. */
  lemma UnmapOfUnusedSpoilsCount(rs: Table)
    requires |rs| == REGION_MAX && forall i :: 0 <= i < REGION_MAX ==> rs[i] == Region(0, 0, 0, 0, 0, false)
    ensures CountOk(Space(rs, 0)) && !CountOk(Unmapped(Space(rs, 0), 0))
  {
    UsedCountBound(rs);
    UnmapCountExact(Space(rs, 0), 0);
  }

  /** A live region's start differs from the start of every lower slot, stale ones included. */
  ghost predicate Inv(rs: Table) {
    forall i, j :: 0 <= i < j < |rs| && rs[j].used ==> rs[i].start != rs[j].start
  }

  lemma MapInv(s: Space, r: Region)
    requires Inv(s.rs) && CountOk(s) && |s.rs| <= REGION_MAX && r.used && !IsLive(s.rs, r.start)
    ensures Inv(Mapped(s, r).rs) && CountOk(Mapped(s, r))
  {
    hide UsedCount, FirstFree;
    var k := FirstFree(s.rs);
    if k < |s.rs| {
      UsedCountUpdate(s.rs, k, r);
      UsedCountBound(s.rs);
    }
  }

  /** Mapping fills one unused slot with the region and leaves all others, or changes nothing
      when every slot is in use. */
  lemma MapRecords(s: Space, r: Region)
    ensures var t := Mapped(s, r);
      && |t.rs| == |s.rs|
      && ((forall i :: 0 <= i < |s.rs| ==> s.rs[i].used) ==> t == s)
      && ((exists i :: 0 <= i < |s.rs| && !s.rs[i].used) ==>
            exists k :: 0 <= k < |s.rs| && !s.rs[k].used && t.rs[k] == r && t.count == (s.count + 1) % TWO32
                        && forall i :: 0 <= i < |s.rs| && i != k ==> t.rs[i] == s.rs[i])
  {
    var k := FirstFree(s.rs);
    if k < |s.rs| {
      assert Mapped(s, r).rs[k] == r && !s.rs[k].used;
    }
  }

  /** Unmapping a live start clears the live region and no other slot. */
  lemma UnmapInv(s: Space, virt: nat)
    requires Inv(s.rs) && CountOk(s) && |s.rs| <= REGION_MAX && IsLive(s.rs, virt)
    ensures Inv(Unmapped(s, virt).rs) && CountOk(Unmapped(s, virt))
    ensures s.rs[FirstAt(s.rs, virt)].used && !IsLive(Unmapped(s, virt).rs, virt)
  {
    UnmapCountExact(s, virt);
  }

  // ---------- Runs ----------

  datatype Op = Map(r: Region) | Unmap(virt: nat)

  /** Live regions have distinct starts, and only live starts are unmapped. */
  ghost predicate Legal(s: Space, op: Op) {
    match op
    case Map(r) => r.used && !IsLive(s.rs, r.start)
    case Unmap(virt) => IsLive(s.rs, virt)
  }

  function Step(s: Space, op: Op): Space {
    match op
    case Map(r) => Mapped(s, r)
    case Unmap(virt) => Unmapped(s, virt)
  }

  ghost predicate IsRun(trace: seq<Space>, ops: seq<Op>) {
    && |trace| == |ops| + 1 && trace[0].count == 0 && |trace[0].rs| == REGION_MAX
    && (forall i :: 0 <= i < REGION_MAX ==> !trace[0].rs[i].used)
    && forall n :: 0 <= n < |ops| ==> Legal(trace[n], ops[n]) && trace[n + 1] == Step(trace[n], ops[n])
  }

  /** The region count always is the number of regions in use. */
  lemma {:induction false} RunInv(trace: seq<Space>, ops: seq<Op>, n: nat)
    requires IsRun(trace, ops) && n < |trace|
    ensures |trace[n].rs| == 1024 && Inv(trace[n].rs) && trace[n].count == UsedCount(trace[n].rs)
  {
    if n == 0 {
      UsedCountBound(trace[0].rs);
    } else {
      RunInv(trace, ops, n - 1);
      StepInv(trace[n - 1], ops[n - 1]);
    }
  }

  lemma StepInv(s: Space, op: Op)
    requires |s.rs| == REGION_MAX && Inv(s.rs) && s.count == UsedCount(s.rs) && Legal(s, op)
    ensures var r := Step(s, op);
      |r.rs| == REGION_MAX && Inv(r.rs) && r.count == UsedCount(r.rs)
  {
    UsedCountBound(s.rs);
    UsedCountBound(Step(s, op).rs);
    match op
    case Map(r) => MapInv(s, r);
    case Unmap(virt) => UnmapInv(s, virt);
  }

  /** In every legal run the unmapping of `virt` removes exactly the live region at `virt`. */
  lemma UnmapIsExact(trace: seq<Space>, ops: seq<Op>, n: nat, virt: nat, i: nat)
    requires IsRun(trace, ops) && n < |trace| && i < REGION_MAX && |trace[n].rs| == REGION_MAX
    requires trace[n].rs[i].used && trace[n].rs[i].start == virt
    ensures Unmapped(trace[n], virt).rs == trace[n].rs[i := trace[n].rs[i].(used := false)]
  {
    RunInv(trace, ops, n);
  }

  // ---------- Tearing down ----------

  function Destroyed(s: Space, i: nat): Space
    requires i <= |s.rs|
    decreases |s.rs| - i
  {
    if i == |s.rs| then s
    else if s.rs[i].used then Destroyed(Unmapped(s, s.rs[i].start), i + 1)
    else Destroyed(s, i + 1)
  }

  /** The teardown loop leaves no region in use and a count of zero. */
  lemma {:induction false} DestroyLeavesNone(s: Space, i: nat)
    requires i <= |s.rs| <= REGION_MAX && Inv(s.rs) && CountOk(s)
    requires forall j :: 0 <= j < i ==> !s.rs[j].used
    ensures var d := Destroyed(s, i);
      |d.rs| == |s.rs| && (forall j :: 0 <= j < |d.rs| ==> !d.rs[j].used) && d.count == 0
    decreases |s.rs| - i
  {
    if i == |s.rs| {
      UsedCountBound(s.rs);
    } else if s.rs[i].used {
      UnmapInv(s, s.rs[i].start);
      DestroyLeavesNone(Unmapped(s, s.rs[i].start), i + 1);
    } else {
      DestroyLeavesNone(s, i + 1);
    }
  }

  // ---------- The table in use ----------

  class VmSpace {
    const regions: array<Region>
    var count: nat

    ghost function View(): Space
      reads this, regions
    {
      Space(regions[..], count)
    }

    ghost predicate Valid()
      reads this, regions
    {
      regions.Length == REGION_MAX && count < TWO32
    }

    constructor ()
      ensures Valid() && fresh(regions) && count == 0
      ensures forall i :: 0 <= i < REGION_MAX ==> regions[i] == Region(0, 0, 0, 0, 0, false)
    {
      regions := new Region[REGION_MAX](_ => Region(0, 0, 0, 0, 0, false));
      count := 0;
    }

    /** The recording part of `vmm_map_pages`; `id` is the next region id. */
    method MapPages(virt: nat, phys: nat, pages: nat, flags: nat, id: nat)
      requires Valid()
      modifies this, regions
      ensures Valid()
      ensures View() == Mapped(old(View()), Region(virt, (virt + pages * PAGE_SIZE) % TWO64, flags, id, phys, true))
    {
      for i := 0 to REGION_MAX
        invariant Valid() && View() == old(View())
        invariant FirstFree(regions[..]) == FirstFree(regions[..], i)
      {
        if !regions[i].used {
          regions[i] := Region(virt, (virt + pages * PAGE_SIZE) % TWO64, flags, id, phys, true);
          count := (count + 1) % TWO32;
          return;
        }
      }
    }

    /** The clearing part of `vmm_unmap_pages`. */
    method UnmapPages(virt: nat)
      requires Valid()
      modifies this, regions
      ensures Valid() && View() == Unmapped(old(View()), virt)
    {
      for i := 0 to REGION_MAX
        invariant Valid() && View() == old(View())
        invariant FirstAt(regions[..], virt) == FirstAt(regions[..], virt, i)
      {
        if regions[i].start == virt {
          regions[i] := regions[i].(used := false);
          count := (count - 1) % TWO32;
          return;
        }
      }
    }

    /** The region loop of `vmm_destroy_space`. */
    method Destroy()
      requires Valid()
      modifies this, regions
      ensures Valid() && View() == Destroyed(old(View()), 0)
    {
      for i := 0 to REGION_MAX
        invariant Valid() && Destroyed(View(), i) == Destroyed(old(View()), 0)
      {
        if regions[i].used {
          UnmapPages(regions[i].start);
        }
      }
    }
  }
}
