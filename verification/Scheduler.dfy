/** The scheduler of kernel/sched/sched.c: per-CPU ring arrays with head, tail and count. */
module SchedulerRings {
  import opened Ring
  import opened SchedModel

  class Scheduler {
    const ring: array2<nat>
    const head: array<nat>
    const tail: array<nat>
    const count: array<nat>
    const current: array<nat>
    var state: map<nat, ProcState>
    ghost var sys: Sys

    ghost predicate Sizes()
    {
      && ring.Length0 == CPUS && ring.Length1 == DEPTH
      && head.Length == tail.Length == count.Length == current.Length == CPUS
      && head != tail && head != count && head != current && tail != count && tail != current && count != current
    }

    /** The slots of row `c` from the head on hold the queue `q`. */
    ghost predicate Holds(c: nat, q: seq<nat>)
      requires Sizes() && c < CPUS
      reads ring, head, tail, count
    {
      && head[c] < DEPTH && count[c] == |q| <= DEPTH && tail[c] == Slot(DEPTH, head[c], count[c])
      && forall i :: 0 <= i < |q| ==> ring[c, Slot(DEPTH, head[c], i)] == q[i]
    }

    ghost predicate Valid()
      reads this, ring, head, tail, count, current
    {
      && Sizes()
      && (forall c :: 0 <= c < CPUS ==> Holds(c, sys.queues[c]))
      && current[..] == sys.current && state == sys.state
    }

    constructor ()
      ensures Valid() && sys == BOOTED
      ensures fresh(ring) && fresh(head) && fresh(tail) && fresh(count) && fresh(current)
    {
      ring := new nat[CPUS, DEPTH]((_, _) => 0);
      head := new nat[CPUS](_ => 0);
      tail := new nat[CPUS](_ => 0);
      count := new nat[CPUS](_ => 0);
      current := new nat[CPUS](_ => 0);
      state := map[];
      sys := BOOTED;
    }

    /** All rows but `c` are as the model says. */
    ghost predicate OtherRows(c: nat)
      requires Sizes()
      reads this, ring, head, tail, count
    {
      forall d :: 0 <= d < CPUS && d != c ==> Holds(d, sys.queues[d])
    }

    method Enqueue(c: nat, t: nat, ghost q: seq<nat>)
      requires Sizes() && c < CPUS && Holds(c, q) && |q| < DEPTH && OtherRows(c)
      modifies ring, tail, count
      ensures Holds(c, q + [t]) && OtherRows(c)
    {
      hide Slot;
      Distinct(DEPTH, head[c]);
      OneAfter(DEPTH, head[c], |q|);
      ring[c, tail[c]] := t;
      tail[c] := Slot(DEPTH, tail[c], 1);
      count[c] := count[c] + 1;
    }

    method Dequeue(c: nat, ghost q: seq<nat>) returns (t: nat)
      requires Sizes() && c < CPUS && Holds(c, q) && q != [] && OtherRows(c)
      modifies head, count
      ensures t == q[0] && Holds(c, q[1..]) && OtherRows(c)
    {
      hide Slot;
      Shifted(DEPTH, head[c]);
      t := ring[c, head[c]];
      head[c] := Slot(DEPTH, head[c], 1);
      count[c] := count[c] - 1;
    }

    method AddThread(c: nat, t: nat)
      requires Valid() && c < CPUS
      modifies this, ring, tail, count
      ensures Valid() && sys == Add(old(sys), c, t)
    {
      assert Holds(c, sys.queues[c]);
      if count[c] >= DEPTH { return; }
      Enqueue(c, t, sys.queues[c]);
      state := state[t := Ready];
      sys := Add(sys, c, t);
    }

    method PickNext(c: nat) returns (next: nat)
      requires Valid() && c < CPUS
      modifies this, head, count
      ensures Valid() && (sys, next) == Pick(old(sys), c)
    {
      assert Holds(c, sys.queues[c]);
      if count[c] == 0 { return 0; }
      next := Dequeue(c, sys.queues[c]);
      sys := sys.(queues := sys.queues[c := sys.queues[c][1..]]);
      if next != 0 && next in state && state[next] == Ready {
        state := state[next := Running];
        sys := sys.(state := sys.state[next := Running]);
      } else {
        next := 0;
      }
    }

    method YieldCpu(c: nat)
      requires Valid() && c < CPUS
      modifies this, ring, head, tail, count, current
      ensures Valid() && sys == Yield(old(sys), c)
    {
      hide Pick, Add, Holds;
      var cur := current[c];
      var next := PickNext(c);
      if next == 0 {
        if cur != 0 {
          state := state[cur := Running];
          sys := sys.(state := sys.state[cur := Running]);
        }
        return;
      }
      if cur != 0 && cur in state && state[cur] == Running {
        state := state[cur := Ready];
        sys := sys.(state := sys.state[cur := Ready]);
        AddThread(c, cur);
      }
      current[c] := next;
      sys := sys.(current := sys.current[c := next]);
    }

    method SleepCpu(c: nat)
      requires Valid() && c < CPUS
      modifies this, ring, head, tail, count, current
      ensures Valid() && sys == Sleep(old(sys), c)
    {
      hide Yield, Holds;
      var cur := current[c];
      if cur == 0 { return; }
      state := state[cur := Sleeping];
      sys := sys.(state := sys.state[cur := Sleeping]);
      YieldCpu(c);
    }

    method WakeThread(c: nat, t: nat)
      requires Valid() && c < CPUS
      modifies this, ring, tail, count
      ensures Valid() && sys == Wake(old(sys), c, t)
    {
      if t == 0 || t !in state || state[t] != Sleeping { return; }
      state := state[t := Ready];
      sys := sys.(state := sys.state[t := Ready]);
      AddThread(c, t);
    }

    /** Takes the thread out of the middle of the ring by moving the later ones up. */
    method RemoveThread(c: nat, t: nat)
      requires Valid() && c < CPUS
      modifies this, ring, tail, count
      ensures Valid() && sys == Remove(old(sys), c, t)
    {
      hide Slot;
      ghost var q := sys.queues[c];
      assert Holds(c, q);
      var i := 0;
      while i < count[c]
        invariant i <= |q| && (forall j :: 0 <= j < i ==> q[j] != t)
        invariant unchanged(this) && unchanged(ring) && unchanged(tail) && unchanged(count)
      {
        assert Holds(c, q);
        if ring[c, Slot(DEPTH, head[c], i)] == t {
          assert Find(q, t) == i;
          CloseGap(c, i, q);
          sys := Remove(sys, c, t);
          return;
        }
        i := i + 1;
      }
      assert Without(q, t) == q;
      assert sys.queues[c := q] == sys.queues;
    }

    method CloseGap(c: nat, i: nat, ghost q: seq<nat>)
      requires Sizes() && c < CPUS && Holds(c, q) && i < |q| && OtherRows(c)
      modifies ring, tail, count
      ensures Holds(c, q[..i] + q[i + 1..]) && OtherRows(c)
    {
      MoveUp(c, i, q);
      StepBack(DEPTH, head[c], |q|);
      hide Slot;
      tail[c] := Slot(DEPTH, tail[c], DEPTH - 1);
      count[c] := count[c] - 1;
    }

    method MoveUp(c: nat, i: nat, ghost q: seq<nat>)
      requires Sizes() && c < CPUS && Holds(c, q) && i < |q| && OtherRows(c)
      modifies ring
      ensures forall k :: 0 <= k < |q| - 1 ==> ring[c, Slot(DEPTH, head[c], k)] == (q[..i] + q[i + 1..])[k]
      ensures OtherRows(c)
    {
      var h, n := head[c], count[c];
      Distinct(DEPTH, h);
      hide Slot;
      ghost var r := q[..i] + q[i + 1..];
      var j := i;
      while j < n - 1
        invariant i <= j < n && OtherRows(c)
        invariant forall k :: 0 <= k < j ==> ring[c, Slot(DEPTH, h, k)] == r[k]
        invariant forall k :: j <= k < n ==> ring[c, Slot(DEPTH, h, k)] == q[k]
      {
        assert ring[c, Slot(DEPTH, h, j + 1)] == q[j + 1] == r[j];
        ring[c, Slot(DEPTH, h, j)] := ring[c, Slot(DEPTH, h, j + 1)];
        j := j + 1;
      }
    }
  }
}
