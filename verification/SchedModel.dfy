/** The scheduler as a state machine: per-CPU queues, the current threads and the thread
    states, with every scheduler function one atomic step. Thread 0 is NULL. */
module SchedModel {

  const CPUS: nat := 256
  const DEPTH: nat := 256

  datatype ProcState = Created | Running | Ready | Blocked | Sleeping | Zombie | Terminated

  datatype SysData = Sys(queues: seq<seq<nat>>, current: seq<nat>, state: map<nat, ProcState>) {
    /** The state of a thread; unknown threads count as just created. */
    function StateOf(t: nat): ProcState { if t in state then state[t] else Created }
  }

  type Sys = s: SysData | |s.queues| == CPUS == |s.current|
    witness Sys(seq(CPUS, _ => []), seq(CPUS, _ => 0), map[])

  const BOOTED: Sys := Sys(seq(CPUS, _ => []), seq(CPUS, _ => 0), map[])

  /** Queues within their depth, and every thread in use is known. */
  ghost predicate Shape(s: Sys) {
    && 0 !in s.state
    && (forall c, i :: 0 <= c < CPUS && 0 <= i < |s.queues[c]| ==> Known(s, s.queues[c][i]))
    && (forall c :: 0 <= c < CPUS && s.current[c] != 0 ==> Known(s, s.current[c]))
    && (forall c :: 0 <= c < CPUS ==> |s.queues[c]| <= DEPTH)
  }

  predicate Known(s: Sys, t: nat) { t != 0 && t in s.state }

  function Add(s: Sys, c: nat, t: nat): Sys
    requires c < CPUS
  {
    if |s.queues[c]| >= DEPTH then s
    else s.(queues := s.queues[c := s.queues[c] + [t]], state := s.state[t := Ready])
  }

  /** `sched_pick_next`: the thread is 0 when there is none to run. */
  function Pick(s: Sys, c: nat): (Sys, nat)
    requires c < CPUS
  {
    if s.queues[c] == [] then (s, 0) else
    var t := s.queues[c][0];
    var popped := s.(queues := s.queues[c := s.queues[c][1..]]);
    if t != 0 && s.StateOf(t) == Ready then (popped.(state := s.state[t := Running]), t) else (popped, 0)
  }

  function Yield(s: Sys, c: nat): Sys
    requires c < CPUS
  {
    var cur := s.current[c];
    var (p, next) := Pick(s, c);
    if next == 0 then
      if cur == 0 then p else p.(state := p.state[cur := Running])
    else
      var q := if cur != 0 && p.StateOf(cur) == Running then Add(p.(state := p.state[cur := Ready]), c, cur) else p;
      q.(current := q.current[c := next])
  }

  function Sleep(s: Sys, c: nat): Sys
    requires c < CPUS
  {
    var cur := s.current[c];
    if cur == 0 then s else Yield(s.(state := s.state[cur := Sleeping]), c)
  }

  function Wake(s: Sys, c: nat, t: nat): Sys
    requires c < CPUS
  {
    if t == 0 || s.StateOf(t) != Sleeping then s else Add(s.(state := s.state[t := Ready]), c, t)
  }

  /** The position of the first occurrence, or the length. */
  function Find(q: seq<nat>, t: nat): (i: nat)
    ensures i <= |q| && (forall j :: 0 <= j < i ==> q[j] != t) && (i < |q| ==> q[i] == t)
  {
    if q == [] || q[0] == t then 0 else 1 + Find(q[1..], t)
  }

  function Without(q: seq<nat>, t: nat): seq<nat> {
    var i := Find(q, t);
    if i == |q| then q else q[..i] + q[i + 1..]
  }

  function Remove(s: Sys, c: nat, t: nat): Sys
    requires c < CPUS
  {
    s.(queues := s.queues[c := Without(s.queues[c], t)])
  }

  // ---------- The invariant ----------

  ghost predicate Queued(s: Sys, t: nat) {
    exists c, i :: 0 <= c < |s.queues| && 0 <= i < |s.queues[c]| && s.queues[c][i] == t
  }

  ghost predicate IsCurrent(s: Sys, t: nat) {
    exists c :: 0 <= c < |s.current| && s.current[c] == t
  }

  /** Queued threads are ready and sit in one slot each. */
  ghost predicate QueuesOk(s: Sys)
    requires Shape(s)
  {
    && (forall c, i :: 0 <= c < CPUS && 0 <= i < |s.queues[c]| ==> s.state[s.queues[c][i]] == Ready)
    && (forall c, i, d, j ::
          0 <= c < CPUS && 0 <= i < |s.queues[c]| && 0 <= d < CPUS && 0 <= j < |s.queues[d]| && (c != d || i != j)
          ==> s.queues[c][i] != s.queues[d][j])
  }

  /** A thread is running exactly when it is some CPU's current thread, and then of one CPU only. */
  ghost predicate CurrentOk(s: Sys)
    requires Shape(s)
  {
    && (forall c :: 0 <= c < CPUS && s.current[c] != 0 ==> s.state[s.current[c]] == Running)
    && (forall c, d :: 0 <= c < d < CPUS && s.current[c] != 0 ==> s.current[c] != s.current[d])
    && (forall t :: t in s.state && s.state[t] == Running ==> IsCurrent(s, t))
  }

  ghost predicate Inv(s: Sys) {
    Shape(s) && QueuesOk(s) && CurrentOk(s)
  }

  datatype Op =
    | OpAdd(cpu: nat, t: nat)
    | OpYield(cpu: nat)
    | OpSleep(cpu: nat)
    | OpWake(cpu: nat, t: nat)
    | OpRemove(cpu: nat, t: nat)

  /** Only threads that are neither queued nor running are added; a thread that was never
      seen before enters the system that way. */
  ghost predicate Legal(s: Sys, op: Op) {
    && op.cpu < CPUS
    && (op.OpAdd? ==> op.t != 0 && s.StateOf(op.t) != Running && !Queued(s, op.t))
  }

  function Step(s: Sys, op: Op): Sys
    requires op.cpu < CPUS
  {
    match op
    case OpAdd(c, t) => Add(s, c, t)
    case OpYield(c) => Yield(s, c)
    case OpSleep(c) => Sleep(s, c)
    case OpWake(c, t) => Wake(s, c, t)
    case OpRemove(c, t) => Remove(s, c, t)
  }

  lemma AddInv(s: Sys, c: nat, t: nat)
    requires Inv(s) && c < CPUS && t != 0 && s.StateOf(t) != Running && !Queued(s, t)
    ensures Inv(Add(s, c, t))
  {
  }

  lemma WakeInv(s: Sys, c: nat, t: nat)
    requires Inv(s) && c < CPUS
    ensures Inv(Wake(s, c, t))
  {
    if t != 0 && s.StateOf(t) == Sleeping {
      assert Inv(s.(state := s.state[t := Ready]));
      AddInv(s.(state := s.state[t := Ready]), c, t);
    }
  }

  /** Removal takes out the thread and keeps the others in their order. */
  lemma WithoutIsRemoval(q: seq<nat>, t: nat)
    ensures var r, i := Without(q, t), Find(q, t);
      if t in q then i <= |r| && q == r[..i] + [t] + r[i..] else r == q
  {
    hide Find;
    if t in q {
      var i := Find(q, t);
      assert Without(q, t)[..i] == q[..i] && Without(q, t)[i..] == q[i + 1..];
    }
  }

  lemma WithoutElements(q: seq<nat>, t: nat)
    ensures |Without(q, t)| == if Find(q, t) < |q| then |q| - 1 else |q|
    ensures forall i :: 0 <= i < |Without(q, t)| ==> Without(q, t)[i] == q[if i < Find(q, t) then i else i + 1]
  {
    hide Find;
  }

  lemma RemoveQueues(s: Sys, c: nat, t: nat)
    requires Inv(s) && c < CPUS
    ensures Shape(Remove(s, c, t)) && QueuesOk(Remove(s, c, t))
  {
    hide Without, IsCurrent;
    WithoutElements(s.queues[c], t);
  }

  lemma RemoveInv(s: Sys, c: nat, t: nat)
    requires Inv(s) && c < CPUS
    ensures Inv(Remove(s, c, t))
  {
    hide Without;
    RemoveQueues(s, c, t);
    forall u | IsCurrent(s, u) ensures IsCurrent(Remove(s, c, t), u) {
      var d :| 0 <= d < CPUS && s.current[d] == u;
      assert Remove(s, c, t).current[d] == u;
    }
  }

  /** The state after a switch on CPU `c` to the head of its queue: the thread switched away
      from goes to state `to`, and to the end of the queue if that is `Ready`. */
  /** Removal takes the first occurrence of the thread out of that CPU's queue and touches
      nothing else; afterwards it is in no queue if it was in that one. */
  lemma RemoveExact(s: Sys, c: nat, t: nat)
    requires Inv(s) && c < CPUS
    ensures var r, q := Remove(s, c, t), s.queues[c];
      && r.current == s.current && r.state == s.state && SameElsewhereQueues(s, r, c)
      && (t !in q ==> r.queues[c] == q)
      && (t in q ==> !Queued(r, t) && exists i :: 0 <= i < |q| && q[i] == t && r.queues[c] == q[..i] + q[i + 1..]
                                                  && forall j :: 0 <= j < i ==> q[j] != t)
  {
    var q, i := s.queues[c], Find(s.queues[c], t);
    WithoutElements(q, t);
    if t in q {
      assert q[i] == t && Without(q, t) == q[..i] + q[i + 1..];
      NotQueuedTwice(s, c, i);
    }
  }

  ghost predicate SameElsewhereQueues(s: Sys, r: Sys, c: nat) {
    forall d :: 0 <= d < CPUS && d != c ==> r.queues[d] == s.queues[d]
  }

  lemma NotQueuedTwice(s: Sys, c: nat, i: nat)
    requires Inv(s) && c < CPUS && i < |s.queues[c]| && Find(s.queues[c], s.queues[c][i]) == i
    ensures !Queued(Remove(s, c, s.queues[c][i]), s.queues[c][i])
  {
    var t := s.queues[c][i];
    var r := Remove(s, c, t);
    WithoutElements(s.queues[c], t);
    forall d, j | 0 <= d < CPUS && 0 <= j < |r.queues[d]| ensures r.queues[d][j] != t {
      if d == c {
        assert r.queues[c][j] == s.queues[c][if j < i then j else j + 1];
      }
    }
  }

  function Switched(s: Sys, c: nat, to: ProcState): Sys
    requires c < CPUS && s.queues[c] != []
  {
    var cur, q := s.current[c], s.queues[c];
    Sys(s.queues[c := q[1..] + if cur != 0 && to == Ready then [cur] else []],
        s.current[c := q[0]],
        (if cur != 0 then s.state[cur := to] else s.state)[q[0] := Running])
  }

  lemma YieldIsSwitch(s: Sys, c: nat)
    requires Inv(s) && c < CPUS
    ensures Yield(s, c) == if s.queues[c] == [] then s else Switched(s, c, Ready)
  {
    var cur, q := s.current[c], s.queues[c];
    if q == [] {
      if cur != 0 { assert s.state[cur := Running] == s.state; }
    } else {
      var (p, next) := Pick(s, c);
      assert next == q[0] && p.queues[c] == q[1..];
      if cur == 0 {
        assert q[1..] + [] == q[1..];
      } else {
        assert p.queues[c := q[1..] + [cur]] == s.queues[c := q[1..] + [cur]];
        assert p.state[cur := Ready][cur := Ready] == s.state[cur := Ready][q[0] := Running];
      }
    }
  }

  lemma SleepIsSwitch(s: Sys, c: nat)
    requires Inv(s) && c < CPUS
    ensures Sleep(s, c) == if s.queues[c] == [] || s.current[c] == 0 then s else Switched(s, c, Sleeping)
  {
    var cur, q := s.current[c], s.queues[c];
    if cur != 0 {
      var s1 := s.(state := s.state[cur := Sleeping]);
      if q == [] {
        assert s1.state[cur := Running] == s.state;
      } else {
        assert s1.state[q[0]] == Ready;
        assert q[1..] + [] == q[1..];
      }
    }
  }

  lemma SwitchedShape(s: Sys, c: nat, to: ProcState)
    requires Inv(s) && c < CPUS && s.queues[c] != []
    ensures Shape(Switched(s, c, to))
    ensures |Switched(s, c, to).queues[c]| <= |s.queues[c]|
    ensures forall i :: 0 <= i < |Switched(s, c, to).queues[c]| ==>
      Switched(s, c, to).queues[c][i] == if i + 1 < |s.queues[c]| then s.queues[c][i + 1] else s.current[c]
  {
  }

  lemma SwitchedQueues(s: Sys, c: nat, to: ProcState)
    requires Inv(s) && c < CPUS && s.queues[c] != [] && Shape(Switched(s, c, to))
    ensures QueuesOk(Switched(s, c, to))
  {
    hide IsCurrent;
    SwitchedShape(s, c, to);
  }

  lemma SwitchedCurrent(s: Sys, c: nat, to: ProcState)
    requires Inv(s) && c < CPUS && s.queues[c] != [] && to != Running && Shape(Switched(s, c, to))
    ensures CurrentOk(Switched(s, c, to))
  {
    var r := Switched(s, c, to);
    var cur, next := s.current[c], s.queues[c][0];
    forall t | t in r.state && r.state[t] == Running ensures IsCurrent(r, t) {
      if t == next {
        assert r.current[c] == t;
      } else {
        var d :| 0 <= d < CPUS && s.current[d] == t;
        assert r.current[d] == t;
      }
    }
  }

  lemma SwitchedInv(s: Sys, c: nat, to: ProcState)
    requires Inv(s) && c < CPUS && s.queues[c] != [] && to != Running
    ensures Inv(Switched(s, c, to))
  {
    SwitchedShape(s, c, to);
    SwitchedQueues(s, c, to);
    SwitchedCurrent(s, c, to);
  }

  /** Every legal step keeps the invariant. */
  lemma StepInv(s: Sys, op: Op)
    requires Inv(s) && Legal(s, op)
    ensures Inv(Step(s, op))
  {
    match op
    case OpAdd(c, t) => AddInv(s, c, t);
    case OpYield(c) =>
      YieldIsSwitch(s, c);
      if s.queues[c] != [] { SwitchedInv(s, c, Ready); }
    case OpSleep(c) =>
      SleepIsSwitch(s, c);
      if s.queues[c] != [] && s.current[c] != 0 { SwitchedInv(s, c, Sleeping); }
    case OpWake(c, t) => WakeInv(s, c, t);
    case OpRemove(c, t) => RemoveInv(s, c, t);
  }

  // ---------- Runs ----------

  ghost predicate IsRun(trace: seq<Sys>, ops: seq<Op>) {
    && |trace| == |ops| + 1 && Inv(trace[0])
    && forall n :: 0 <= n < |ops| ==> Legal(trace[n], ops[n]) && trace[n + 1] == Step(trace[n], ops[n])
  }

  lemma BootedInv()
    ensures Inv(BOOTED)
  {
  }

  /** In every interleaving of the operations on all CPUS the invariant holds throughout. */
  lemma {:induction false} RunInv(trace: seq<Sys>, ops: seq<Op>, n: nat)
    requires IsRun(trace, ops) && n < |trace|
    ensures Inv(trace[n])
  {
    if n > 0 {
      RunInv(trace, ops, n - 1);
      StepInv(trace[n - 1], ops[n - 1]);
    }
  }

  // ---------- No thread is lost ----------

  ghost predicate Runnable(s: Sys, t: nat) {
    t != 0 && (Queued(s, t) || IsCurrent(s, t))
  }

  lemma YieldLosesNothing(s: Sys, c: nat, t: nat)
    requires Inv(s) && c < CPUS
    ensures Runnable(Yield(s, c), t) <==> Runnable(s, t)
  {
    YieldIsSwitch(s, c);
    if s.queues[c] != [] {
      SwitchedRunnable(s, c, Ready, t);
    }
  }

  /** A switch keeps every runnable thread runnable, except one put to sleep. */
  lemma SwitchedRunnable(s: Sys, c: nat, to: ProcState, t: nat)
    requires Inv(s) && c < CPUS && s.queues[c] != [] && to != Running
    ensures Runnable(Switched(s, c, to), t) <==> Runnable(s, t) && (to == Ready || t != s.current[c])
  {
    var r := Switched(s, c, to);
    if Runnable(s, t) && (to == Ready || t != s.current[c]) {
      StaysRunnable(s, c, to, t);
    }
    if Runnable(r, t) {
      WasRunnable(s, c, to, t);
    }
  }

  lemma StaysRunnable(s: Sys, c: nat, to: ProcState, t: nat)
    requires Inv(s) && c < CPUS && s.queues[c] != []
    requires Runnable(s, t) && (to == Ready || t != s.current[c])
    ensures Runnable(Switched(s, c, to), t)
  {
    var r := Switched(s, c, to);
    var cur, q := s.current[c], s.queues[c];
    SwitchedShape(s, c, to);
    if t == q[0] {
      assert r.current[c] == t;
    } else if t == cur {
      assert r.queues[c][|q| - 1] == t;
    } else if Queued(s, t) {
      var d, i :| 0 <= d < CPUS && 0 <= i < |s.queues[d]| && s.queues[d][i] == t;
      assert r.queues[d][if d == c then i - 1 else i] == t;
    } else {
      var d :| 0 <= d < CPUS && s.current[d] == t;
      assert r.current[d] == t;
    }
  }

  lemma WasRunnable(s: Sys, c: nat, to: ProcState, t: nat)
    requires Inv(s) && c < CPUS && s.queues[c] != [] && to != Running && Runnable(Switched(s, c, to), t)
    ensures Runnable(s, t) && (to == Ready || t != s.current[c])
  {
    var r := Switched(s, c, to);
    var cur, q := s.current[c], s.queues[c];
    SwitchedShape(s, c, to);
    SwitchedInv(s, c, to);
    if Queued(r, t) {
      var d, i :| 0 <= d < CPUS && 0 <= i < |r.queues[d]| && r.queues[d][i] == t;
      assert t == cur || s.queues[d][if d == c then i + 1 else i] == t;
    } else {
      var d :| 0 <= d < CPUS && r.current[d] == t;
      assert if d == c then q[0] == t else s.current[d] == t;
    }
  }

  /** Waking a sleeping thread makes it runnable exactly when the queue has room; on a full
      queue the thread is marked ready but no queue holds it. */
  lemma WakeNeedsRoom(s: Sys, c: nat, t: nat)
    requires Inv(s) && c < CPUS && Known(s, t) && s.state[t] == Sleeping
    ensures Runnable(Wake(s, c, t), t) <==> |s.queues[c]| < 256
    ensures Wake(s, c, t).state[t] == Ready
  {
    var w := Wake(s, c, t);
    if |s.queues[c]| < DEPTH {
      assert w.queues[c][|s.queues[c]|] == t;
    } else {
      assert w.queues == s.queues && w.current == s.current;
    }
  }

  lemma LostStep(s: Sys, op: Op, t: nat)
    requires Inv(s) && Legal(s, op) && t != 0 && s.StateOf(t) == Ready && !Runnable(s, t)
    requires !(op.OpAdd? && op.t == t)
    ensures Step(s, op).StateOf(t) == Ready && !Runnable(Step(s, op), t)
  {
    match op
    case OpAdd(c, u) =>
    case OpWake(c, u) =>
    case OpYield(c) =>
      YieldIsSwitch(s, c);
      if s.queues[c] != [] { LostSwitch(s, c, Ready, t); }
    case OpSleep(c) =>
      SleepIsSwitch(s, c);
      if s.queues[c] != [] && s.current[c] != 0 { LostSwitch(s, c, Sleeping, t); }
    case OpRemove(c, u) =>
      WithoutElements(s.queues[c], u);
  }

  lemma LostSwitch(s: Sys, c: nat, to: ProcState, t: nat)
    requires Inv(s) && c < CPUS && s.queues[c] != [] && to != Running
    requires t != 0 && s.StateOf(t) == Ready && !Runnable(s, t)
    ensures Switched(s, c, to).StateOf(t) == Ready && !Runnable(Switched(s, c, to), t)
  {
    SwitchedRunnable(s, c, to, t);
    assert s.queues[c][0] != t;
    assert s.current[c] != t;
  }

  /** A thread that is ready but in no queue, as waking onto a full queue leaves it, is never
      run again unless it is added anew: no later wake-up, yield or sleep brings it back. */
  lemma {:induction false} LostForever(trace: seq<Sys>, ops: seq<Op>, t: nat, n: nat)
    requires IsRun(trace, ops) && n < |trace|
    requires t != 0 && trace[0].StateOf(t) == Ready && !Runnable(trace[0], t)
    requires forall m :: 0 <= m < n ==> !(ops[m].OpAdd? && ops[m].t == t)
    ensures trace[n].StateOf(t) == Ready && !Runnable(trace[n], t)
  {
    hide Step, Inv, Legal, Runnable;
    if n > 0 {
      LostForever(trace, ops, t, n - 1);
      RunInv(trace, ops, n - 1);
      LostStep(trace[n - 1], ops[n - 1], t);
    }
  }

  /** Thread 1 sleeps, thread 2 runs, and `k` more threads wait on CPU 0. */
  ghost predicate Crowded(s: Sys, k: nat) {
    && s.current[0] == 2 && s.StateOf(1) == Sleeping && s.StateOf(2) == Running
    && (forall c :: 1 <= c < CPUS ==> s.queues[c] == [] && s.current[c] == 0)
    && |s.queues[0]| == k && (forall i :: 0 <= i < k ==> s.queues[0][i] == i + 3)
    && forall t :: t in s.state ==> 1 <= t < k + 3
  }

  lemma TwoThreads() returns (s1: Sys, s2: Sys)
    ensures s1 == Add(BOOTED, 0, 1) && s2 == Add(s1, 0, 2) && !Queued(s1, 2) && 2 !in s1.state
    ensures s2.queues == BOOTED.queues[0 := [1, 2]] && s2.current == BOOTED.current
    ensures s2.state == map[1 := Ready, 2 := Ready]
  {
    s1 := Add(BOOTED, 0, 1);
    s2 := Add(s1, 0, 2);
    assert s1.queues[0] == [1] && s2.queues[0] == [1, 2];
  }

  lemma FirstYield(s: Sys) returns (r: Sys)
    requires s.queues == BOOTED.queues[0 := [1, 2]] && s.current == BOOTED.current
    requires s.state == map[1 := Ready, 2 := Ready]
    ensures r == Yield(s, 0) && r.queues == BOOTED.queues[0 := [2]] && r.current == BOOTED.current[0 := 1]
    ensures r.state == map[1 := Running, 2 := Ready]
  {
    r := Yield(s, 0);
    assert s.queues[0][1..] == [2];
    assert r.queues[0] == [2] && r.current[0] == 1;
    assert r.state == map[1 := Running, 2 := Ready];
  }

  lemma ThenSleep(s: Sys) returns (r: Sys)
    requires s.queues == BOOTED.queues[0 := [2]] && s.current == BOOTED.current[0 := 1]
    requires s.state == map[1 := Running, 2 := Ready]
    ensures r == Sleep(s, 0) && Crowded(r, 0)
  {
    r := Sleep(s, 0);
    assert s.queues[0][1..] == [];
    assert r.queues[0] == [] && r.current[0] == 2;
  }

  lemma FirstSleep() returns (trace: seq<Sys>, ops: seq<Op>)
    ensures IsRun(trace, ops) && trace[0] == BOOTED && Crowded(trace[|ops|], 0)
  {
    hide Inv, Crowded, Add, Yield, Sleep;
    BootedInv();
    var s1, s2 := TwoThreads();
    var s3 := FirstYield(s2);
    var s4 := ThenSleep(s3);
    trace := [BOOTED, s1, s2, s3, s4];
    ops := [OpAdd(0, 1), OpAdd(0, 2), OpYield(0), OpSleep(0)];
  }

  lemma CrowdedMore(s: Sys, k: nat)
    requires Crowded(s, k) && k < DEPTH
    ensures Legal(s, OpAdd(0, k + 3)) && Crowded(Step(s, OpAdd(0, k + 3)), k + 1)
  {
  }

  lemma {:induction false} CrowdedRun(k: nat) returns (trace: seq<Sys>, ops: seq<Op>)
    requires k <= DEPTH
    ensures IsRun(trace, ops) && trace[0] == BOOTED && Crowded(trace[|ops|], k)
  {
    if k == 0 {
      trace, ops := FirstSleep();
    } else {
      trace, ops := CrowdedRun(k - 1);
      hide Crowded, Legal, Step, Inv;
      var s := trace[|ops|];
      CrowdedMore(s, k - 1);
      trace, ops := trace + [Step(s, OpAdd(0, k + 2))], ops + [OpAdd(0, k + 2)];
    }
  }

  /** A run from boot in which a sleeping thread is woken and lost. */
  lemma WakeCanLose() returns (trace: seq<Sys>, ops: seq<Op>)
    ensures IsRun(trace, ops) && trace[0] == BOOTED
    ensures |ops| > 0 && ops[|ops| - 1] == OpWake(0, 1) && trace[|ops| - 1].StateOf(1) == Sleeping
    ensures trace[|ops|].StateOf(1) == Ready && !Runnable(trace[|ops|], 1)
  {
    trace, ops := CrowdedRun(DEPTH);
    var s := trace[|ops|];
    RunInv(trace, ops, |ops|);
    WakeNeedsRoom(s, 0, 1);
    hide Inv, Step, Runnable;
    assert Step(s, OpWake(0, 1)) == Wake(s, 0, 1) by { WakeStep(s, 0, 1); }
    trace, ops := trace + [Step(s, OpWake(0, 1))], ops + [OpWake(0, 1)];
  }

  lemma WakeStep(s: Sys, c: nat, t: nat)
    requires c < CPUS
    ensures Step(s, OpWake(c, t)) == Wake(s, c, t)
  {
  }

  // ---------- Bounded waiting ----------

  /** The operation makes CPU `c` take the next thread of its queue. */
  ghost predicate IsSwitch(s: Sys, op: Op, c: nat)
    requires c < CPUS
  {
    op.cpu == c && (op.OpYield? || (op.OpSleep? && s.current[c] != 0))
  }

  ghost function Switches(trace: seq<Sys>, ops: seq<Op>, c: nat, n: nat): nat
    requires c < CPUS && n <= |ops| && n <= |trace|
  {
    if n == 0 then 0
    else Switches(trace, ops, c, n - 1) + if IsSwitch(trace[n - 1], ops[n - 1], c) then 1 else 0
  }

  /** One step moves a queued thread up by one place on a switch, and not at all otherwise. */
  lemma StepAdvances(s: Sys, op: Op, c: nat, i: nat)
    requires Inv(s) && Legal(s, op) && c < CPUS && i < |s.queues[c]|
    requires !(op.OpRemove? && op.cpu == c)
    ensures var r, t := Step(s, op), s.queues[c][i];
      if !IsSwitch(s, op, c) then i < |r.queues[c]| && r.queues[c][i] == t
      else if i == 0 then r.current[c] == t
      else i - 1 < |r.queues[c]| && r.queues[c][i - 1] == t
  {
    if op.OpYield? {
      YieldIsSwitch(s, op.cpu);
    } else if op.OpSleep? {
      SleepIsSwitch(s, op.cpu);
    }
  }

  /** A thread at position `i` of CPU `c`'s queue is at position `i - k` after `k` switches on
      that CPU and becomes current with switch number `i + 1`, whatever else happens in between, as long as
      nothing is removed from that queue. */
  lemma {:induction false} BoundedWaiting(trace: seq<Sys>, ops: seq<Op>, c: nat, i: nat, n: nat)
    requires IsRun(trace, ops) && n <= |ops| && c < CPUS && i < |trace[0].queues[c]|
    requires forall m :: 0 <= m < n ==> !(ops[m].OpRemove? && ops[m].cpu == c)
    ensures var k, t := Switches(trace, ops, c, n), trace[0].queues[c][i];
      && (k <= i ==> i - k < |trace[n].queues[c]| && trace[n].queues[c][i - k] == t)
      && (n > 0 && k == i + 1 && IsSwitch(trace[n - 1], ops[n - 1], c) ==> trace[n].current[c] == t)
  {
    hide Step, Inv, Legal;
    if n > 0 {
      BoundedWaiting(trace, ops, c, i, n - 1);
      RunInv(trace, ops, n - 1);
      var k := Switches(trace, ops, c, n - 1);
      if k <= i {
        StepAdvances(trace[n - 1], ops[n - 1], c, i - k);
      }
    }
  }

  // ---------- Rotation ----------

  /** The current thread of CPU `c` followed by its queue. */
  function Line(s: Sys, c: nat): seq<nat>
    requires c < CPUS
  {
    [s.current[c]] + s.queues[c]
  }

  function Yields(s: Sys, c: nat, k: nat): Sys
    requires c < CPUS
  {
    if k == 0 then s else Yield(Yields(s, c, k - 1), c)
  }

  /** Apart from CPU `c`'s own threads, nothing differs. */
  ghost predicate SameElsewhere(s: Sys, r: Sys, c: nat)
    requires c < CPUS
  {
    && (forall d :: 0 <= d < CPUS && d != c ==> r.queues[d] == s.queues[d] && r.current[d] == s.current[d])
    && r.state.Keys == s.state.Keys
    && (forall t :: t in s.state && t !in Line(s, c) ==> r.state[t] == s.state[t])
  }

  lemma YieldRotates(s: Sys, c: nat)
    requires Inv(s) && c < CPUS && s.current[c] != 0
    ensures Line(Yield(s, c), c) == Line(s, c)[1..] + [s.current[c]]
    ensures SameElsewhere(s, Yield(s, c), c)
  {
    YieldIsSwitch(s, c);
  }

  lemma LineIsKnown(s: Sys, c: nat, k: nat)
    requires Inv(s) && c < CPUS && s.current[c] != 0 && k < |Line(s, c)|
    ensures Line(s, c)[k] != 0
  {
    if k > 0 { assert Known(s, s.queues[c][k - 1]); }
  }

  lemma YieldKeepsInv(s: Sys, c: nat)
    requires Inv(s) && c < CPUS
    ensures Inv(Yield(s, c))
  {
    StepInv(s, OpYield(c));
  }

  lemma {:induction false} YieldsRotate(s: Sys, c: nat, k: nat)
    requires Inv(s) && c < CPUS && s.current[c] != 0 && k <= |Line(s, c)|
    ensures Inv(Yields(s, c, k)) && SameElsewhere(s, Yields(s, c, k), c)
    ensures Line(Yields(s, c, k), c) == Line(s, c)[k..] + Line(s, c)[..k]
  {
    hide Inv, Yield;
    if k > 0 {
      YieldsRotate(s, c, k - 1);
      var p, l := Yields(s, c, k - 1), Line(s, c);
      assert p.current[c] == Line(p, c)[0] == l[k - 1];
      LineIsKnown(s, c, k - 1);
      YieldRotates(p, c);
      YieldKeepsInv(p, c);
      assert l[k..] + l[..k] == (l[k - 1..] + l[..k - 1])[1..] + [l[k - 1]];
      assert forall t :: t in Line(p, c) ==> t in l;
    }
  }

  /** With yields only, as many of them as there are threads on the CPU restore everything. */
  lemma RoundRobin(s: Sys, c: nat)
    requires Inv(s) && c < CPUS && s.current[c] != 0
    ensures Yields(s, c, |s.queues[c]| + 1) == s
  {
    hide Yield, Queued, IsCurrent;
    var n := |s.queues[c]| + 1;
    YieldsRotate(s, c, n);
    var r, l := Yields(s, c, n), Line(s, c);
    assert l[n..] + l[..n] == l;
    assert r.current[c] == Line(r, c)[0] && r.queues[c] == Line(r, c)[1..];
    assert s.current[c] == l[0] && s.queues[c] == l[1..];
    assert r.queues == s.queues && r.current == s.current;
    forall t | t in s.state ensures r.state[t] == s.state[t] {
      if t in l {
        var i :| 0 <= i < |l| && l[i] == t;
        if i > 0 { assert s.queues[c][i - 1] == t && r.queues[c][i - 1] == t; }
      }
    }
    assert r.state == s.state;
  }
}
