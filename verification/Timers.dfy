/** The timers of kernel/timer.c. Callbacks are modelled by the list of timers that fire; they
    leave the timer table alone. */
module Timers {
  import opened Machine

  const MAX_TIMERS: nat := 64

  datatype Timer = Timer(id: nat, interval: nat, periodic: bool, active: bool)

  datatype State = State(timers: seq<Timer>, nextId: nat, uptime: nat)

  datatype Op = Create(interval: nat, periodic: bool, callback: bool) | Cancel(id: nat) | Tick

  predicate Fires(t: Timer, now: nat) { t.active && t.interval > 0 && now % t.interval == 0 }

  function Ticked(t: Timer, now: nat): Timer {
    if Fires(t, now) && !t.periodic then t.(active := false) else t
  }

  function TickAll(ts: seq<Timer>, now: nat): (r: seq<Timer>)
    ensures |r| == |ts|
    ensures forall i :: 0 <= i < |ts| ==> r[i] == Ticked(ts[i], now)
  {
    seq(|ts|, i requires 0 <= i < |ts| => Ticked(ts[i], now))
  }

  /** The first active timer with this id, or the number of timers. */
  function Find(ts: seq<Timer>, id: nat, i: nat := 0): (k: nat)
    requires i <= |ts|
    ensures i <= k <= |ts| && (k < |ts| ==> ts[k].id == id && ts[k].active)
    ensures forall j :: i <= j < k ==> !(ts[j].id == id && ts[j].active)
    decreases |ts| - i
  {
    if i == |ts| || (ts[i].id == id && ts[i].active) then i else Find(ts, id, i + 1)
  }

  function Step(s: State, op: Op): State {
    match op
    case Create(interval, periodic, callback) =>
      if !callback || |s.timers| >= MAX_TIMERS then s
      else State(s.timers + [Timer(s.nextId, interval, periodic, true)], s.nextId + 1, s.uptime)
    case Cancel(id) =>
      var k := Find(s.timers, id);
      if k == |s.timers| then s else s.(timers := s.timers[k := s.timers[k].(active := false)])
    case Tick => State(TickAll(s.timers, s.uptime + 1), s.nextId, s.uptime + 1)
  }

  // ---------- One timer over a stretch of ticks ----------

  /** The timer after `n` ticks that start at uptime `u`. */
  function After(t: Timer, u: nat, n: nat): Timer {
    if n == 0 then t else Ticked(After(t, u, n - 1), u + n)
  }

  function FireCount(t: Timer, u: nat, n: nat): nat {
    if n == 0 then 0 else FireCount(t, u, n - 1) + if Fires(After(t, u, n - 1), u + n) then 1 else 0
  }

  /** `m` reaches a new multiple of `k`. */
  lemma NextMultiple(m: nat, k: nat)
    requires k > 0 && m > 0
    ensures m / k == (m - 1) / k + if m % k == 0 then 1 else 0
  {
    var q, r := (m - 1) / k, (m - 1) % k;
    assert m == k * q + (r + 1);
    if r + 1 == k {
      assert m == k * (q + 1);
      DivMod(m, k, q + 1, 0);
    } else {
      DivMod(m, k, q, r + 1);
    }
  }

  lemma DivMod(a: nat, d: nat, q: nat, r: nat)
    requires d > 0 && r < d && a == d * q + r
    ensures a / d == q && a % d == r
  {
    var q' := a / d;
    assert a == d * q' + a % d;
    if q < q' {
      Scale(d, q + 1, q');
    } else if q > q' {
      Scale(d, q' + 1, q);
    }
  }

  lemma Scale(d: nat, a: nat, b: nat)
    requires a <= b
    ensures d * a <= d * b
  {
    assert d * b == d * a + d * (b - a);
  }

  /** The multiples of `k` in `u + 1 .. u + n`. */
  function Passed(u: nat, n: nat, k: nat): int
    requires k > 0
  {
    (u + n) / k - u / k
  }

  lemma PassedStep(u: nat, n: nat, k: nat)
    requires k > 0
    ensures Passed(u, 0, k) == 0
    ensures n > 0 ==> Passed(u, n, k) == Passed(u, n - 1, k) + if (u + n) % k == 0 then 1 else 0
  {
    if n > 0 { NextMultiple(u + n, k); }
  }

  /** A periodic timer fires once for every multiple of its interval that is passed. */
  lemma {:induction false} PeriodicFires(t: Timer, u: nat, n: nat)
    requires t.active && t.periodic && t.interval > 0
    ensures After(t, u, n) == t
    ensures FireCount(t, u, n) == Passed(u, n, t.interval)
  {
    hide Passed;
    PassedStep(u, n, t.interval);
    if n > 0 {
      PeriodicFires(t, u, n - 1);
    }
  }

  /** A one-shot timer fires once, as soon as a multiple of its interval is reached, and is
      inactive from then on. */
  lemma {:induction false} OneShotFires(t: Timer, u: nat, n: nat)
    requires t.active && !t.periodic && t.interval > 0
    ensures var passed := Passed(u, n, t.interval) > 0;
      && FireCount(t, u, n) == (if passed then 1 else 0)
      && After(t, u, n) == t.(active := !passed)
    ensures n >= t.interval ==> FireCount(t, u, n) == 1
  {
    hide Passed;
    PassedStep(u, n, t.interval);
    PeriodicFires(t.(periodic := true), u, n);
    if n > 0 {
      OneShotFires(t, u, n - 1);
    }
    if n >= t.interval { WithinOneInterval(u, n, t.interval); }
  }

  lemma WithinOneInterval(u: nat, n: nat, k: nat)
    requires 0 < k <= n
    ensures Passed(u, n, k) > 0
  {
    var q, r := u / k, u % k;
    var q', r' := (u + n) / k, (u + n) % k;
    assert u + n == k * q' + r' && u == k * q + r;
    if q' <= q {
      Scale(k, q', q);
    }
  }

  lemma {:induction false} InactiveNeverFires(t: Timer, u: nat, n: nat)
    requires !t.active
    ensures FireCount(t, u, n) == 0 && After(t, u, n) == t
  {
    if n > 0 { InactiveNeverFires(t, u, n - 1); }
  }

  // ---------- Runs of the whole table ----------

  ghost predicate Inv(s: State) {
    && |s.timers| <= MAX_TIMERS
    && (forall i :: 0 <= i < |s.timers| ==> s.timers[i].id < s.nextId)
    && (forall i, j :: 0 <= i < j < |s.timers| ==> s.timers[i].id != s.timers[j].id)
  }

  /** A tick divides by the interval of every active timer, and counts up a 64-bit uptime. */
  predicate CanTick(s: State) {
    && s.uptime + 1 < TWO64
    && forall i :: 0 <= i < |s.timers| && s.timers[i].active ==> s.timers[i].interval > 0
  }

  /** A history in which every tick is possible. */
  ghost predicate IsRun(trace: seq<State>, ops: seq<Op>) {
    && |trace| == |ops| + 1 && Inv(trace[0])
    && forall n :: 0 <= n < |ops| ==> (ops[n].Tick? ==> CanTick(trace[n])) && trace[n + 1] == Step(trace[n], ops[n])
  }

  /** Creating a timer leaves ticks possible exactly when it is refused or its interval is not zero. */
  lemma CreateKeepsTicks(s: State, interval: nat, periodic: bool, callback: bool)
    requires CanTick(s)
    ensures CanTick(Step(s, Create(interval, periodic, callback)))
            <==> !callback || |s.timers| >= MAX_TIMERS || interval > 0
  {
    var r := Step(s, Create(interval, periodic, callback));
    if callback && |s.timers| < MAX_TIMERS {
      assert r.timers[|s.timers|] == Timer(s.nextId, interval, periodic, true);
    }
  }

  /** A history from the start after which the next tick would divide by zero. */
  lemma ZeroIntervalStopsTicks() returns (trace: seq<State>, ops: seq<Op>)
    ensures IsRun(trace, ops) && trace[0] == State([], 1, 0)
    ensures ops == [Create(5, true, true), Tick, Create(0, true, true)] && !CanTick(trace[3])
  {
    ops := [Create(5, true, true), Tick, Create(0, true, true)];
    var s0 := State([], 1, 0);
    var s1 := Step(s0, ops[0]);
    var s2 := Step(s1, Tick);
    CreateKeepsTicks(s0, 5, true, true);
    CreateKeepsTicks(s2, 0, true, true);
    trace := [s0, s1, s2, Step(s2, ops[2])];
  }

  lemma {:induction false} RunInv(trace: seq<State>, ops: seq<Op>, n: nat)
    requires IsRun(trace, ops) && n < |trace|
    ensures Inv(trace[n]) && |trace[0].timers| <= |trace[n].timers|
  {
    if n > 0 { RunInv(trace, ops, n - 1); }
  }

  ghost function Ticks(ops: seq<Op>, n: nat): nat
    requires n <= |ops|
  {
    if n == 0 then 0 else Ticks(ops, n - 1) + if ops[n - 1].Tick? then 1 else 0
  }

  /** How often slot `i` fires in the first `n` operations. */
  ghost function Firings(trace: seq<State>, ops: seq<Op>, i: nat, n: nat): nat
    requires n <= |ops| && n <= |trace|
  {
    if n == 0 then 0
    else
      Firings(trace, ops, i, n - 1) +
      var s := trace[n - 1];
      if ops[n - 1].Tick? && i < |s.timers| && Fires(s.timers[i], s.uptime + 1) then 1 else 0
  }

  /** Until it is cancelled, a timer in any run behaves as if it were alone with the ticks. */
  lemma {:induction false} TimerAlone(trace: seq<State>, ops: seq<Op>, i: nat, n: nat)
    requires IsRun(trace, ops) && n <= |ops| && i < |trace[0].timers|
    requires forall m :: 0 <= m < n ==> ops[m] != Cancel(trace[0].timers[i].id)
    ensures var t, u := trace[0].timers[i], trace[0].uptime;
      && trace[n].uptime == u + Ticks(ops, n) && i < |trace[n].timers|
      && trace[n].timers[i] == After(t, u, Ticks(ops, n))
      && Firings(trace, ops, i, n) == FireCount(t, u, Ticks(ops, n))
  {
    hide Step, Inv, Fires, Ticked;
    if n > 0 {
      TimerAlone(trace, ops, i, n - 1);
      RunInv(trace, ops, n - 1);
      AfterKeepsId(trace[0].timers[i], trace[0].uptime, Ticks(ops, n - 1));
      StepOnSlot(trace[n - 1], ops[n - 1], i);
    }
  }

  /** What one operation does to one slot. */
  lemma StepOnSlot(s: State, op: Op, i: nat)
    requires Inv(s) && i < |s.timers| && op != Cancel(s.timers[i].id)
    ensures var r := Step(s, op);
      && i < |r.timers| && r.uptime == s.uptime + (if op.Tick? then 1 else 0)
      && r.timers[i] == if op.Tick? then Ticked(s.timers[i], s.uptime + 1) else s.timers[i]
  {
  }

  lemma {:induction false} AfterKeepsId(t: Timer, u: nat, n: nat)
    ensures After(t, u, n).id == t.id
  {
    if n > 0 { AfterKeepsId(t, u, n - 1); }
  }

  /** In every run, an active periodic timer that is not cancelled fires once for every multiple
      of its interval; a one-shot fires at most once, and once within an interval. */
  lemma TimersInRuns(trace: seq<State>, ops: seq<Op>, i: nat, n: nat)
    requires IsRun(trace, ops) && n <= |ops| && i < |trace[0].timers|
    requires trace[0].timers[i].active && trace[0].timers[i].interval > 0
    requires forall m :: 0 <= m < n ==> ops[m] != Cancel(trace[0].timers[i].id)
    ensures var t, u, k := trace[0].timers[i], trace[0].uptime, trace[0].timers[i].interval;
      var passed := Passed(u, Ticks(ops, n), k);
      && Firings(trace, ops, i, n) == (if t.periodic || passed == 0 then passed else 1)
      && (Ticks(ops, n) >= k ==> Firings(trace, ops, i, n) >= 1)
  {
    hide FireCount, After, Firings, Ticks, Passed;
    var t, u, k := trace[0].timers[i], trace[0].uptime, Ticks(ops, n);
    TimerAlone(trace, ops, i, n);
    PeriodicFires(t.(periodic := true), u, k);
    if k >= t.interval { WithinOneInterval(u, k, t.interval); }
    if t.periodic {
      assert t.(periodic := true) == t;
    } else {
      OneShotFires(t, u, k);
    }
  }

  /** A timer that is not active, cancelled or spent, never fires again in any run. */
  lemma {:induction false} CancelledStaysSilent(trace: seq<State>, ops: seq<Op>, i: nat, n: nat)
    requires IsRun(trace, ops) && n <= |ops| && i < |trace[0].timers| && !trace[0].timers[i].active
    ensures i < |trace[n].timers| && !trace[n].timers[i].active && Firings(trace, ops, i, n) == 0
  {
    if n > 0 { CancelledStaysSilent(trace, ops, i, n - 1); }
  }

  /** Cancelling makes the active timer of that id inactive, whatever slot it is in, and leaves
      the others; without one nothing changes. */
  lemma CancelExact(s: State, id: nat, i: nat)
    requires Inv(s) && i < |s.timers|
    ensures var r := Step(s, Cancel(id));
      && |r.timers| == |s.timers| && r.uptime == s.uptime && r.nextId == s.nextId
      && r.timers[i] == if s.timers[i].id == id then s.timers[i].(active := false) else s.timers[i]
  {
    var k := Find(s.timers, id);
    if s.timers[i].id == id && s.timers[i].active {
      assert k <= i;
    } else if s.timers[i].id == id {
      assert s.timers[i].(active := false) == s.timers[i];
    }
  }

  /** A timer fires after its creation as its interval and kind say, in every history in which
      it is not cancelled. */
  lemma NewTimerFires(s: State, interval: nat, periodic: bool, trace: seq<State>, ops: seq<Op>, n: nat)
    requires Inv(s) && |s.timers| < MAX_TIMERS && interval > 0
    requires IsRun(trace, ops) && n <= |ops| && trace[0] == Step(s, Create(interval, periodic, true))
    requires forall m :: 0 <= m < n ==> ops[m] != Cancel(s.nextId)
    ensures var passed := Passed(s.uptime, Ticks(ops, n), interval);
      Firings(trace, ops, |s.timers|, n) == (if periodic || passed == 0 then passed else 1)
  {
    var t := trace[0].timers[|s.timers|];
    assert t == Timer(s.nextId, interval, periodic, true);
    TimersInRuns(trace, ops, |s.timers|, n);
  }

  /** After its cancellation a timer never fires. */
  lemma CancelSilences(s: State, i: nat, trace: seq<State>, ops: seq<Op>, n: nat)
    requires Inv(s) && i < |s.timers| && IsRun(trace, ops) && n <= |ops|
    requires trace[0] == Step(s, Cancel(s.timers[i].id))
    ensures Firings(trace, ops, i, n) == 0
  {
    CancelExact(s, s.timers[i].id, i);
    CancelledStaysSilent(trace, ops, i, n);
  }

  /** Slots are never given back: once 64 timers exist, no run makes room for another. */
  lemma FullForever(trace: seq<State>, ops: seq<Op>, n: nat, op: Op)
    requires IsRun(trace, ops) && n < |trace| && |trace[0].timers| == 64 && op.Create?
    ensures Step(trace[n], op) == trace[n]
  {
    RunInv(trace, ops, n);
  }

  // ---------- The table in use ----------

  class TimerTable {
    const timers: array<Timer>
    var count: nat
    var nextId: nat
    var uptime: nat

    ghost predicate Valid()
      reads this
    {
      timers.Length == MAX_TIMERS && count <= MAX_TIMERS
    }

    ghost function View(): State
      requires Valid()
      reads this, timers
    {
      State(timers[..count], nextId, uptime)
    }

    constructor ()
      ensures Valid() && fresh(timers) && View() == State([], 1, 0)
    {
      timers := new Timer[MAX_TIMERS](_ => Timer(0, 0, false, false));
      count, nextId, uptime := 0, 1, 0;
    }

    method CreateTimer(interval: nat, callback: bool, periodic: bool) returns (id: nat)
      requires Valid()
      modifies this, timers
      ensures Valid() && View() == Step(old(View()), Create(interval, periodic, callback))
      ensures id == if callback && old(count) < MAX_TIMERS then old(nextId) else 0
    {
      if !callback || count >= MAX_TIMERS { return 0; }
      id := nextId;
      timers[count] := Timer(id, interval, periodic, true);
      nextId := nextId + 1;
      count := count + 1;
    }

    method CancelTimer(id: nat) returns (found: bool)
      requires Valid()
      modifies timers
      ensures Valid() && View() == Step(old(View()), Cancel(id))
      ensures found <==> Find(old(timers[..count]), id) < count
    {
      for i := 0 to count
        invariant timers[..] == old(timers[..])
        invariant Find(timers[..count], id) == Find(timers[..count], id, i)
      {
        if timers[i].id == id && timers[i].active {
          timers[i] := timers[i].(active := false);
          return true;
        }
      }
      return false;
    }

    /** One tick; the result lists the slots whose callbacks run, in order. */
    method RunTick() returns (fired: seq<nat>)
      requires Valid() && CanTick(View())
      modifies this, timers
      ensures Valid() && View() == Step(old(View()), Tick)
      ensures forall i :: i in fired <==> 0 <= i < count && Fires(old(timers[i]), old(uptime) + 1)
      ensures forall a, b :: 0 <= a < b < |fired| ==> fired[a] < fired[b]
    {
      assert forall i :: 0 <= i < count ==> View().timers[i] == timers[i];
      uptime := uptime + 1;
      fired := [];
      for i := 0 to count
        invariant Valid() && uptime == old(uptime) + 1 && count == old(count) && nextId == old(nextId)
        invariant forall j :: 0 <= j < count ==>
                    timers[j] == if j < i then Ticked(old(timers[j]), uptime) else old(timers[j])
        invariant forall j :: j in fired <==> 0 <= j < i && Fires(old(timers[j]), uptime)
        invariant forall a, b :: 0 <= a < b < |fired| ==> fired[a] < fired[b]
      {
        if timers[i].active && uptime % timers[i].interval == 0 {
          assert forall a :: 0 <= a < |fired| ==> fired[a] in fired;
          fired := fired + [i];
          if !timers[i].periodic { timers[i] := timers[i].(active := false); }
        }
      }
    }
  }
}
