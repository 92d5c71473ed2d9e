/** The pipe table as a state machine over byte sequences. */
module PipeModel {
  import opened Machine
  import opened Bytes

  const MAX_PIPES: nat := 64
  /** One slot of the 4096-byte ring always stays empty. */
  const CAPACITY: nat := 4095

  datatype Pipe = Pipe(queue: seq<byte>, readOpen: bool, writeOpen: bool, inUse: bool)

  type Table = t: seq<Pipe> | |t| == MAX_PIPES witness seq(MAX_PIPES, _ => Pipe([], false, false, false))

  datatype Op = Create | Write(id: int, data: seq<byte>) | Read(id: int, max: nat) | Close(id: int, isWrite: bool)

  datatype Result = Result(ret: int, bytes: seq<byte>)

  predicate Open(t: Table, id: int) { 0 <= id < MAX_PIPES && t[id].inUse }

  function FirstFree(t: Table, i: nat := 0): (k: nat)
    requires i <= MAX_PIPES
    ensures i <= k <= MAX_PIPES && (k < MAX_PIPES ==> !t[k].inUse) && forall j :: i <= j < k ==> t[j].inUse
    decreases MAX_PIPES - i
  {
    if i == MAX_PIPES || !t[i].inUse then i else FirstFree(t, i + 1)
  }

  function Accepts(p: Pipe, data: seq<byte>): (n: nat)
    ensures n <= |data|
  {
    if |p.queue| <= CAPACITY then Min(|data|, CAPACITY - |p.queue|) else 0
  }

  function Step(t: Table, op: Op): (Table, Result) {
    match op
    case Create =>
      var k := FirstFree(t);
      if k == MAX_PIPES then (t, Result(-1, [])) else (t[k := Pipe([], true, true, true)], Result(k, []))
    case Write(id, data) =>
      if !Open(t, id) || !t[id].writeOpen then (t, Result(-1, []))
      else
        var n := Accepts(t[id], data);
        (t[id := t[id].(queue := t[id].queue + data[..n])], Result(n, []))
    case Read(id, max) =>
      if !Open(t, id) || !t[id].readOpen then (t, Result(-1, []))
      else
        var n := Min(max, |t[id].queue|);
        (t[id := t[id].(queue := t[id].queue[n..])], Result(n, t[id].queue[..n]))
    case Close(id, isWrite) =>
      if !Open(t, id) then (t, Result(-1, []))
      else
        var p := if isWrite then t[id].(writeOpen := false) else t[id].(readOpen := false);
        (t[id := p.(inUse := p.readOpen || p.writeOpen)], Result(0, []))
  }

  // ---------- Runs ----------

  ghost predicate IsRun(trace: seq<Table>, ops: seq<Op>) {
    && |trace| == |ops| + 1 && (forall i :: 0 <= i < MAX_PIPES ==> trace[0][i] == Pipe([], false, false, false))
    && forall n :: 0 <= n < |ops| ==> trace[n + 1] == Step(trace[n], ops[n]).0
  }

  /** Step `n` starts a new life of slot `i`. */
  ghost predicate Creates(trace: seq<Table>, ops: seq<Op>, i: nat, n: nat)
    requires n < |ops| && n < |trace|
  {
    ops[n].Create? && Step(trace[n], ops[n]).1.ret == i
  }

  /** The bytes a step adds to pipe `i`. */
  ghost function Added(t: Table, op: Op, i: nat): seq<byte> {
    var r := Step(t, op).1;
    if op.Write? && op.id == i && 0 <= r.ret <= |op.data| then op.data[..r.ret] else []
  }

  /** The bytes a step hands out from pipe `i`. */
  ghost function Taken(t: Table, op: Op, i: nat): seq<byte> {
    if op.Read? && op.id == i then Step(t, op).1.bytes else []
  }

  /** The bytes accepted by slot `i` since it was last created, after `n` steps. */
  ghost function Accepted(trace: seq<Table>, ops: seq<Op>, i: nat, n: nat): seq<byte>
    requires n <= |ops| && n <= |trace|
  {
    if n == 0 || Creates(trace, ops, i, n - 1) then []
    else Accepted(trace, ops, i, n - 1) + Added(trace[n - 1], ops[n - 1], i)
  }

  /** The bytes handed to readers of slot `i` since it was last created. */
  ghost function Delivered(trace: seq<Table>, ops: seq<Op>, i: nat, n: nat): seq<byte>
    requires n <= |ops| && n <= |trace|
  {
    if n == 0 || Creates(trace, ops, i, n - 1) then []
    else Delivered(trace, ops, i, n - 1) + Taken(trace[n - 1], ops[n - 1], i)
  }

  /** A step on one pipe leaves all others alone. */
  lemma StepIsLocal(t: Table, op: Op, i: nat)
    requires i < MAX_PIPES
    requires !op.Create? ==> op.id != i
    requires op.Create? ==> Step(t, op).1.ret != i
    ensures Step(t, op).0[i] == t[i]
  {
  }

  /** In every interleaving over all pipes: what was read from a pipe in its present life,
      followed by what it still holds, is what was written to it; and it never overfills. */
  lemma {:induction false} NothingLostOrReordered(trace: seq<Table>, ops: seq<Op>, i: nat, n: nat)
    requires IsRun(trace, ops) && i < MAX_PIPES && n < |trace|
    ensures Delivered(trace, ops, i, n) + trace[n][i].queue == Accepted(trace, ops, i, n)
    ensures |trace[n][i].queue| <= CAPACITY
  {
    hide Step, Added, Taken;
    if n > 0 {
      NothingLostOrReordered(trace, ops, i, n - 1);
      StepKeepsBytes(trace[n - 1], ops[n - 1], i);
      if !Creates(trace, ops, i, n - 1) {
        Regroup(Delivered(trace, ops, i, n - 1), trace[n - 1][i].queue, Added(trace[n - 1], ops[n - 1], i),
                Taken(trace[n - 1], ops[n - 1], i), trace[n][i].queue);
      }
    }
  }

  lemma Regroup(d: seq<byte>, q: seq<byte>, added: seq<byte>, taken: seq<byte>, r: seq<byte>)
    requires q + added == taken + r
    ensures (d + taken) + r == (d + q) + added
  {
    assert (d + taken) + r == d + (taken + r);
    assert (d + q) + added == d + (q + added);
  }

  /** What one step does to the bytes of pipe `i`, unless it starts a new life for the slot. */
  lemma StepKeepsBytes(t: Table, op: Op, i: nat)
    requires i < MAX_PIPES && |t[i].queue| <= CAPACITY
    ensures var (u, r) := Step(t, op);
      && |u[i].queue| <= CAPACITY
      && (op.Create? && r.ret == i ==> u[i].queue == [])
      && (!(op.Create? && r.ret == i) ==> t[i].queue + Added(t, op, i) == Taken(t, op, i) + u[i].queue)
  {
    if op.Read? && op.id == i {
      var k := |Step(t, op).1.bytes|;
      assert t[i].queue == t[i].queue[..k] + t[i].queue[k..];
    }
  }

  // ---------- Lives of a slot ----------

  ghost predicate EverCreated(trace: seq<Table>, ops: seq<Op>, i: nat, n: nat)
    requires n <= |ops| && n <= |trace|
  {
    n > 0 && (Creates(trace, ops, i, n - 1) || EverCreated(trace, ops, i, n - 1))
  }

  /** That end of slot `i` was closed since the slot was last created. */
  ghost predicate ClosedSince(trace: seq<Table>, ops: seq<Op>, i: nat, n: nat, isWrite: bool)
    requires n <= |ops| && n <= |trace|
  {
    n > 0 && !Creates(trace, ops, i, n - 1)
    && (ops[n - 1] == Close(i, isWrite) || ClosedSince(trace, ops, i, n - 1, isWrite))
  }

  /** The flags of a slot tell its history: an end is open exactly when the slot was created
      and that end not closed since, and the slot is in use while one end is open. */
  lemma {:induction false} FlagsAreHistory(trace: seq<Table>, ops: seq<Op>, i: nat, n: nat)
    requires IsRun(trace, ops) && i < MAX_PIPES && n < |trace|
    ensures trace[n][i].readOpen <==> EverCreated(trace, ops, i, n) && !ClosedSince(trace, ops, i, n, false)
    ensures trace[n][i].writeOpen <==> EverCreated(trace, ops, i, n) && !ClosedSince(trace, ops, i, n, true)
    ensures trace[n][i].inUse <==> trace[n][i].readOpen || trace[n][i].writeOpen
  {
    if n > 0 {
      FlagsAreHistory(trace, ops, i, n - 1);
    }
  }

  /** Slot `i` was created and one of its ends is still open. */
  ghost predicate Alive(trace: seq<Table>, ops: seq<Op>, i: nat, n: nat)
    requires n <= |ops| && n <= |trace|
  {
    EverCreated(trace, ops, i, n) && !(ClosedSince(trace, ops, i, n, false) && ClosedSince(trace, ops, i, n, true))
  }

  /** A slot is given out only when it was never created or both ends of its last pipe were
      closed; it starts empty; and creation fails exactly when every slot is alive. */
  lemma SlotReuse(trace: seq<Table>, ops: seq<Op>, n: nat)
    requires IsRun(trace, ops) && n < |ops| && ops[n].Create?
    ensures Step(trace[n], ops[n]).1.ret == -1 <==> forall i: nat :: i < 64 ==> Alive(trace, ops, i, n)
    ensures var r := Step(trace[n], ops[n]).1.ret;
      r == -1 || (0 <= r < 64 && trace[n + 1][r].queue == [] && !Alive(trace, ops, r, n))
  {
    forall i: nat | i < MAX_PIPES ensures trace[n][i].inUse <==> Alive(trace, ops, i, n) {
      FlagsAreHistory(trace, ops, i, n);
    }
    hide Alive;
  }

  // ---------- What calls return ----------

  /** In every run a write is refused unless the slot's write end is open, and otherwise takes
      as many bytes as 4095 less those accepted and not yet read leave room for. */
  lemma WriteExact(trace: seq<Table>, ops: seq<Op>, n: nat)
    requires IsRun(trace, ops) && n < |ops| && ops[n].Write?
    ensures var ret, id, data := Step(trace[n], ops[n]).1.ret, ops[n].id, ops[n].data;
      if 0 <= id < MAX_PIPES && EverCreated(trace, ops, id, n) && !ClosedSince(trace, ops, id, n, true) then
        var room := 4095 - (|Accepted(trace, ops, id, n)| - |Delivered(trace, ops, id, n)|);
        room >= 0 && ret == if |data| < room then |data| else room
      else ret == -1
  {
    hide EverCreated, ClosedSince, Accepted, Delivered;
    var id := ops[n].id;
    if 0 <= id < MAX_PIPES {
      FlagsAreHistory(trace, ops, id, n);
      NothingLostOrReordered(trace, ops, id, n);
    }
  }

  /** A read is refused unless the read end is open, and otherwise returns the next bytes in
      the order they were accepted, as many as there are up to the number asked for. */
  lemma ReadExact(trace: seq<Table>, ops: seq<Op>, n: nat)
    requires IsRun(trace, ops) && n < |ops| && ops[n].Read?
    ensures var r, id, max := Step(trace[n], ops[n]).1, ops[n].id, ops[n].max;
      if 0 <= id < MAX_PIPES && EverCreated(trace, ops, id, n) && !ClosedSince(trace, ops, id, n, false) then
        var a, d := Accepted(trace, ops, id, n), |Delivered(trace, ops, id, n)|;
        d <= |a| && r.ret == Min(max, |a| - d) && r.bytes == a[d..d + r.ret]
      else r.ret == -1
  {
    hide EverCreated, ClosedSince, Accepted, Delivered;
    var id := ops[n].id;
    if 0 <= id < MAX_PIPES {
      FlagsAreHistory(trace, ops, id, n);
      NothingLostOrReordered(trace, ops, id, n);
    }
  }
}
