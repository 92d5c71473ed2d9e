/** The pipes of kernel/ipc/pipe.c: byte rings with head and tail, moved byte by byte. */
module PipeRings {
  import opened Machine
  import opened Bytes
  import opened Ring
  import opened PipeModel

  const BUF_SIZE: nat := 4096

  class Pipes {
    const buf: array2<byte>
    const head: array<nat>
    const tail: array<nat>
    const readOpen: array<bool>
    const writeOpen: array<bool>
    const inUse: array<bool>
    ghost var table: Table

    ghost predicate Sizes() {
      && buf.Length0 == MAX_PIPES && buf.Length1 == BUF_SIZE
      && head.Length == tail.Length == readOpen.Length == writeOpen.Length == inUse.Length == MAX_PIPES
      && head != tail && readOpen != writeOpen && readOpen != inUse && writeOpen != inUse
    }

    /** Row `i` holds the bytes `q`, oldest first. */
    ghost predicate Holds(i: nat, q: seq<byte>)
      requires Sizes() && i < MAX_PIPES
      reads buf, head, tail
    {
      && tail[i] < BUF_SIZE && |q| <= CAPACITY && head[i] == Slot(BUF_SIZE, tail[i], |q|)
      && forall k :: 0 <= k < |q| ==> buf[i, Slot(BUF_SIZE, tail[i], k)] == q[k]
    }

    ghost predicate OtherRows(i: nat)
      requires Sizes()
      reads this, buf, head, tail
    {
      forall j :: 0 <= j < MAX_PIPES && j != i ==> Holds(j, table[j].queue)
    }

    ghost predicate Valid()
      reads this, buf, head, tail, readOpen, writeOpen, inUse
    {
      && Sizes()
      && (forall i :: 0 <= i < MAX_PIPES ==> Holds(i, table[i].queue))
      && (forall i :: 0 <= i < MAX_PIPES ==>
            readOpen[i] == table[i].readOpen && writeOpen[i] == table[i].writeOpen && inUse[i] == table[i].inUse)
    }

    constructor ()
      ensures Valid() && forall i :: 0 <= i < MAX_PIPES ==> table[i] == Pipe([], false, false, false)
      ensures fresh(buf) && fresh(head) && fresh(tail) && fresh(readOpen) && fresh(writeOpen) && fresh(inUse)
    {
      buf := new byte[MAX_PIPES, BUF_SIZE]((_, _) => 0);
      head := new nat[MAX_PIPES](_ => 0);
      tail := new nat[MAX_PIPES](_ => 0);
      readOpen := new bool[MAX_PIPES](_ => false);
      writeOpen := new bool[MAX_PIPES](_ => false);
      inUse := new bool[MAX_PIPES](_ => false);
      table := seq(MAX_PIPES, _ => Pipe([], false, false, false));
    }

    method ClearRow(i: nat)
      requires Sizes() && i < MAX_PIPES && OtherRows(i)
      modifies buf, head, tail
      ensures Holds(i, []) && OtherRows(i)
    {
      assert Slot(BUF_SIZE, 0, 0) == 0;
      hide Slot;
      forall j | 0 <= j < BUF_SIZE { buf[i, j] := 0; }
      head[i], tail[i] := 0, 0;
    }

    method FirstUnused() returns (k: nat)
      requires Valid()
      ensures k == FirstFree(table)
    {
      hide Holds;
      k := 0;
      while k < MAX_PIPES && inUse[k]
        invariant k <= MAX_PIPES && FirstFree(table) == FirstFree(table, k)
      {
        k := k + 1;
      }
    }

    /** Slot choice of `pipe_create`. */
    method CreatePipe() returns (id: int)
      requires Valid()
      modifies this, buf, head, tail, readOpen, writeOpen, inUse
      ensures Valid() && (table, Result(id, [])) == Step(old(table), Create)
    {
      hide Holds, FirstFree;
      var k := FirstUnused();
      if k == MAX_PIPES { return -1; }
      ClearRow(k);
      inUse[k], readOpen[k], writeOpen[k] := true, true, true;
      table := table[k := Pipe([], true, true, true)];
      return k;
    }

    method WritePipe(id: int, data: seq<byte>) returns (ret: int)
      requires Valid()
      modifies this, buf, head
      ensures Valid() && (table, Result(ret, [])) == Step(old(table), Write(id, data))
    {
      if id < 0 || id >= MAX_PIPES || !inUse[id] { return -1; }
      if !writeOpen[id] { return -1; }
      var n := Fill(id, data, table[id].queue);
      table := table[id := table[id].(queue := table[id].queue + data[..n])];
      return n;
    }

    /** One slot stays empty: the ring is full when the next head would be the tail. */
    lemma FullExactly(id: nat, q: seq<byte>)
      requires Sizes() && id < MAX_PIPES && Holds(id, q)
      ensures |q| <= CAPACITY && head[id] < BUF_SIZE && (Slot(BUF_SIZE, head[id], 1) == tail[id] <==> |q| == CAPACITY)
    {
      hide Slot;
      Wrapped(BUF_SIZE, tail[id], |q| + 1);
      OneAfter(BUF_SIZE, tail[id], |q|);
    }

    lemma EmptyExactly(id: nat, q: seq<byte>)
      requires Sizes() && id < MAX_PIPES && Holds(id, q)
      ensures tail[id] < BUF_SIZE && (tail[id] == head[id] <==> q == []) && (q != [] ==> buf[id, tail[id]] == q[0])
    {
      hide Slot;
      Wrapped(BUF_SIZE, tail[id], |q|);
      Wrapped(BUF_SIZE, tail[id], 0);
    }

    method Fill(id: nat, data: seq<byte>, ghost q: seq<byte>) returns (written: nat)
      requires Sizes() && id < MAX_PIPES && Holds(id, q) && OtherRows(id)
      modifies buf, head
      ensures written == Min(|data|, CAPACITY - |q|)
      ensures Holds(id, q + data[..written]) && OtherRows(id)
    {
      hide Slot, Holds, OtherRows;
      assert q + data[..0] == q;
      FullExactly(id, q);
      written := 0;
      while written < |data|
        invariant written <= |data| && |q| + written <= CAPACITY
        invariant Holds(id, q + data[..written]) && OtherRows(id)
      {
        FullExactly(id, q + data[..written]);
        var next := Slot(BUF_SIZE, head[id], 1);
        if next == tail[id] { break; }
        Put(id, data[written], next, q + data[..written]);
        written := written + 1;
        assert q + data[..written - 1] + [data[written - 1]] == q + data[..written];
      }
    }

    method Put(id: nat, b: byte, next: nat, ghost q: seq<byte>)
      requires Sizes() && id < MAX_PIPES && Holds(id, q) && OtherRows(id)
      requires next == Slot(BUF_SIZE, head[id], 1) && |q| < CAPACITY
      modifies buf, head
      ensures Holds(id, q + [b]) && OtherRows(id)
    {
      hide Slot;
      Distinct(BUF_SIZE, tail[id]);
      OneAfter(BUF_SIZE, tail[id], |q|);
      buf[id, head[id]] := b;
      head[id] := next;
    }

    method ReadPipe(id: int, max: nat, out: array<byte>) returns (ret: int)
      requires Valid() && out.Length >= max
      modifies this, tail, out
      ensures ret <= max && (ret >= 0 ==> out[ret..] == old(out[ret..]))
      ensures Valid() && (table, Result(ret, if ret > 0 then out[..ret] else [])) == Step(old(table), Read(id, max))
    {
      if id < 0 || id >= MAX_PIPES || !inUse[id] { return -1; }
      if !readOpen[id] { return -1; }
      var n := Drain(id, max, out, table[id].queue);
      table := table[id := table[id].(queue := table[id].queue[n..])];
      return n;
    }

    method Drain(id: nat, max: nat, out: array<byte>, ghost q: seq<byte>) returns (count: nat)
      requires Sizes() && id < MAX_PIPES && Holds(id, q) && OtherRows(id) && out.Length >= max
      modifies tail, out
      ensures count == Min(max, |q|)
      ensures Holds(id, q[count..]) && OtherRows(id)
      ensures out[..count] == q[..count] && out[count..] == old(out[count..])
    {
      hide Slot, Holds, OtherRows;
      count := 0;
      while count < max && tail[id] != head[id]
        invariant count <= max && count <= |q|
        invariant Holds(id, q[count..]) && OtherRows(id)
        invariant out[..count] == q[..count] && out[count..] == old(out[count..])
      {
        EmptyExactly(id, q[count..]);
        out[count] := buf[id, tail[id]];
        Advance(id, q[count..]);
        count := count + 1;
        assert q[count - 1..][1..] == q[count..];
        assert out[..count] == q[..count];
      }
      EmptyExactly(id, q[count..]);
    }

    method Advance(id: nat, ghost q: seq<byte>)
      requires Sizes() && id < MAX_PIPES && Holds(id, q) && OtherRows(id) && q != []
      modifies tail
      ensures Holds(id, q[1..]) && OtherRows(id)
    {
      hide Slot;
      Shifted(BUF_SIZE, tail[id]);
      tail[id] := Slot(BUF_SIZE, tail[id], 1);
    }

    method ClosePipe(id: int, isWrite: bool) returns (ret: int)
      requires Valid()
      modifies this, readOpen, writeOpen, inUse
      ensures Valid() && (table, Result(ret, [])) == Step(old(table), Close(id, isWrite))
    {
      if id < 0 || id >= MAX_PIPES || !inUse[id] { return -1; }
      if isWrite { writeOpen[id] := false; } else { readOpen[id] := false; }
      if !readOpen[id] && !writeOpen[id] { inUse[id] := false; }
      table := Step(table, Close(id, isWrite)).0;
      return 0;
    }
  }
}
