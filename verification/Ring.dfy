/** Indices of ring buffers, as the scheduler and the pipes step through them. */
module Ring {

  /** The slot `i` places after `start`. */
  function Slot(size: nat, start: nat, i: nat): (k: nat)
    requires size > 0
    ensures k < size
  {
    (start + i) % size
  }

  /** Within one turn a slot is a sum or wraps once. */
  lemma Wrapped(size: nat, start: nat, i: nat)
    requires start < size && i <= size
    ensures Slot(size, start, i) == if start + i < size then start + i else start + i - size
  {
    if start + i >= size {
      Remainder(size, start + i - size);
    }
  }

  lemma Remainder(size: nat, r: nat)
    requires r < size
    ensures (size + r) % size == r
  {
    var q := (size + r) / size;
    assert size + r == size * q + (size + r) % size;
    Multiples(size, q, 0);
    Multiples(size, 2, q);
  }

  lemma Multiples(size: nat, a: int, b: int)
    ensures a <= b ==> size * a <= size * b
  {
  }

  lemma OneAfter(size: nat, start: nat, i: nat)
    requires start < size && i < size
    ensures Slot(size, Slot(size, start, 1), i) == Slot(size, start, i + 1)
    ensures Slot(size, Slot(size, start, i), 1) == Slot(size, start, i + 1)
  {
    hide Slot;
    Wrapped(size, start, 1);
    Wrapped(size, start, i);
    Wrapped(size, start, i + 1);
    Wrapped(size, Slot(size, start, 1), i);
    Wrapped(size, Slot(size, start, i), 1);
  }

  /** One turn visits every slot once. */
  lemma Distinct(size: nat, start: nat)
    requires start < size
    ensures forall i: nat, j: nat :: i < size && j < size && i != j ==> Slot(size, start, i) != Slot(size, start, j)
  {
    hide Slot;
    forall i: nat, j: nat | i < size && j < size && i != j ensures Slot(size, start, i) != Slot(size, start, j) {
      Wrapped(size, start, i);
      Wrapped(size, start, j);
    }
  }

  /** Starting one slot later shifts the indices by one. */
  lemma Shifted(size: nat, start: nat)
    requires start < size
    ensures Slot(size, start, 0) == start
    ensures forall i: nat :: i < size ==> Slot(size, Slot(size, start, 1), i) == Slot(size, start, i + 1)
  {
    hide Slot;
    Wrapped(size, start, 0);
    forall i: nat | i < size ensures Slot(size, Slot(size, start, 1), i) == Slot(size, start, i + 1) {
      OneAfter(size, start, i);
    }
  }

  lemma StepBack(size: nat, start: nat, n: nat)
    requires start < size && 0 < n <= size
    ensures Slot(size, Slot(size, start, n), size - 1) == Slot(size, start, n - 1)
  {
    hide Slot;
    Wrapped(size, start, n);
    Wrapped(size, start, n - 1);
    Wrapped(size, Slot(size, start, n), size - 1);
  }
}
