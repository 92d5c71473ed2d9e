/** The heap of kernel/mm/memory.c in memory: a doubly linked list of 40-byte
    headers stored in the same bytes as the payloads, relinked in place. */
module KernelHeapMemory {
  import opened Machine
  import opened Bytes
  import opened HeapModel

  const HEAP_MAGIC: nat := 0xDEADBEEF

  datatype Header = Header(magic: nat, size: nat, free: bool, next: nat, prev: nat)

  datatype Field = Magic | Size | Free | Next | Prev {
    function Offset(): nat {
      match this
      case Magic => 0
      case Size => 8
      case Free => 16
      case Next => 24
      case Prev => 32
    }
    function Width(): nat {
      match this
      case Magic => 4
      case Free => 1
      case _ => 8
    }
  }

  function HeaderAt(m: seq<byte>, a: nat): Header
    requires a + HEADER <= |m|
  {
    Header(Load(m, a, 4), Load(m, a + 8, 8), Load(m, a + 16, 1) != 0, Load(m, a + 24, 8), Load(m, a + 32, 8))
  }

  function With(h: Header, f: Field, v: nat): Header {
    match f
    case Magic => h.(magic := v)
    case Size => h.(size := v)
    case Free => h.(free := v != 0)
    case Next => h.(next := v)
    case Prev => h.(prev := v)
  }

  lemma HeaderFrame(m: seq<byte>, m': seq<byte>, a: nat)
    requires |m| == |m'| && a + HEADER <= |m|
    requires forall x :: a <= x < a + HEADER ==> m[x] == m'[x]
    ensures HeaderAt(m, a) == HeaderAt(m', a)
  {
    LoadFrame(m, m', a, 4);
    LoadFrame(m, m', a + 8, 8);
    LoadFrame(m, m', a + 16, 1);
    LoadFrame(m, m', a + 24, 8);
    LoadFrame(m, m', a + 32, 8);
  }

  /** Storing one field changes that field of that header and no other. */
  lemma FieldStored(m: seq<byte>, a: nat, f: Field, v: nat)
    requires a + HEADER <= |m| && v < Pow256(f.Width())
    ensures HeaderAt(Put(m, a + f.Offset(), LittleEndian(v, f.Width())), a) == With(HeaderAt(m, a), f, v)
  {
    var m' := Put(m, a + f.Offset(), LittleEndian(v, f.Width()));
    LoadAfterPut(m, a + f.Offset(), v, f.Width());
    if f != Magic { LoadFrame(m, m', a, 4); }
    if f != Size { LoadFrame(m, m', a + 8, 8); }
    if f != Field.Free { LoadFrame(m, m', a + 16, 1); }
    if f != Next { LoadFrame(m, m', a + 24, 8); }
    if f != Prev { LoadFrame(m, m', a + 32, 8); }
  }

  /** The bytes of a header: magic number, padding, size, flag, padding and the two links. */
  function HeaderBytes(h: Header, pad: seq<byte>, rest: seq<byte>): (s: seq<byte>)
    requires |pad| == 4 && |rest| == 7
    ensures |s| == HEADER
  {
    LittleEndian(h.magic, 4) + pad + LittleEndian(h.size, 8) + [if h.free then 1 else 0] + rest
    + LittleEndian(h.next, 8) + LittleEndian(h.prev, 8)
  }

  /** The layout that the C structure has, wherever it stands in memory. */
  lemma HeaderReadBack(pre: seq<byte>, h: Header, pad: seq<byte>, rest: seq<byte>, post: seq<byte>)
    requires |pad| == 4 && |rest| == 7 && Fits(h)
    ensures HeaderAt(pre + HeaderBytes(h, pad, rest) + post, |pre|) == h
  {
    Widths();
    var m, a := pre + HeaderBytes(h, pad, rest) + post, |pre|;
    var flag := if h.free then 1 else 0;
    assert m[a..a + 4] == LittleEndian(h.magic, 4);
    assert m[a + 8..a + 16] == LittleEndian(h.size, 8);
    assert m[a + 16..a + 17] == [flag] == LittleEndian(flag, 1);
    assert m[a + 24..a + 32] == LittleEndian(h.next, 8);
    assert m[a + 32..a + 40] == LittleEndian(h.prev, 8);
    hide LittleEndian, HeaderBytes, Load, Pow256;
    LoadOf(m, a, h.magic, 4);
    LoadOf(m, a + 8, h.size, 8);
    LoadOf(m, a + 16, flag, 1);
    LoadOf(m, a + 24, h.next, 8);
    LoadOf(m, a + 32, h.prev, 8);
  }

  lemma Widths()
    ensures Pow256(1) == 256 && Pow256(4) == TWO32 && Pow256(8) == TWO64
  {
    assert Pow256(2) == 256 * Pow256(1);
    assert Pow256(4) == 256 * Pow256(3) == 256 * (256 * Pow256(2));
    assert Pow256(6) == 256 * Pow256(5) == 256 * (256 * Pow256(4));
    assert Pow256(8) == 256 * Pow256(7) == 256 * (256 * Pow256(6));
  }

  predicate Fits(h: Header) {
    h.magic < TWO32 && h.size < TWO64 && h.next < TWO64 && h.prev < TWO64
  }

  lemma HeaderFits(m: seq<byte>, a: nat)
    requires a + HEADER <= |m|
    ensures Fits(HeaderAt(m, a))
  {
    Widths();
    ValueBound(m[a..a + 4]);
    ValueBound(m[a + 8..a + 16]);
    ValueBound(m[a + 24..a + 32]);
    ValueBound(m[a + 32..a + 40]);
  }

  /** The pointer to block `i`, or NULL past either end of the list. */
  function Ptr(base: nat, bs: seq<Block>, i: int): nat {
    if 0 <= i < |bs| then base + bs[i].off else 0
  }

  /** Block `i`'s header holds its size and state, and its links mirror its neighbours. */
  ghost predicate Linked(base: nat, bs: seq<Block>, headers: map<nat, Header>, i: nat)
    requires i < |bs|
  {
    && bs[i].off in headers
    && headers[bs[i].off] ==
         Header(HEAP_MAGIC, bs[i].size, bs[i].free, Ptr(base, bs, i + 1), Ptr(base, bs, i - 1))
  }

  ghost predicate Encodes(base: nat, bs: seq<Block>, headers: map<nat, Header>) {
    forall i :: 0 <= i < |bs| ==> Linked(base, bs, headers, i)
  }

  /** `headers` is what the bytes say at those offsets. */
  ghost predicate Decodes(m: seq<byte>, headers: map<nat, Header>) {
    && |m| == HEAP_SIZE
    && (forall a :: a in headers ==> a + HEADER <= HEAP_SIZE)
    && (forall a {:trigger HeaderAt(m, a)} :: a in headers ==> HeaderAt(m, a) == headers[a])
  }

  ghost predicate HeaderSet(before: map<nat, Header>, after: map<nat, Header>, a: nat, h: Header) {
    && a in after && after[a] == h
    && forall b :: b in before && (b + HEADER <= a || a + HEADER <= b) ==> b in after && after[b] == before[b]
  }

  ghost predicate PrevSet(base: nat, before: map<nat, Header>, after: map<nat, Header>, p: nat, v: nat) {
    if p == 0 then after == before
    else p >= base && p - base in before && HeaderSet(before, after, p - base, before[p - base].(prev := v))
  }

  /** One field of the header at `a` was stored: headers that do not overlap it are as before. */
  ghost predicate FieldSet(before: map<nat, Header>, after: map<nat, Header>, a: nat, f: Field, v: nat) {
    && a in before && a in after && after[a] == With(before[a], f, v)
    && forall b :: b in before && (b + HEADER <= a || a + HEADER <= b) ==> b in after && after[b] == before[b]
  }

  /** Every byte of every live payload is the same in both memories. */
  ghost predicate PayloadsKept(bs: seq<Block>, m: seq<byte>, m': seq<byte>) {
    && |m| == |m'|
    && forall b, x :: b in bs && !b.free && b.off + HEADER <= x < b.End() && x < |m| ==> m'[x] == m[x]
  }

  ghost predicate Zeroed(m: seq<byte>, a: nat, n: nat) {
    a + n <= |m| && forall x :: a <= x < a + n ==> m[x] == 0
  }

  /** A header at offset `a` shares no byte with a live payload. */
  ghost predicate Clear(bs: seq<Block>, a: nat) {
    forall b :: b in bs && !b.free ==> a <= b.off || b.End() <= a
  }

  lemma Apart(bs: seq<Block>, i: nat, j: nat)
    requires Tiled(bs) && i < |bs| && j < |bs|
    ensures i < j ==> bs[i].End() <= bs[j].off
    ensures j < i ==> bs[j].End() <= bs[i].off
    ensures bs[i].End() <= HEAP_SIZE
  {
    if i < j { Ordered(bs, i, j); }
    if j < i { Ordered(bs, j, i); }
    Inside(bs, i);
  }

  /** No block's header lies in another block's payload. */
  lemma HeadersClear(bs: seq<Block>, k: nat)
    requires Tiled(bs) && k < |bs|
    ensures Clear(bs, bs[k].off)
  {
    forall b | b in bs && !b.free ensures bs[k].off <= b.off || b.End() <= bs[k].off {
      var i :| 0 <= i < |bs| && bs[i] == b;
      Apart(bs, i, k);
    }
  }

  /** A header inside the free block `k` overlaps no live payload. */
  lemma RoomInside(bs: seq<Block>, k: nat, rest: nat)
    requires Tiled(bs) && k < |bs| && bs[k].free
    requires bs[k].off + HEADER <= rest && rest + HEADER <= bs[k].End()
    ensures Clear(bs, rest) && rest + HEADER <= HEAP_SIZE
  {
    forall b | b in bs && !b.free ensures rest <= b.off || b.End() <= rest {
      var i :| 0 <= i < |bs| && bs[i] == b;
      Apart(bs, i, k);
    }
    Apart(bs, k, k);
  }

  /** `after` holds the same headers as `before` for all blocks but those at `lo..hi`. */
  ghost predicate SameHeaders(bs: seq<Block>, before: map<nat, Header>, after: map<nat, Header>, lo: int, hi: int) {
    forall i :: 0 <= i < |bs| && !(lo <= i < hi) && bs[i].off in before ==>
      bs[i].off in after && after[bs[i].off] == before[bs[i].off]
  }

  lemma SplitEncodes(base: nat, bs: seq<Block>, k: nat, size: nat, before: map<nat, Header>, after: map<nat, Header>)
    requires k < |bs| && Encodes(base, bs, before)
    requires bs[k].size > size + HEADER + MIN_BLOCK_SIZE
    requires SameHeaders(bs, before, after, k, k + 2)
    requires var rest := bs[k].off + HEADER + size;
      && bs[k].off in after && rest in after
      && after[bs[k].off] == Header(HEAP_MAGIC, size, false, base + rest, Ptr(base, bs, k - 1))
      && after[rest] ==
           Header(HEAP_MAGIC, bs[k].size - size - HEADER, true, Ptr(base, bs, k + 1), base + bs[k].off)
    requires k + 1 < |bs| ==>
      && bs[k + 1].off in before && bs[k + 1].off in after
      && after[bs[k + 1].off] == before[bs[k + 1].off].(prev := base + bs[k].off + HEADER + size)
    ensures Encodes(base, Carve(bs, k, size), after)
  {
    SplitBlocks(bs, k, size);
    hide Carve;
    var r := Carve(bs, k, size);
    forall i | 0 <= i < |r| ensures Linked(base, r, after, i) {
      if i < k || i > k + 1 {
        var j := if i < k then i else i - 1;
        assert r[i] == bs[j] && Linked(base, bs, before, j);
      }
    }
  }

  lemma FlagEncodes(base: nat, bs: seq<Block>, k: nat, free: bool, before: map<nat, Header>, after: map<nat, Header>)
    requires k < |bs| && Encodes(base, bs, before) && SameHeaders(bs, before, after, k, k + 1)
    requires bs[k].off in before && bs[k].off in after
    requires after[bs[k].off] == before[bs[k].off].(free := free)
    ensures Encodes(base, bs[k := bs[k].(free := free)], after)
  {
    var r := bs[k := bs[k].(free := free)];
    forall i | 0 <= i < |r| ensures Linked(base, r, after, i) {
      assert Linked(base, bs, before, i);
    }
  }

  /** A header at `a` would overlap no live payload and no header but those of the blocks `lo..hi`. */
  ghost predicate Room(bs: seq<Block>, a: nat, lo: nat, hi: nat) {
    && Clear(bs, a)
    && forall i :: 0 <= i < |bs| && !(lo <= i < hi) ==> bs[i].off + HEADER <= a || a + HEADER <= bs[i].off
  }

  lemma MakeRoom(bs: seq<Block>, a: nat, lo: nat, hi: nat)
    requires Tiled(bs) && Clear(bs, a)
    requires lo < |bs| && lo < hi && bs[lo].off <= a && (hi < |bs| ==> a + HEADER <= bs[hi].off)
    ensures Room(bs, a, lo, hi)
  {
    forall i | 0 <= i < |bs| && !(lo <= i < hi) ensures bs[i].off + HEADER <= a || a + HEADER <= bs[i].off {
      Apart(bs, i, lo);
      if hi < |bs| { Apart(bs, i, hi); }
    }
  }

  /** Memory and headers at the start of an operation that rewrites blocks `lo..hi` only. */
  datatype Snapshot = Snapshot(mem: seq<byte>, headers: map<nat, Header>, lo: nat, hi: nat)

  /** The three headers a split writes are in its window and clear of live payloads. */
  lemma SplitWindow(base: nat, bs: seq<Block>, headers: map<nat, Header>, k: nat, a: nat, rest: nat, next: nat)
    requires base > 0 && Tiled(bs) && Encodes(base, bs, headers)
    requires k < |bs| && bs[k].free && a == bs[k].off && next == Ptr(base, bs, k + 1)
    requires a + HEADER <= rest && rest + HEADER <= bs[k].End()
    ensures Room(bs, a, k, k + 2) && Room(bs, rest, k, k + 2)
    ensures rest + HEADER <= bs[k].End() <= HEAP_SIZE
    ensures next != 0 ==>
      && base + rest + HEADER <= next && next - base in headers && Room(bs, next - base, k, k + 2)
  {
    assert next != 0 ==> next - base in headers by {
      if k + 1 < |bs| { assert Linked(base, bs, headers, k + 1); }
    }
    hide Encodes, Room, Clear, Coalesced;
    RoomInside(bs, k, rest);
    HeadersClear(bs, k);
    Apart(bs, k, k);
    if k + 2 < |bs| {
      Apart(bs, k + 1, k + 2);
      Apart(bs, k, k + 2);
    }
    MakeRoom(bs, a, k, k + 2);
    MakeRoom(bs, rest, k, k + 2);
    if k + 1 < |bs| {
      HeadersClear(bs, k + 1);
      Apart(bs, k + 1, k);
      MakeRoom(bs, bs[k + 1].off, k, k + 2);
    }
  }

  lemma FlagWindow(bs: seq<Block>, k: nat)
    requires Tiled(bs) && k < |bs|
    ensures Room(bs, bs[k].off, k, k + 1)
  {
    HeadersClear(bs, k);
    if k + 1 < |bs| { Apart(bs, k, k + 1); }
    MakeRoom(bs, bs[k].off, k, k + 1);
  }

  /** The three header stores of a split, in order, leave the carved list encoded. */
  lemma SplitStores(base: nat, bs: seq<Block>, k: nat, size: nat, a: nat, rest: nat, header: Header,
                    h0: map<nat, Header>, h1: map<nat, Header>, h2: map<nat, Header>, h3: map<nat, Header>,
                    h4: map<nat, Header>)
    requires base > 0 && Tiled(bs) && k < |bs| && bs[k].off == a && a in h0 && header == h0[a]
    requires bs[k].size == header.size > size + HEADER + MIN_BLOCK_SIZE && rest == a + HEADER + size
    requires Encodes(base, bs, h0)
    requires SameHeaders(bs, h0, h4, k, k + 2)
    requires rest in h1 && HeaderSet(h0, h1, rest, h1[rest])
    requires HeaderSet(h1, h2, rest, Header(HEAP_MAGIC, header.size - size - HEADER, true, header.next, base + a))
    requires PrevSet(base, h2, h3, header.next, base + rest)
    requires HeaderSet(h3, h4, a, Header(HEAP_MAGIC, size, false, base + rest, header.prev))
    ensures Encodes(base, Carve(bs, k, size), h4)
  {
    assert Linked(base, bs, h0, k);
    if k + 1 < |bs| {
      assert Linked(base, bs, h0, k + 1);
      Apart(bs, k, k + 1);
    }
    SplitEncodes(base, bs, k, size, h0, h4);
  }

  /** The two headers a merge writes are in its window and clear of live payloads. */
  lemma MergeWindow(base: nat, bs: seq<Block>, headers: map<nat, Header>, i: nat, a: nat, next: nat)
    requires base > 0 && Tiled(bs) && Encodes(base, bs, headers)
    requires i + 1 < |bs| && a == bs[i].off && next == Ptr(base, bs, i + 2)
    ensures Room(bs, a, i, i + 3) && bs[i].size + HEADER + bs[i + 1].size < HEAP_SIZE && a < HEAP_SIZE
    ensures next != 0 ==>
      && base + a + HEADER <= next && next - base in headers && Room(bs, next - base, i, i + 3)
  {
    assert next != 0 ==> next - base in headers by {
      if i + 2 < |bs| { assert Linked(base, bs, headers, i + 2); }
    }
    hide Encodes, Room, Clear, Coalesced;
    HeadersClear(bs, i);
    Inside(bs, i + 1);
    if i + 3 < |bs| {
      Apart(bs, i, i + 3);
      Apart(bs, i + 2, i + 3);
    }
    MakeRoom(bs, bs[i].off, i, i + 3);
    if i + 2 < |bs| {
      HeadersClear(bs, i + 2);
      Apart(bs, i, i + 2);
      MakeRoom(bs, bs[i + 2].off, i, i + 3);
    }
  }

  lemma MergeEncodes(base: nat, bs: seq<Block>, i: nat, before: map<nat, Header>, after: map<nat, Header>)
    requires i + 1 < |bs| && Encodes(base, bs, before) && SameHeaders(bs, before, after, i, i + 3)
    requires bs[i].off in after
    requires after[bs[i].off] == Header(HEAP_MAGIC, bs[i].size + HEADER + bs[i + 1].size, bs[i].free,
                                        Ptr(base, bs, i + 2), Ptr(base, bs, i - 1))
    requires i + 2 < |bs| ==>
      && bs[i + 2].off in before && bs[i + 2].off in after
      && after[bs[i + 2].off] == before[bs[i + 2].off].(prev := base + bs[i].off)
    ensures Encodes(base, MergeAt(bs, i), after)
  {
    var r := MergeAt(bs, i);
    forall j | 0 <= j < |r| ensures Linked(base, r, after, j) {
      if j != i {
        var o := if j < i then j else j + 1;
        assert r[j] == bs[o] && Linked(base, bs, before, o);
      }
    }
  }

  lemma MergeStores(base: nat, bs: seq<Block>, i: nat, a: nat, header: Header, next: Header, h0: map<nat, Header>,
                    h1: map<nat, Header>, h2: map<nat, Header>)
    requires base > 0 && Tiled(bs) && i + 1 < |bs| && bs[i].off == a && a in h0 && header == h0[a]
    requires bs[i + 1].off in h0 && next == h0[bs[i + 1].off]
    requires Encodes(base, bs, h0)
    requires SameHeaders(bs, h0, h2, i, i + 3)
    requires HeaderSet(h0, h1, a, header.(size := header.size + HEADER + next.size, next := next.next))
    requires PrevSet(base, h1, h2, next.next, base + a)
    ensures Encodes(base, MergeAt(bs, i), h2)
  {
    assert Linked(base, bs, h0, i) && Linked(base, bs, h0, i + 1);
    if i + 2 < |bs| {
      assert Linked(base, bs, h0, i + 2);
      Apart(bs, i, i + 2);
    }
    MergeEncodes(base, bs, i, h0, h2);
  }

  // ---------- The header stores of `kfree` on their own ----------

  function HeaderOf(h: map<nat, Header>, a: nat): Header {
    if a in h then h[a] else Header(0, 0, false, 0, 0)
  }

  function OffsetOf(base: nat, p: nat): nat { if p >= base then p - base else 0 }

  /** The block at `n` is added to the one at `a`, as both merges of `kfree` do it. */
  function Absorbed(h: map<nat, Header>, base: nat, a: nat, n: nat): map<nat, Header> {
    var block, next := HeaderOf(h, a), HeaderOf(h, n);
    var h1 := h[a := block.(size := block.size + HEADER + next.size, next := next.next)];
    if next.next == 0 then h1
    else
      var q := OffsetOf(base, next.next);
      h1[q := HeaderOf(h1, q).(prev := base + a)]
  }

  /** `kfree` of the pointer just after a header at `a`, whatever that header is. */
  function FreeStores(h: map<nat, Header>, base: nat, a: nat): map<nat, Header> {
    if HeaderOf(h, a).magic != HEAP_MAGIC then h
    else
      PrevStores(NextStores(h[a := HeaderOf(h, a).(free := true)], base, a), base, a)
  }

  lemma OtherOffsets(bs: seq<Block>, i: nat)
    requires Tiled(bs) && i < |bs|
    ensures forall j :: 0 <= j < |bs| && j != i ==> bs[j].off != bs[i].off
  {
    forall j | 0 <= j < |bs| && j != i ensures bs[j].off != bs[i].off { Apart(bs, i, j); }
  }

  lemma AbsorbedEncodes(base: nat, bs: seq<Block>, i: nat, h: map<nat, Header>)
    requires base > 0 && Tiled(bs) && i + 1 < |bs| && Encodes(base, bs, h)
    ensures Encodes(base, MergeAt(bs, i), Absorbed(h, base, bs[i].off, bs[i + 1].off))
  {
    assert Linked(base, bs, h, i) && Linked(base, bs, h, i + 1);
    OtherOffsets(bs, i);
    if i + 2 < |bs| {
      assert Linked(base, bs, h, i + 2);
      OtherOffsets(bs, i + 2);
    }
    hide Tiled, Encodes, Linked;
    MergeEncodes(base, bs, i, h, Absorbed(h, base, bs[i].off, bs[i + 1].off));
  }

  /** The second step of `kfree`: block `k` takes in a free successor. */
  function NextStores(h: map<nat, Header>, base: nat, a: nat): map<nat, Header> {
    var n := HeaderOf(h, a).next;
    if n != 0 && HeaderOf(h, OffsetOf(base, n)).free then Absorbed(h, base, a, OffsetOf(base, n)) else h
  }

  /** The third step: a free predecessor takes in the block. */
  function PrevStores(h: map<nat, Header>, base: nat, a: nat): map<nat, Header> {
    var p := HeaderOf(h, a).prev;
    if p != 0 && HeaderOf(h, OffsetOf(base, p)).free then Absorbed(h, base, OffsetOf(base, p), a) else h
  }

  lemma NextStoresEncode(base: nat, bs: seq<Block>, k: nat, h: map<nat, Header>)
    requires base > 0 && Tiled(bs) && k < |bs| && Encodes(base, bs, h)
    ensures Encodes(base, AbsorbNext(bs, k), NextStores(h, base, bs[k].off))
  {
    assert Linked(base, bs, h, k);
    if k + 1 < |bs| {
      assert Linked(base, bs, h, k + 1);
      AbsorbedEncodes(base, bs, k, h);
    }
    hide Tiled, Encodes, MergeAt, Absorbed;
  }

  lemma PrevStoresEncode(base: nat, bs: seq<Block>, k: nat, h: map<nat, Header>)
    requires base > 0 && Tiled(bs) && k < |bs| && Encodes(base, bs, h)
    ensures Encodes(base, AbsorbIntoPrev(bs, k), PrevStores(h, base, bs[k].off))
  {
    assert Linked(base, bs, h, k);
    if k > 0 {
      assert Linked(base, bs, h, k - 1);
      AbsorbedEncodes(base, bs, k - 1, h);
    }
    hide Tiled, Encodes, MergeAt, Absorbed;
  }

  lemma MarkStoresEncode(base: nat, bs: seq<Block>, k: nat, h: map<nat, Header>)
    requires Tiled(bs) && k < |bs| && Encodes(base, bs, h)
    ensures HeaderOf(h, bs[k].off).magic == HEAP_MAGIC
    ensures Encodes(base, Mark(bs, k), h[bs[k].off := HeaderOf(h, bs[k].off).(free := true)])
  {
    assert Linked(base, bs, h, k);
    OtherOffsets(bs, k);
    hide Tiled;
    FlagEncodes(base, bs, k, true, h, h[bs[k].off := HeaderOf(h, bs[k].off).(free := true)]);
  }

  /** On every block of the list, live or free, the stores leave the released list encoded. */
  lemma FreeStoresEncode(base: nat, bs: seq<Block>, k: nat, h: map<nat, Header>)
    requires base > 0 && WellFormed(bs) && k < |bs| && Encodes(base, bs, h)
    ensures Encodes(base, Release(bs, k), FreeStores(h, base, bs[k].off))
  {
    hide Tiled, Encodes, NextStores, PrevStores, MergeAt;
    if bs[k].free { ReleaseOfFree(bs, k); } else { MarkSpec(bs, k); }
    AbsorbNextSpec(Mark(bs, k), k);
    var h1 := h[bs[k].off := HeaderOf(h, bs[k].off).(free := true)];
    MarkStoresEncode(base, bs, k, h);
    NextStoresEncode(base, Mark(bs, k), k, h1);
    var bs2 := AbsorbNext(Mark(bs, k), k);
    assert bs2[k].off == bs[k].off by { AbsorbNextOffset(Mark(bs, k), k); }
    PrevStoresEncode(base, bs2, k, NextStores(h1, base, bs[k].off));
  }

  lemma AbsorbNextOffset(bs: seq<Block>, k: nat)
    requires k < |bs|
    ensures AbsorbNext(bs, k)[k].off == bs[k].off
  {
  }

  /** Two blocks are allocated and freed; the header of the second is stale then, but still
      carries the magic number and its old links. Freeing it once more adds its size to the
      first block again, and memory holds no list of blocks any more. */
  lemma FreeOfStaleHeader(base: nat) returns (bs: seq<Block>, h: map<nat, Header>)
    requires base > 0
    ensures bs == Malloced(Malloced(BOOTED, 32), 32).bs && |bs| == 3 && bs[1].off == 72
    ensures WellFormed(bs) && Encodes(base, bs, h)
    ensures var freed := FreeStores(FreeStores(h, base, 0), base, 72);
      && Encodes(base, INITIAL, freed) && HeaderOf(freed, 72).magic == HEAP_MAGIC
      && forall c :: Tiled(c) ==> !Encodes(base, c, FreeStores(freed, base, 72))
  {
    bs := [Block(0, 32, false), Block(72, 32, false), Block(144, HEAP_SIZE - 184, true)];
    h := map[0 := Header(HEAP_MAGIC, 32, false, base + 72, 0),
             72 := Header(HEAP_MAGIC, 32, false, base + 144, base),
             144 := Header(HEAP_MAGIC, HEAP_SIZE - 184, true, 0, base + 72)];
    TwoBlocks(bs);
    var h1 := FreeStores(h, base, 0);
    assert h1 == h[0 := Header(HEAP_MAGIC, 32, true, base + 72, 0)];
    var h2 := FreeStores(h1, base, 72);
    var b := Header(HEAP_MAGIC, HEAP_SIZE - 112, true, 0, base);
    assert NextStores(h1[72 := h1[72].(free := true)], base, 72) == h1[72 := b];
    assert h2 == h1[72 := b][0 := Header(HEAP_MAGIC, HEAP_SIZE - 40, true, 0, 0)];
    assert Linked(base, INITIAL, h2, 0);
    var h3 := FreeStores(h2, base, 72);
    assert HeaderOf(h3, 0).size == 2 * HEAP_SIZE - 112;
    forall c | Tiled(c) ensures !Encodes(base, c, h3) {
      Inside(c, 0);
      assert !Linked(base, c, h3, 0);
    }
  }

  lemma TwoBlocks(bs: seq<Block>)
    requires bs == [Block(0, 32, false), Block(72, 32, false), Block(144, HEAP_SIZE - 184, true)]
    ensures bs == Malloced(Malloced(BOOTED, 32), 32).bs && WellFormed(bs)
  {
    var first := [Block(0, 32, false), Block(72, HEAP_SIZE - 112, true)];
    assert Rounded(32) == 32 && FirstFit(INITIAL, 32) == 0 && FirstFit(first, 32) == FirstFit(first, 32, 1) == 1;
    assert Carve(INITIAL, 0, 32) == first;
    assert Carve(first, 1, 32) == bs;
    assert Malloced(BOOTED, 32).bs == first;
    InitialForm();
    AllocateSpec(INITIAL, 32);
    AllocateSpec(first, 32);
  }

  lemma PayloadsChain(bs: seq<Block>, bs': seq<Block>, m: seq<byte>, m': seq<byte>, m'': seq<byte>)
    requires PayloadsKept(bs, m, m') && PayloadsKept(bs', m', m'') && Live(bs') <= Live(bs)
    ensures PayloadsKept(bs', m, m'')
  {
    forall b, x | b in bs' && !b.free && b.off + HEADER <= x < b.End() && x < |m| ensures m''[x] == m[x] {
      assert b in Live(bs');
      assert b in bs && !b.free;
    }
  }

  lemma PayloadStoreEncodes(base: nat, bs: seq<Block>, k: nat, n: nat, before: map<nat, Header>,
                            after: map<nat, Header>)
    requires Tiled(bs) && k < |bs| && n <= bs[k].size && Encodes(base, bs, before)
    requires forall a :: a in before && (a <= bs[k].off || bs[k].off + HEADER + n <= a) ==>
               a in after && after[a] == before[a]
    ensures Encodes(base, bs, after)
  {
    forall i | 0 <= i < |bs| ensures Linked(base, bs, after, i) {
      assert Linked(base, bs, before, i);
      Apart(bs, i, k);
    }
  }

  /** Block `b` was exchanged for `nb`, which starts with `n` of its bytes; the other
      live payloads are as they were. */
  ghost predicate Moved(bs: seq<Block>, bs': seq<Block>, m: seq<byte>, m': seq<byte>, b: Block, nb: Block, n: nat) {
    && |m| == |m'| && b.End() <= |m| && nb.End() <= |m| && n <= b.size && n <= nb.size
    && b in Live(bs) && nb !in Live(bs) && Live(bs') == Live(bs) - {b} + {nb}
    && m'[nb.off + HEADER..nb.off + HEADER + n] == m[b.off + HEADER..b.off + HEADER + n]
    && forall c, x :: c in Live(bs) && c != b && c.off + HEADER <= x < c.End() && x < |m| ==> m'[x] == m[x]
  }

  /** The bytes `kcalloc` clears are there, or nothing is allocated. */
  ghost predicate ZeroingFits(bs: seq<Block>, total: nat) {
    total <= TWO64 - 8 || Allocate(bs, total).1.None?
  }

  /** Memory after copying `n` bytes. */
  ghost function Copied(m: seq<byte>, src: nat, dst: nat, n: nat): (r: seq<byte>)
    requires src + n <= |m| && dst + n <= |m|
  {
    Put(m, dst, m[src..src + n])
  }

  lemma MoveSpec(bs: seq<Block>, bs1: seq<Block>, bs2: seq<Block>, m0: seq<byte>, m1: seq<byte>,
                 m3: seq<byte>, b: Block, nb: Block, src: nat, dst: nat, n: nat)
    requires Tiled(bs1) && b in Live(bs) && nb !in Live(bs) && nb in Live(bs1) && Live(bs1) == Live(bs) + {nb}
    requires |m0| == |m1| == HEAP_SIZE && n <= b.size && n <= nb.size && b.End() <= HEAP_SIZE && nb.End() <= HEAP_SIZE
    requires src == b.off + HEADER && dst == nb.off + HEADER
    requires PayloadsKept(bs, m0, m1)
    requires Live(bs2) == Live(bs1) - {b}
    requires PayloadsKept(bs2, Copied(m1, src, dst, n), m3)
    ensures Moved(bs, bs2, m0, m3, b, nb, n)
  {
    var m2 := Copied(m1, src, dst, n);
    assert nb in Live(bs2);
    assert m3[dst..dst + n] == m2[dst..dst + n];
    assert m1[src..src + n] == m0[src..src + n];
    forall c, x | c in Live(bs) && c != b && c.off + HEADER <= x < c.End() && x < |m0| ensures m3[x] == m0[x] {
      assert c in Live(bs2);
      LivePayloadsDisjoint(bs1, c, nb);
    }
  }

  /** A block that was live before the allocation is still in the list. */
  lemma OldBlock(bs: seq<Block>, bs1: seq<Block>, b: Block) returns (kb: nat)
    requires WellFormed(bs1) && b in Live(bs) && Live(bs) <= Live(bs1)
    ensures kb < |bs1| && bs1[kb] == b && !b.free && b.End() <= HEAP_SIZE
    ensures IsLive(bs1, b.off) && Position(bs1, b.off) == kb
  {
    assert b in Live(bs1);
    kb :| 0 <= kb < |bs1| && bs1[kb] == b;
    OffsetsDistinct(bs1, kb, Position(bs1, b.off));
    Inside(bs1, kb);
  }

  /** Filling the new block leaves the older payloads alone. */
  lemma FillKeepsOthers(bs: seq<Block>, bs1: seq<Block>, m0: seq<byte>, m1: seq<byte>, m2: seq<byte>, nb: Block,
                        s: seq<byte>)
    requires Tiled(bs1) && nb in Live(bs1) && nb !in Live(bs) && Live(bs1) == Live(bs) + {nb}
    requires |s| <= nb.size && nb.End() <= |m1| && m2 == Put(m1, nb.off + HEADER, s)
    requires PayloadsKept(bs, m0, m1)
    ensures PayloadsKept(bs, m0, m2)
  {
    forall b, x | b in bs && !b.free && b.off + HEADER <= x < b.End() && x < |m0| ensures m2[x] == m0[x] {
      assert b in Live(bs) && b in Live(bs1);
      LivePayloadsDisjoint(bs1, b, nb);
    }
  }

  class KernelHeap {
    const base: nat
    const mem: array<byte>
    var first: nat
    var allocs: nat
    var frees: nat
    ghost var blocks: seq<Block>
    ghost var headers: map<nat, Header>

    ghost predicate Valid()
      reads this, mem
    {
      && 0 < base && base + HEAP_SIZE < TWO64
      && allocs < TWO32 && frees < TWO32
      && Decodes(mem[..], headers)
      && (first == 0 ==> blocks == [])
      && (first != 0 ==> first == base && WellFormed(blocks) && Encodes(base, blocks, headers))
    }

    method Store(a: nat, s: seq<byte>)
      requires a + |s| <= mem.Length
      modifies mem
      ensures mem[..] == Put(old(mem[..]), a, s)
    {
      for k := 0 to |s|
        invariant forall x :: 0 <= x < mem.Length ==>
                    mem[x] == if a <= x < a + k then s[x - a] else old(mem[x])
      {
        mem[a + k] := s[k];
      }
    }

    method ReadHeader(a: nat) returns (h: Header)
      requires Decodes(mem[..], headers) && a in headers
      ensures h == headers[a] && Fits(h)
    {
      h := HeaderAt(mem[..], a);
      HeaderFits(mem[..], a);
    }

    ghost predicate KeptSince(s: Snapshot)
      reads this, mem
    {
      && PayloadsKept(blocks, s.mem, mem[..])
      && SameHeaders(blocks, s.headers, headers, s.lo, s.hi)
    }

    /** Stores bytes; headers that overlap them are no longer known. */
    method StoreBytes(a: nat, s: seq<byte>)
      requires Decodes(mem[..], headers) && a + |s| <= HEAP_SIZE
      modifies mem, `headers
      ensures Decodes(mem[..], headers)
      ensures mem[..] == Put(old(mem[..]), a, s)
      ensures forall b :: b in old(headers) && (b + HEADER <= a || a + |s| <= b) ==>
                b in headers && headers[b] == old(headers)[b]
    {
      ghost var before := mem[..];
      Store(a, s);
      headers := map b | b in headers && (b + HEADER <= a || a + |s| <= b) :: headers[b];
      forall b | b in headers ensures HeaderAt(mem[..], b) == HeaderAt(before, b) {
        HeaderFrame(mem[..], before, b);
      }
    }

    /** A store to one header field. */
    method StoreField(a: nat, f: Field, v: nat)
      requires Decodes(mem[..], headers) && a in headers && v < Pow256(f.Width())
      modifies mem, `headers
      ensures Decodes(mem[..], headers)
      ensures FieldSet(old(headers), headers, a, f, v)
      ensures forall x :: 0 <= x < mem.Length && !(a <= x < a + HEADER) ==> mem[x] == old(mem[x])
    {
      hide HeaderAt, With, LittleEndian, Pow256;
      FieldStored(mem[..], a, f, v);
      StoreBytes(a + f.Offset(), LittleEndian(v, f.Width()));
      headers := headers[a := With(old(headers)[a], f, v)];
    }

    /** What the header stores of one operation rely on and keep. */
    ghost predicate Working(s: Snapshot)
      reads this, mem
    {
      Decodes(mem[..], headers) && KeptSince(s)
    }

    ghost predicate Writable(s: Snapshot, a: nat)
      reads this
    {
      a in headers && Room(blocks, a, s.lo, s.hi)
    }

    /** A store to one header field, inside the part of the heap that `s` allows to change. */
    method WriteField(a: nat, f: Field, v: nat, ghost s: Snapshot)
      requires Working(s) && Writable(s, a) && v < Pow256(f.Width())
      modifies mem, `headers
      ensures Working(s)
      ensures FieldSet(old(headers), headers, a, f, v)
    {
      StoreField(a, f, v);
    }

    /** Starts to treat the bytes at `a` as a header, whatever they hold. */
    ghost method Claim(a: nat, s: Snapshot)
      requires Working(s) && Room(blocks, a, s.lo, s.hi) && a + HEADER <= HEAP_SIZE
      modifies `headers
      ensures Working(s) && a in headers
      ensures HeaderSet(old(headers), headers, a, headers[a])
    {
      headers := headers[a := HeaderAt(mem[..], a)];
    }

    /** Stores a header field by field; fields that keep their value are stored again. */
    method WriteHeader(a: nat, h: Header, ghost s: Snapshot)
      requires Working(s) && Writable(s, a) && Fits(h)
      modifies mem, `headers
      ensures Working(s)
      ensures HeaderSet(old(headers), headers, a, h)
    {
      Widths();
      WriteField(a, Magic, h.magic, s);
      WriteField(a, Size, h.size, s);
      WriteField(a, Field.Free, if h.free then 1 else 0, s);
      WriteField(a, Next, h.next, s);
      WriteField(a, Prev, h.prev, s);
    }

    /** `if (p) p->prev = v`. */
    method SetPrev(p: nat, v: nat, ghost s: Snapshot)
      requires Working(s) && v < TWO64
      requires p != 0 ==> base <= p && Writable(s, p - base)
      modifies mem, `headers
      ensures Working(s)
      ensures PrevSet(base, old(headers), headers, p, v)
    {
      if p != 0 {
        var h := ReadHeader(p - base);
        WriteHeader(p - base, h.(prev := v), s);
      }
    }

    /** Walks the list to the first free block of at least `need` bytes. */
    method FindFit(need: nat) returns (block: nat, ghost k: nat)
      requires Valid() && first != 0
      ensures k == FirstFit(blocks, need) && block == Ptr(base, blocks, k)
    {
      block, k := first, 0;
      while block != 0
        invariant k <= |blocks| && block == Ptr(base, blocks, k)
        invariant FirstFit(blocks, need) == FirstFit(blocks, need, k)
        decreases |blocks| - k
      {
        assert Linked(base, blocks, headers, k);
        var header := ReadHeader(block - base);
        if header.free && header.size >= need { return; }
        block, k := header.next, k + 1;
      }
    }

    /** Allocation: first fit, splitting when the remainder can hold another block. */
    method Kmalloc(size: nat) returns (p: nat)
      requires Valid() && size < TWO64
      modifies mem, `blocks, `headers, `allocs
      ensures Valid()
      ensures Heap(blocks, allocs, frees) == Malloced(old(Heap(blocks, allocs, frees)), size)
      ensures p == match Allocate(old(blocks), size).1 case None => 0 case Some(off) => base + off + HEADER
      ensures p != 0 ==> first != 0
      ensures PayloadsKept(old(blocks), old(mem[..]), mem[..])
    {
      hide Carve, Tiled, Coalesced;
      if size == 0 || first == 0 { return 0; }
      var need := (size + 7) % TWO64 / 8 * 8;
      if need < MIN_BLOCK_SIZE { need := MIN_BLOCK_SIZE; }
      var block, k := FindFit(need);
      if block == 0 { return 0; }
      Take(block - base, need, k);
      allocs := (allocs + 1) % TWO32;
      return block + HEADER;
    }

    /** Hands out the free block `k`, whose header is at offset `a`. */
    method Take(a: nat, need: nat, ghost k: nat)
      requires Valid() && first != 0
      requires k < |blocks| && blocks[k].off == a && blocks[k].free
      requires GoodSize(need) && need <= blocks[k].size
      modifies mem, `blocks, `headers
      ensures Valid() && blocks == Carve(old(blocks), k, need)
      ensures PayloadsKept(old(blocks), old(mem[..]), mem[..])
    {
      CarveKeepsForm(blocks, k, need);
      Inside(blocks, k);
      assert Linked(base, blocks, headers, k);
      var header := ReadHeader(a);
      if header.size > (need + HEADER + MIN_BLOCK_SIZE) % TWO64 {
        Split(a, need, header, k);
      } else {
        SetFree(a, header, false, k);
      }
      blocks := Carve(blocks, k, need);
    }

    /** The list in memory, before an operation that works on block `k` with header at `a`. */
    ghost predicate Ready(a: nat, header: Header, k: nat)
      reads this, mem
    {
      && 0 < base && base + HEAP_SIZE < TWO64
      && Decodes(mem[..], headers) && Encodes(base, blocks, headers)
      && Tiled(blocks) && k < |blocks| && blocks[k].off == a
      && a in headers && header == headers[a] && Fits(header)
      && header.size == blocks[k].size && header.next == Ptr(base, blocks, k + 1)
    }

    method SetFree(a: nat, header: Header, free: bool, ghost k: nat)
      requires Ready(a, header, k)
      modifies mem, `headers
      ensures Decodes(mem[..], headers)
      ensures Encodes(base, blocks[k := blocks[k].(free := free)], headers)
      ensures PayloadsKept(blocks, old(mem[..]), mem[..])
    {
      FlagWindow(blocks, k);
      WriteHeader(a, header.(free := free), Snapshot(mem[..], headers, k, k + 1));
      FlagEncodes(base, blocks, k, free, old(headers), headers);
    }

    method Split(a: nat, need: nat, header: Header, ghost k: nat)
      requires Ready(a, header, k) && blocks[k].free
      requires header.size > need + HEADER + MIN_BLOCK_SIZE
      modifies mem, `headers
      ensures Decodes(mem[..], headers)
      ensures Encodes(base, Carve(blocks, k, need), headers)
      ensures PayloadsKept(blocks, old(mem[..]), mem[..])
    {
      hide Carve, Tiled, PayloadsKept, SameHeaders, Room;
      var rest := a + HEADER + need;
      ghost var h0 := headers;
      SplitWindow(base, blocks, h0, k, a, rest, header.next);
      ghost var s := Snapshot(mem[..], h0, k, k + 2);
      Claim(rest, s);
      ghost var h1 := headers;
      WriteHeader(rest, Header(HEAP_MAGIC, header.size - need - HEADER, true, header.next, base + a), s);
      ghost var h2 := headers;
      SetPrev(header.next, base + rest, s);
      ghost var h3 := headers;
      WriteHeader(a, Header(HEAP_MAGIC, need, false, base + rest, header.prev), s);
      SplitStores(base, blocks, k, need, a, rest, header, h0, h1, h2, h3, headers);
    }

    /** Block `i`, at offset `a`, swallows its successor; both are free. */
    method Absorb(a: nat, header: Header, next: Header, ghost i: nat)
      requires Ready(a, header, i) && i + 1 < |blocks|
      requires blocks[i + 1].off in headers && next == headers[blocks[i + 1].off] && Fits(next)
      requires next.size == blocks[i + 1].size && next.next == Ptr(base, blocks, i + 2)
      modifies mem, `headers
      ensures Decodes(mem[..], headers)
      ensures Encodes(base, MergeAt(blocks, i), headers)
      ensures PayloadsKept(blocks, old(mem[..]), mem[..])
    {
      ghost var h0 := headers;
      MergeWindow(base, blocks, h0, i, a, next.next);
      ghost var s := Snapshot(mem[..], h0, i, i + 3);
      WriteHeader(a, header.(size := header.size + HEADER + next.size, next := next.next), s);
      ghost var h1 := headers;
      SetPrev(next.next, base + a, s);
      MergeStores(base, blocks, i, a, header, next, h0, h1, headers);
    }

    /** The list is in memory, and block `k`, at offset `a`, is free. */
    ghost predicate FreeAt(a: nat, k: nat)
      reads this, mem
    {
      && 0 < base && base + HEAP_SIZE < TWO64
      && Decodes(mem[..], headers) && Encodes(base, blocks, headers)
      && Tiled(blocks) && k < |blocks| && blocks[k].off == a && blocks[k].free
    }

    method MergeNext(a: nat, ghost k: nat)
      requires FreeAt(a, k)
      modifies mem, `headers, `blocks
      ensures FreeAt(a, k)
      ensures blocks == AbsorbNext(old(blocks), k)
      ensures PayloadsKept(blocks, old(mem[..]), mem[..])
    {
      assert Linked(base, blocks, headers, k);
      var header := ReadHeader(a);
      if header.next != 0 {
        assert Linked(base, blocks, headers, k + 1);
        var next := ReadHeader(header.next - base);
        if next.free {
          Absorb(a, header, next, k);
          MergeKeepsTiling(blocks, k);
          MergeLive(blocks, k);
          PayloadsChain(blocks, MergeAt(blocks, k), old(mem[..]), mem[..], mem[..]);
          blocks := MergeAt(blocks, k);
        }
      }
    }

    method MergePrev(a: nat, ghost k: nat)
      requires FreeAt(a, k)
      modifies mem, `headers, `blocks
      ensures Decodes(mem[..], headers) && Encodes(base, blocks, headers)
      ensures blocks == AbsorbIntoPrev(old(blocks), k)
      ensures PayloadsKept(blocks, old(mem[..]), mem[..])
    {
      assert Linked(base, blocks, headers, k);
      var header := ReadHeader(a);
      if header.prev != 0 {
        assert Linked(base, blocks, headers, k - 1);
        var prev := ReadHeader(header.prev - base);
        if prev.free {
          Absorb(header.prev - base, prev, header, k - 1);
          MergeLive(blocks, k - 1);
          PayloadsChain(blocks, MergeAt(blocks, k - 1), old(mem[..]), mem[..], mem[..]);
          blocks := MergeAt(blocks, k - 1);
        }
      }
    }

    /** The argument `p` of `kfree` and `krealloc` points at a live block. */
    ghost predicate IsLivePtr(p: nat)
      reads this
    {
      p >= base + HEADER && IsLive(blocks, p - base - HEADER)
    }

    /** `p` points just after the header of a block, live or free. */
    ghost predicate IsBlockPtr(p: nat)
      reads this
    {
      p >= base + HEADER && exists i :: 0 <= i < |blocks| && blocks[i].off == p - base - HEADER
    }

    /** `p` points into the heap, but not just after a header. */
    ghost predicate IsForeignPtr(p: nat)
      reads this, mem
    {
      && base + HEADER <= p <= base + HEAP_SIZE && mem.Length == HEAP_SIZE
      && HeaderAt(mem[..], p - base - HEADER).magic != HEAP_MAGIC
    }

    lemma BlocksHaveMagic(p: nat)
      requires Valid()
      ensures IsBlockPtr(p) ==>
        && base + HEADER <= p <= base + HEAP_SIZE && mem.Length == HEAP_SIZE
        && HeaderAt(mem[..], p - base - HEADER).magic == 0xDEAD_BEEF && !IsForeignPtr(p)
    {
      if IsBlockPtr(p) {
        var a := p - base - HEADER;
        var k :| 0 <= k < |blocks| && blocks[k].off == a;
        assert Linked(base, blocks, headers, k);
        assert HeaderAt(mem[..], a) == headers[a];
      }
    }

    /** The magic number tells the blocks of the list from pointers without a header. */
    method CheckMagic(p: nat) returns (ok: bool)
      requires Valid()
      requires IsBlockPtr(p) || IsForeignPtr(p)
      ensures ok <==> IsBlockPtr(p)
    {
      BlocksHaveMagic(p);
      ok := HeaderAt(mem[..], p - base - HEADER).magic == HEAP_MAGIC;
    }

    /** Freeing a block that is still in the list but free already only counts the call. */
    method Kfree(p: nat)
      requires Valid()
      requires p == 0 || IsBlockPtr(p) || IsForeignPtr(p)
      modifies mem, `headers, `blocks, `frees
      ensures Valid()
      ensures p == 0 || !old(IsBlockPtr(p)) ==> unchanged(this) && unchanged(mem)
      ensures old(IsLivePtr(p)) ==>
        Heap(blocks, allocs, frees) == Freed(old(Heap(blocks, allocs, frees)), p - base - HEADER)
      ensures old(IsBlockPtr(p) && !IsLivePtr(p)) ==>
        Heap(blocks, allocs, frees) == old(Heap(blocks, allocs, (frees + 1) % TWO32))
      ensures PayloadsKept(blocks, old(mem[..]), mem[..])
    {
      hide Release;
      if p == 0 { return; }
      var ok := CheckMagic(p);
      if !ok { return; }
      ghost var a := p - base - HEADER;
      ghost var k;
      if IsLivePtr(p) {
        k := Position(blocks, a);
      } else {
        k :| 0 <= k < |blocks| && blocks[k].off == a;
        ReleaseOfFree(blocks, k);
      }
      Retire(p - base - HEADER, k);
    }

    /** `kfree` past its checks: the header of block `k` is at `a`. */
    method Retire(a: nat, ghost k: nat)
      requires Valid() && k < |blocks| && blocks[k].off == a
      modifies mem, `headers, `blocks, `frees
      ensures Valid()
      ensures blocks == Release(old(blocks), k) && frees == (old(frees) + 1) % TWO32
      ensures PayloadsKept(blocks, old(mem[..]), mem[..])
    {
      hide Release;
      if blocks[k].free { ReleaseOfFree(blocks, k); } else { ReleaseSpec(blocks, k); }
      assert Linked(base, blocks, headers, k);
      var header := ReadHeader(a);
      Relink(a, header, k);
      frees := (frees + 1) % TWO32;
    }

    method Relink(a: nat, header: Header, ghost k: nat)
      requires Ready(a, header, k) && Coalesced(blocks)
      modifies mem, `headers, `blocks
      ensures Decodes(mem[..], headers) && Encodes(base, blocks, headers)
      ensures blocks == Release(old(blocks), k)
      ensures PayloadsKept(blocks, old(mem[..]), mem[..])
    {
      ghost var bs, m0 := blocks, mem[..];
      if bs[k].free { ReleaseOfFree(bs, k); } else { MarkSpec(bs, k); }
      AbsorbNextSpec(Mark(bs, k), k);
      AbsorbIntoPrevSpec(AbsorbNext(Mark(bs, k), k), k);
      SetFree(a, header, true, k);
      blocks := Mark(blocks, k);
      ghost var m1 := mem[..];
      PayloadsChain(bs, blocks, m0, m1, m1);
      MergeNext(a, k);
      ghost var m2 := mem[..];
      PayloadsChain(Mark(bs, k), blocks, m0, m1, m2);
      MergePrev(a, k);
      PayloadsChain(AbsorbNext(Mark(bs, k), k), blocks, m0, m2, mem[..]);
    }

    constructor (base: nat)
      requires 0 < base && base + HEAP_SIZE < TWO64
      ensures Valid() && fresh(mem)
      ensures this.base == base && first == 0
    {
      this.base := base;
      mem := new byte[HEAP_SIZE](_ => 0);
      first, allocs, frees := 0, 0, 0;
      blocks, headers := [], map[];
    }

    /** Heap part of `mm_init`: whatever the state, the heap becomes one free block. */
    method MmInit()
      requires Valid()
      modifies this, mem
      ensures Valid() && first == base
      ensures Heap(blocks, allocs, frees) == BOOTED
    {
      hide Allocate, WellFormed;
      InitialForm();
      var start := Kmalloc(HEAP_SIZE);
      assert start == 0 by {
        if old(first) != 0 { WholeHeapRequestFails(old(blocks)); }
      }
      blocks := [];
      headers := map[0 := HeaderAt(mem[..], 0)];
      var header := Header(HEAP_MAGIC, HEAP_SIZE - HEADER, true, 0, 0);
      WriteHeader(0, header, Snapshot(mem[..], headers, 0, 0));
      blocks := INITIAL;
      first := base;
      allocs, frees := 0, 0;
      assert Linked(base, blocks, headers, 0);
    }

    /** Stores into the payload of the live block `k`, by the kernel or by its owner. */
    method WritePayload(p: nat, s: seq<byte>, ghost k: nat)
      requires Valid() && k < |blocks| && !blocks[k].free
      requires base + blocks[k].off + HEADER <= p && p + |s| <= base + blocks[k].End()
      modifies mem, `headers
      ensures Valid()
      ensures p - base + |s| <= mem.Length && mem[..] == Put(old(mem[..]), p - base, s)
    {
      Inside(blocks, k);
      StoreBytes(p - base, s);
      PayloadStoreEncodes(base, blocks, k, p + |s| - (base + blocks[k].off + HEADER), old(headers), headers);
    }

    /** Copies `n` payload bytes of block `kb` to block `kn` and frees block `kb`. */
    method Transfer(p: nat, r: nat, n: nat, ghost kb: nat, ghost kn: nat)
      requires Valid() && kb < |blocks| && kn < |blocks| && !blocks[kb].free && !blocks[kn].free
      requires p == base + blocks[kb].off + HEADER && r == base + blocks[kn].off + HEADER
      requires n <= blocks[kb].size && n <= blocks[kn].size
      requires blocks[kb].End() <= HEAP_SIZE && blocks[kn].End() <= HEAP_SIZE
      modifies mem, `headers, `blocks, `frees
      ensures Valid()
      ensures blocks == Release(old(blocks), kb) && frees == (old(frees) + 1) % TWO32
      ensures PayloadsKept(blocks, Copied(old(mem[..]), p - base, r - base, n), mem[..])
    {
      hide Release, Tiled, Coalesced, PayloadsKept;
      ghost var m1 := mem[..];
      var data := mem[..][p - base..p - base + n];
      WritePayload(r, data, kn);
      assert mem[..] == Copied(m1, p - base, r - base, n);
      Retire(p - base - HEADER, kb);
    }

    /** The resize of the live block `b`, at list position `k`. */
    method Move(p: nat, size: nat, ghost k: nat, ghost b: Block) returns (r: nat)
      requires Valid() && k < |blocks| && b == blocks[k] && !b.free
      requires p == base + b.off + HEADER && 0 < size < TWO64
      requires Allocate(blocks, size).1.Some? ==> Min(b.size, size) <= Granted(blocks, size)
      modifies mem, `headers, `blocks, `allocs, `frees
      ensures Valid()
      ensures IsLive(old(blocks), b.off)
      ensures Heap(blocks, allocs, frees) == Reallocated(old(Heap(blocks, allocs, frees)), b.off, size)
      ensures r == match Allocate(old(blocks), size).1 case None => 0 case Some(off) => base + off + HEADER
      ensures r == 0 ==> blocks == old(blocks) && PayloadsKept(blocks, old(mem[..]), mem[..])
      ensures r != 0 ==> exists nb: Block ::
        && r == base + nb.off + HEADER && (size <= TWO64 - 8 ==> nb.size >= size)
        && Moved(old(blocks), blocks, old(mem[..]), mem[..], b, nb, Min(b.size, size))
    {
      hide Release, Allocate, Moved, Tiled, Coalesced, PayloadsKept, Copied;
      ghost var bs, m0 := blocks, mem[..];
      assert Linked(base, blocks, headers, k);
      var header := ReadHeader(p - base - HEADER);
      r := Kmalloc(size);
      if r == 0 { return; }
      ghost var bs1, m1 := blocks, mem[..];
      ghost var nb, kn := NewBlock(bs, size);
      ghost var kb := OldBlock(bs, bs1, b);
      var n := if header.size < size then header.size else size;
      Transfer(p, r, n, kb, kn);
      ReleaseSpec(bs1, kb);
      MoveSpec(bs, bs1, blocks, m0, m1, mem[..], b, nb, p - base, r - base, n);
    }

    /** Resizing by moving: on success the old contents are at the new place and the old
        block is gone; when there is no room, nothing has changed. */
    method Krealloc(p: nat, size: nat) returns (r: nat)
      requires Valid() && size < TWO64
      requires p == 0 || IsLivePtr(p) || IsForeignPtr(p)
      requires IsLivePtr(p) && Allocate(blocks, size).1.Some? ==> CopyFits(blocks, p - base - HEADER, size)
      modifies mem, `headers, `blocks, `allocs, `frees
      ensures Valid()
      ensures p == 0 || (old(IsLivePtr(p)) && size > 0) ==>
        r == match Allocate(old(blocks), size).1 case None => 0 case Some(off) => base + off + HEADER
      ensures old(IsLivePtr(p)) && size == 0 ==> r == 0
      ensures p == 0 ==>
        && Heap(blocks, allocs, frees) == Malloced(old(Heap(blocks, allocs, frees)), size)
        && PayloadsKept(old(blocks), old(mem[..]), mem[..])
      ensures p != 0 && !old(IsLivePtr(p)) ==> r == 0 && unchanged(this) && unchanged(mem)
      ensures old(IsLivePtr(p)) ==>
        Heap(blocks, allocs, frees) == Reallocated(old(Heap(blocks, allocs, frees)), p - base - HEADER, size)
      ensures old(IsLivePtr(p)) && r == 0 ==> PayloadsKept(blocks, old(mem[..]), mem[..])
      ensures old(IsLivePtr(p)) && size > 0 && r == 0 ==> blocks == old(blocks)
      ensures old(IsLivePtr(p)) && r != 0 ==> exists b: Block, nb: Block ::
        && p == base + b.off + HEADER && r == base + nb.off + HEADER && (size <= TWO64 - 8 ==> nb.size >= size)
        && Moved(old(blocks), blocks, old(mem[..]), mem[..], b, nb, Min(b.size, size))
    {
      hide Release, Allocate, Moved, Tiled, Coalesced, PayloadsKept, Granted, Decodes, Encodes;
      if p == 0 { r := Kmalloc(size); return; }
      BlocksHaveMagic(p);
      if size == 0 { Kfree(p); return 0; }
      var ok := CheckMagic(p);
      if !ok { return 0; }
      ghost var k := Position(blocks, p - base - HEADER);
      r := Move(p, size, k, blocks[k]);
    }

    /** Zeroed allocation of `num * size` bytes, the product taken modulo 2^64. */
    method Kcalloc(num: nat, size: nat) returns (p: nat)
      requires Valid() && num < TWO64 && size < TWO64 && ZeroingFits(blocks, num * size % TWO64)
      modifies mem, `headers, `blocks, `allocs
      ensures Valid()
      ensures Heap(blocks, allocs, frees) == Malloced(old(Heap(blocks, allocs, frees)), num * size % TWO64)
      ensures p == match Allocate(old(blocks), num * size % TWO64).1
                   case None => 0 case Some(off) => base + off + HEADER
      ensures PayloadsKept(old(blocks), old(mem[..]), mem[..])
      ensures p != 0 ==> IsLivePtr(p) && Zeroed(mem[..], p - base, num * size % TWO64)
    {
      var total := num * size % TWO64;
      p := AllocateZeroed(total);
    }

    method AllocateZeroed(total: nat) returns (p: nat)
      requires Valid() && total < TWO64 && ZeroingFits(blocks, total)
      modifies mem, `headers, `blocks, `allocs
      ensures Valid()
      ensures Heap(blocks, allocs, frees) == Malloced(old(Heap(blocks, allocs, frees)), total)
      ensures p == match Allocate(old(blocks), total).1 case None => 0 case Some(off) => base + off + HEADER
      ensures PayloadsKept(old(blocks), old(mem[..]), mem[..])
      ensures p != 0 ==> IsLivePtr(p) && Zeroed(mem[..], p - base, total)
    {
      hide Allocate, Tiled, Coalesced, PayloadsKept;
      ghost var bs, m0 := blocks, mem[..];
      p := Kmalloc(total);
      if p != 0 {
        ghost var nb, kn := NewBlock(bs, total);
        ghost var m1 := mem[..];
        WritePayload(p, seq(total, _ => 0), kn);
        FillKeepsOthers(bs, blocks, m0, m1, mem[..], nb, seq(total, _ => 0));
      }
    }
  }
}
