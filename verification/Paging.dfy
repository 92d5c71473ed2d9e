/** The 4-level page tables of kernel/arch/x86_64/paging.c (4-level paging, Intel SDM
    volume 3A, section 4.5), for all addresses but those of the top slot of the PML4. */
module Paging {
  import opened Machine

  /** The walk looks at the low 48 bits of an address. */
  const SPACE: nat := 0x1_0000_0000_0000
  /** Where slot 511 of the PML4 begins, which refers to the PML4 itself. */
  const OWN_SLOT: nat := 0xFF80_0000_0000

  const PTE_PRESENT: nat := 1
  const PTE_GLOBAL: nat := 0x100
  const PTE_NX: nat := 0x8000_0000_0000_0000
  /** `PTE_PRESENT | PTE_WRITABLE | PTE_USER`. */
  const TABLE_BITS: nat := 7

  /** Page-table memory: table frame address to its 512 entries. */
  type Tables = map<int, seq<int>>

  /** The place of a table in the tree: its level (4 is the PML4) and the page-number prefix it serves. */
  datatype Node = Node(level: int, prefix: int) {
    function Child(i: int): Node { Node(level - 1, prefix * 512 + i) }
  }

  predicate Present(e: int) { e % 2 == 1 }

  /** `e & PAGE_MASK`, with the 64-bit mask that clears the low 12 bits only. */
  function Frame(e: int): int { e - e % PAGE_SIZE }

  function Entry(t: Tables, f: int, i: nat): int {
    if f in t && i < |t[f]| then t[f][i] else 0
  }

  /** The page number without its `level` lowest 9-bit digits. */
  function Prefix(p: nat, level: nat): nat {
    if level == 0 then p else Prefix(p, level - 1) / 512
  }

  /** The digit of the page number that indexes a table of this level. */
  function Index(p: nat, level: nat): (i: nat)
    requires level > 0
    ensures i < 512
    ensures Prefix(p, level - 1) == Prefix(p, level) * 512 + i
  {
    Prefix(p, level - 1) % 512
  }

  /** The page number of an address, as far as the walk looks at it. */
  function Page(virt: nat): nat { virt % SPACE / PAGE_SIZE }

  /** Pages below the self-referring slot. */
  predicate Served(p: nat) { p < OWN_SLOT / PAGE_SIZE }

  /** The leaf entry that serves page `p`, looking from the table `f`; 0 when a table is missing. */
  function Leaf(t: Tables, f: int, level: nat, p: nat): int
    requires level > 0
    decreases level
  {
    var e := Entry(t, f, Index(p, level));
    if level == 1 then e
    else if Present(e) then Leaf(t, Frame(e), level - 1, p)
    else 0
  }

  /** Slots of a table that serve such pages. */
  function Width(level: int): nat { if level == 4 then 511 else 512 }

  ghost predicate ChildOk(t: Tables, owner: map<int, Node>, f: int, i: nat)
    requires f in t && f in owner && i < |t[f]|
  {
    Present(t[f][i]) ==>
      && Frame(t[f][i]) in t && Frame(t[f][i]) in owner
      && owner[Frame(t[f][i])] == owner[f].Child(i)
  }

  /** Every table has one place in the tree, and present entries lead to the table at the right place. */
  ghost predicate Tree(t: Tables, root: int, owner: map<int, Node>) {
    && t.Keys == owner.Keys
    && root in t && owner[root] == Node(4, 0)
    && (forall f :: f in t ==> |t[f]| == 512 && 1 <= owner[f].level <= 4)
    && (forall f, i :: f in t && owner[f].level > 1 && 0 <= i < Width(owner[f].level) ==> ChildOk(t, owner, f, i))
  }

  lemma ServedIndex(p: nat)
    requires Served(p)
    ensures Prefix(p, 4) == 0 && Index(p, 4) < 511
  {
    assert Prefix(p, 1) == p / 512;
    assert Prefix(p, 2) == p / 512 / 512;
    assert Prefix(p, 3) == p / 512 / 512 / 512;
  }

  /** The walk for `p` stands at table `f`. */
  ghost predicate At(owner: map<int, Node>, f: int, level: nat, p: nat) {
    f in owner && owner[f] == Node(level, Prefix(p, level))
  }

  lemma Child(t: Tables, root: int, owner: map<int, Node>, f: int, level: nat, p: nat)
    requires Tree(t, root, owner) && Served(p) && 1 < level <= 4 && At(owner, f, level, p)
    requires Present(Entry(t, f, Index(p, level)))
    ensures At(owner, Frame(Entry(t, f, Index(p, level))), level - 1, p)
  {
    ServedIndex(p);
    assert ChildOk(t, owner, f, Index(p, level));
  }

  // ---------- Adding an empty table ----------

  function Empty(): (s: seq<int>)
    ensures |s| == 512 && forall i :: 0 <= i < 512 ==> s[i] == 0
  {
    seq(512, _ => 0)
  }

  function Link(n: int): int {
    Frame(n) + TABLE_BITS
  }

  lemma LinkBits(n: int)
    requires n % PAGE_SIZE == 0
    ensures Present(Link(n)) && Frame(Link(n)) == n
  {
    var q := n / PAGE_SIZE;
    assert n == q * PAGE_SIZE;
    Offset(q, 0);
    Offset(q, TABLE_BITS);
    Odd(true, q * 2048 + 3);
  }

  /** An address in page `q`. */
  lemma Offset(q: int, i: nat)
    requires i < PAGE_SIZE
    ensures (q * PAGE_SIZE + i) % PAGE_SIZE == i && (q * PAGE_SIZE + i) / PAGE_SIZE == q
  {
  }

  lemma Odd(b: bool, n: int)
    ensures ((if b then 1 else 0) + 2 * n) % 2 == 1 <==> b
  {
  }

  function Install(t: Tables, f: int, i: nat, n: int): Tables
    requires f in t && i < |t[f]|
  {
    t[n := Empty()][f := t[f][i := Link(n)]]
  }

  lemma InstallKeepsTree(t: Tables, root: int, owner: map<int, Node>, f: int, i: nat, n: int)
    requires Tree(t, root, owner) && f in t && owner[f].level > 1 && i < Width(owner[f].level)
    requires n !in t && n % PAGE_SIZE == 0 && !Present(t[f][i])
    ensures Tree(Install(t, f, i, n), root, owner[n := owner[f].Child(i)])
  {
    LinkBits(n);
    var t', o' := Install(t, f, i, n), owner[n := owner[f].Child(i)];
    forall g, j | g in t' && o'[g].level > 1 && 0 <= j < Width(o'[g].level) ensures ChildOk(t', o', g, j) {
      if g in t && !(g == f && j == i) {
        assert ChildOk(t, owner, g, j);
      }
    }
  }

  lemma {:induction false} EmptyLeaf(t: Tables, n: int, level: nat, p: nat)
    requires level > 0 && n in t && t[n] == Empty()
    ensures Leaf(t, n, level, p) == 0
  {
  }

  /** Adding an empty table changes no page's leaf entry. */
  lemma {:induction false} InstallKeepsLeaves(t: Tables, root: int, owner: map<int, Node>, f: int, i: nat, n: int,
                                              g: int, level: nat, q: nat)
    requires Tree(t, root, owner) && f in t && owner[f].level > 1 && i < Width(owner[f].level)
    requires n !in t && n % PAGE_SIZE == 0 && !Present(t[f][i])
    requires Served(q) && 1 <= level <= 4 && At(owner, g, level, q)
    ensures Leaf(Install(t, f, i, n), g, level, q) == Leaf(t, g, level, q)
    decreases level
  {
    LinkBits(n);
    var j := Index(q, level);
    if g == f && j == i {
      EmptyLeaf(Install(t, f, i, n), n, level - 1, q);
    } else if level > 1 && Present(Entry(t, g, j)) {
      Child(t, root, owner, g, level, q);
      InstallKeepsLeaves(t, root, owner, f, i, n, Frame(Entry(t, g, j)), level - 1, q);
    }
  }

  // ---------- Writing a leaf entry ----------

  function Write(t: Tables, f: int, i: nat, e: int): Tables
    requires f in t && i < |t[f]|
  {
    t[f := t[f][i := e]]
  }

  lemma WriteKeepsTree(t: Tables, root: int, owner: map<int, Node>, f: int, i: nat, e: int)
    requires Tree(t, root, owner) && f in t && owner[f].level == 1 && i < 512
    ensures Tree(Write(t, f, i, e), root, owner)
  {
    var t' := Write(t, f, i, e);
    forall g, j | g in t' && owner[g].level > 1 && 0 <= j < Width(owner[g].level) ensures ChildOk(t', owner, g, j) {
      assert ChildOk(t, owner, g, j);
    }
  }

  /** Writing the leaf entry of page `p` changes that page's leaf and no other page's. */
  lemma {:induction false} WriteChangesOneLeaf(t: Tables, root: int, owner: map<int, Node>, f: int, e: int, p: nat,
                                               g: int, level: nat, q: nat)
    requires Tree(t, root, owner) && At(owner, f, 1, p)
    requires Served(q) && 1 <= level <= 4 && At(owner, g, level, q)
    requires q == p ==> LeafTable(t, g, level, q) == Some(f)
    ensures Leaf(Write(t, f, Index(p, 1), e), g, level, q) == if q == p then e else Leaf(t, g, level, q)
    decreases level
  {
    if level > 1 && Present(Entry(t, g, Index(q, level))) {
      Child(t, root, owner, g, level, q);
      WriteChangesOneLeaf(t, root, owner, f, e, p, Frame(Entry(t, g, Index(q, level))), level - 1, q);
    }
  }

  /** The leaf table the walk for `p` reaches, if all tables on the way are present. */
  function LeafTable(t: Tables, f: int, level: nat, p: nat): Option<int>
    requires level > 0
    decreases level
  {
    if level == 1 then Some(f)
    else
      var e := Entry(t, f, Index(p, level));
      if Present(e) then LeafTable(t, Frame(e), level - 1, p) else None
  }

  lemma WalkChain(t: Tables, root: int, p: nat, f3: int, f2: int, f1: int)
    requires Present(Entry(t, root, Index(p, 4))) && Frame(Entry(t, root, Index(p, 4))) == f3
    requires Present(Entry(t, f3, Index(p, 3))) && Frame(Entry(t, f3, Index(p, 3))) == f2
    requires Present(Entry(t, f2, Index(p, 2))) && Frame(Entry(t, f2, Index(p, 2))) == f1
    ensures LeafTable(t, root, 4, p) == Some(f1)
    ensures Leaf(t, root, 4, p) == Entry(t, f1, Index(p, 1))
  {
    assert LeafTable(t, f2, 2, p) == LeafTable(t, f1, 1, p);
    assert LeafTable(t, f3, 3, p) == LeafTable(t, f2, 2, p);
    assert Leaf(t, f2, 2, p) == Leaf(t, f1, 1, p);
    assert Leaf(t, f3, 3, p) == Leaf(t, f2, 2, p);
  }

  /** Present entries stay as they are. */
  ghost predicate Grows(t: Tables, t': Tables) {
    forall f, i {:trigger Entry(t', f, i)} :: 0 <= i && Present(Entry(t, f, i)) ==> Entry(t', f, i) == Entry(t, f, i)
  }

  // ---------- Entries for mapped pages ----------

  /** Bitwise or. */
  function Or(a: nat, b: nat): nat {
    if a == 0 && b == 0 then 0
    else (if a % 2 == 1 || b % 2 == 1 then 1 else 0) + 2 * Or(a / 2, b / 2)
  }

  function ShiftRight(a: nat, k: nat): nat {
    if k == 0 then a else ShiftRight(a / 2, k - 1)
  }

  /** The bits from bit `k` up of a bitwise or depend on those bits only. */
  lemma {:induction false} OrHighBits(a: nat, b: nat, k: nat)
    ensures ShiftRight(Or(a, b), k) == Or(ShiftRight(a, k), ShiftRight(b, k))
  {
    if k > 0 {
      assert Or(a, b) / 2 == Or(a / 2, b / 2);
      OrHighBits(a / 2, b / 2, k - 1);
    }
  }

  lemma ShiftTwo(a: nat, k: nat)
    ensures ShiftRight(a, k + 2) == ShiftRight(a / 4, k)
    ensures ShiftRight(a, 0) == a
  {
    assert ShiftRight(a, k + 2) == ShiftRight(a / 2, k + 1) == ShiftRight(a / 2 / 2, k);
  }

  lemma Quarters(a: nat)
    ensures a / 4 / 4 == a / 16 && a / 16 / 4 == a / 64 && a / 64 / 4 == a / 256
    ensures a / 256 / 4 == a / 1024 && a / 1024 / 4 == a / 4096
  {
  }

  lemma PageNumber(a: nat)
    ensures ShiftRight(a, 12) == a / PAGE_SIZE
  {
    hide ShiftRight;
    Quarters(a);
    ShiftTwo(a, 10);
    ShiftTwo(a / 4, 8);
    ShiftTwo(a / 16, 6);
    ShiftTwo(a / 64, 4);
    ShiftTwo(a / 256, 2);
    ShiftTwo(a / 1024, 0);
    ShiftTwo(a / 4096, 0);
  }

  lemma OrPageNumber(a: nat, b: nat)
    ensures Or(a, b) / PAGE_SIZE == Or(a / PAGE_SIZE, b / PAGE_SIZE)
  {
    OrHighBits(a, b, 12);
    PageNumber(a);
    PageNumber(b);
    PageNumber(Or(a, b));
  }

  lemma {:induction false} OrZero(a: nat)
    ensures Or(a, 0) == a
  {
    if a > 0 { OrZero(a / 2); }
  }

  lemma OrOdd(a: nat, b: nat)
    ensures Or(a, b) % 2 == 1 <==> a % 2 == 1 || b % 2 == 1
  {
    var rest := if a == 0 && b == 0 then 0 else Or(a / 2, b / 2);
    assert Or(a, b) == (if a % 2 == 1 || b % 2 == 1 then 1 else 0) + 2 * rest;
    Odd(a % 2 == 1 || b % 2 == 1, rest);
    hide Or;
  }

  /** The entry `paging_map_page` writes. */
  function Pte(phys: nat, flags: nat): nat {
    var pte := Or(Or(Frame(phys), PTE_PRESENT), flags);
    if phys < 0x1_0000_0000 then Or(pte, PTE_GLOBAL) else pte
  }

  /** A mapped page is present; its frame bits are those of `phys` together with
      whatever `flags` sets above bit 11. */
  lemma PteBits(phys: nat, flags: nat)
    ensures Present(Pte(phys, flags))
    ensures Frame(Pte(phys, flags)) == Or(phys / PAGE_SIZE, flags / PAGE_SIZE) * PAGE_SIZE
  {
    hide Or;
    var a := Or(Frame(phys), PTE_PRESENT);
    OrPageNumber(Frame(phys), PTE_PRESENT);
    OrZero(phys / PAGE_SIZE);
    var pte := Or(a, flags);
    OrPageNumber(a, flags);
    OrPageNumber(pte, PTE_GLOBAL);
    OrZero(pte / PAGE_SIZE);
    OrOdd(Frame(phys), PTE_PRESENT);
    OrOdd(a, flags);
    OrOdd(pte, PTE_GLOBAL);
  }

  // ---------- Single bits ----------

  predicate Bit(a: nat, k: nat) { ShiftRight(a, k) % 2 == 1 }

  lemma OrBit(a: nat, b: nat, k: nat)
    ensures Bit(Or(a, b), k) <==> Bit(a, k) || Bit(b, k)
  {
    OrHighBits(a, b, k);
    OrOdd(ShiftRight(a, k), ShiftRight(b, k));
  }

  /** The number whose bit 0 is `b` and whose other bits are those of `y`, one place up. */
  lemma BitCons(y: nat, b: bool, k: nat)
    ensures Bit((if b then 1 else 0) + 2 * y, k) <==> if k == 0 then b else Bit(y, k - 1)
  {
    Odd(b, y);
    assert ((if b then 1 else 0) + 2 * y) / 2 == y;
  }

  function Shifted(q: nat, j: nat): nat { if j == 0 then q else 2 * Shifted(q, j - 1) }

  lemma {:induction false} ShiftedBit(q: nat, j: nat, k: nat)
    ensures Bit(Shifted(q, j), k) <==> k >= j && Bit(q, k - j)
  {
    if j > 0 {
      BitCons(Shifted(q, j - 1), false, k);
      if k > 0 { ShiftedBit(q, j - 1, k - 1); }
    }
  }

  lemma ByFour(q: nat, j: nat)
    ensures Shifted(q, j + 4) == 16 * Shifted(q, j)
  {
    assert Shifted(q, j + 4) == 2 * Shifted(q, j + 3) == 4 * Shifted(q, j + 2) == 8 * Shifted(q, j + 1);
  }

  lemma FrameHasNoFlags(q: nat, k: nat)
    requires k < 12
    ensures !Bit(q * PAGE_SIZE, k)
  {
    ByFour(q, 0);
    ByFour(q, 4);
    ByFour(q, 8);
    assert Shifted(q, 12) == q * PAGE_SIZE;
    hide Shifted, Bit;
    ShiftedBit(q, 12, k);
  }

  lemma {:induction false} ZeroBit(k: nat)
    ensures !Bit(0, k)
  {
    if k > 0 { ZeroBit(k - 1); }
  }

  lemma OneBit(k: nat)
    ensures Bit(PTE_PRESENT, k) <==> k == 0
    ensures Bit(PTE_GLOBAL, k) <==> k == 8
  {
    BitCons(0, true, k);
    if k > 0 { ZeroBit(k - 1); }
    ByFour(1, 0);
    ByFour(1, 4);
    assert Shifted(1, 8) == 256;
    hide Shifted, Bit;
    ShiftedBit(1, 8, k);
    if k >= 8 {
      BitCons(0, true, k - 8);
      if k > 8 { ZeroBit(k - 9); }
    }
  }

  /** The low bits of an entry: present, the flags asked for, and global below 4 GB. */
  lemma PteFlags(phys: nat, flags: nat, k: nat)
    requires k < 12
    ensures Bit(Pte(phys, flags), k) <==> k == 0 || Bit(flags, k) || (k == 8 && phys < 0x1_0000_0000)
  {
    hide Or, Bit;
    var q := phys / PAGE_SIZE;
    assert Frame(phys) == q * PAGE_SIZE;
    FrameHasNoFlags(q, k);
    OneBit(k);
    var a := Or(Frame(phys), PTE_PRESENT);
    OrBit(Frame(phys), PTE_PRESENT, k);
    OrBit(a, flags, k);
    OrBit(Or(a, flags), PTE_GLOBAL, k);
  }

  /** An entry that links a table is present, writable and for users, and nothing else. */
  lemma LinkFlags(n: nat, k: nat)
    requires k < 12
    ensures Bit(Link(n), k) <==> k < 3
  {
    var q := n / PAGE_SIZE;
    assert Frame(n) == q * PAGE_SIZE;
    var y := q * 512;
    assert Link(n) == 1 + 2 * (1 + 2 * (1 + 2 * y));
    BitCons(1 + 2 * (1 + 2 * y), true, k);
    if k > 0 { BitCons(1 + 2 * y, true, k - 1); }
    if k > 1 { BitCons(y, true, k - 2); }
    if k > 2 {
      FrameHasNoFlags(q, k);
      assert q * PAGE_SIZE == Shifted(y, 3) by {
        assert Shifted(y, 3) == 2 * Shifted(y, 2) == 4 * Shifted(y, 1) == 8 * Shifted(y, 0);
      }
      ShiftedBit(y, 3, k);
    }
  }

  /** What `paging_virt_to_phys` answers for an address whose leaf entry is `e`. */
  function Translate(e: int, virt: nat): int {
    if Present(e) then Frame(e) + virt % PAGE_SIZE else 0
  }

  /** A mapped address translates to its physical address exactly when the flags set no
      address bit that the frame does not have already. */
  lemma TranslationExact(virt: nat, phys: nat, flags: nat)
    ensures Translate(Pte(phys, flags), virt) == Frame(phys) + virt % PAGE_SIZE
            <==> Or(phys / PAGE_SIZE, flags / PAGE_SIZE) == phys / PAGE_SIZE
    ensures flags < PAGE_SIZE ==> Translate(Pte(phys, flags), virt) == Frame(phys) + virt % PAGE_SIZE
  {
    PteBits(phys, flags);
    OrZero(phys / PAGE_SIZE);
  }

  lemma {:induction false} OrIsAbove(a: nat, b: nat)
    ensures Or(a, b) >= b
  {
    if a != 0 || b != 0 { OrIsAbove(a / 2, b / 2); }
  }

  /** The no-execute bit is an address bit to the translation: no page mapped with it
      translates to its physical address. */
  lemma NoExecuteSpoilsTranslation(virt: nat, phys: nat, flags: nat)
    requires phys < PTE_NX <= flags
    ensures Translate(Pte(phys, flags), virt) != Frame(phys) + virt % PAGE_SIZE
  {
    hide Or, Pte;
    TranslationExact(virt, phys, flags);
    OrIsAbove(phys / PAGE_SIZE, flags / PAGE_SIZE);
  }

  // ---------- Operations, page by page ----------

  datatype Op =
    | Map(virt: nat, phys: nat, size: nat, flags: nat)
    | Unmap(virt: nat, size: nat)

  /** Pages the region loops visit: one for every started 4096 bytes. */
  function PagesIn(size: nat): nat { (size + PAGE_SIZE - 1) / PAGE_SIZE }

  function MapOne(virt: nat, phys: nat, flags: nat): Op { Map(virt, phys, 1, flags) }

  function UnmapOne(virt: nat): Op { Unmap(virt, 1) }

  /** A 64-bit address and a region that ends before the self-referring slot. */
  predicate InReach(op: Op) { op.virt < TWO64 && op.virt % SPACE + op.size <= OWN_SLOT }

  predicate Covers(op: Op, q: nat) {
    Page(op.virt) <= q < Page(op.virt) + PagesIn(op.size)
  }

  /** Page `q`'s leaf entry after the operation, when it was `e` before. */
  function After(op: Op, q: nat, e: int): int {
    if !Covers(op, q) then e
    else match op
      case Map(virt, phys, _, flags) => Pte((phys + (q - Page(virt)) * PAGE_SIZE) % TWO64, flags)
      case Unmap(_, _) => if Present(e) then 0 else e
  }

  /** One more page of a region. */
  lemma MapOneMore(virt: nat, phys: nat, flags: nat, k: nat, q: nat, e: int)
    requires virt < TWO64 && virt % SPACE + k * PAGE_SIZE < SPACE
    ensures After(Map(virt, phys, (k + 1) * PAGE_SIZE, flags), q, e) ==
            After(MapOne((virt + k * PAGE_SIZE) % TWO64, (phys + k * PAGE_SIZE) % TWO64, flags), q,
                  After(Map(virt, phys, k * PAGE_SIZE, flags), q, e))
  {
    hide Pte, Page, PagesIn;
    PageAt(virt, k);
    WholePages(k);
  }

  lemma UnmapOneMore(virt: nat, k: nat, q: nat, e: int)
    requires virt < TWO64 && virt % SPACE + k * PAGE_SIZE < SPACE
    ensures After(Unmap(virt, (k + 1) * PAGE_SIZE), q, e) ==
            After(UnmapOne((virt + k * PAGE_SIZE) % TWO64), q, After(Unmap(virt, k * PAGE_SIZE), q, e))
  {
    hide Page, PagesIn;
    PageAt(virt, k);
    WholePages(k);
  }

  lemma WholePages(k: nat)
    ensures PagesIn(k * PAGE_SIZE) == k && PagesIn((k + 1) * PAGE_SIZE) == k + 1 && PagesIn(1) == 1
  {
  }

  /** The region loops stop after the last page that the region starts. */
  lemma AllPages(size: nat, k: nat)
    ensures k * PAGE_SIZE < size <==> k < PagesIn(size)
  {
  }

  lemma NoPages(op: Op, q: nat, e: int)
    requires PagesIn(op.size) == 0
    ensures After(op, q, e) == e
  {
  }

  /** Only the number of pages matters. */
  lemma SamePages(op: Op, size: nat, q: nat, e: int)
    requires PagesIn(op.size) == PagesIn(size)
    ensures After(op.(size := size), q, e) == After(op, q, e)
  {
  }

  function AfterAll(ops: seq<Op>, q: nat, e: int): int {
    if ops == [] then e else After(ops[|ops| - 1], q, AfterAll(ops[..|ops| - 1], q, e))
  }

  function TotalPages(ops: seq<Op>): nat {
    if ops == [] then 0 else PagesIn(ops[0].size) + TotalPages(ops[1..])
  }

  /** `ops[i]` is the last operation that covers page `q`. */
  ghost predicate LastOn(ops: seq<Op>, q: nat, i: nat) {
    i < |ops| && Covers(ops[i], q) && forall j :: i < j < |ops| ==> !Covers(ops[j], q)
  }

  /** After any run on a page that was unmapped, the page answers with the mapping of the
      last operation that covers it: nothing else in the run matters. */
  lemma {:induction false} LastOperationDecides(ops: seq<Op>, q: nat, i: nat, virt: nat)
    requires Page(virt) == q
    requires Served(q) && forall j :: 0 <= j < |ops| ==> InReach(ops[j])
    requires LastOn(ops, q, i) || forall j :: 0 <= j < |ops| ==> !Covers(ops[j], q)
    ensures Translate(AfterAll(ops, q, 0), virt) ==
      if LastOn(ops, q, i) && ops[i].Map? then
        var frame := (ops[i].phys + (q - Page(ops[i].virt)) * PAGE_SIZE) % TWO64;
        Or(frame / PAGE_SIZE, ops[i].flags / PAGE_SIZE) * PAGE_SIZE + virt % PAGE_SIZE
      else 0
  {
    if ops != [] {
      var n := |ops| - 1;
      if LastOn(ops, q, i) && i == n {
        if ops[n].Map? {
          PteBits((ops[n].phys + (q - Page(ops[n].virt)) * PAGE_SIZE) % TWO64, ops[n].flags);
        }
      } else {
        LastOperationDecides(ops[..n], q, i, virt);
      }
    }
  }

  /** The same for the low bits of its entry: permissions, cache flags and the global bit. */
  lemma {:induction false} LastOperationSetsFlags(ops: seq<Op>, q: nat, i: nat, k: nat)
    requires Served(q) && forall j :: 0 <= j < |ops| ==> InReach(ops[j])
    requires LastOn(ops, q, i) && ops[i].Map? && k < 12
    ensures var e, frame := AfterAll(ops, q, 0), (ops[i].phys + (q - Page(ops[i].virt)) * PAGE_SIZE) % TWO64;
      e >= 0 && (Bit(e, k) <==> k == 0 || Bit(ops[i].flags, k) || (k == 8 && frame < 0x1_0000_0000))
  {
    var n := |ops| - 1;
    if i == n {
      PteFlags((ops[n].phys + (q - Page(ops[n].virt)) * PAGE_SIZE) % TWO64, ops[n].flags, k);
    } else {
      LastOperationSetsFlags(ops[..n], q, i, k);
    }
  }

  lemma {:induction false} ZeroOrPresent(ops: seq<Op>, q: nat)
    ensures AfterAll(ops, q, 0) == 0 || Present(AfterAll(ops, q, 0))
  {
    if ops != [] {
      var n := |ops| - 1;
      ZeroOrPresent(ops[..n], q);
      if Covers(ops[n], q) && ops[n].Map? {
        PteBits((ops[n].phys + (q - Page(ops[n].virt)) * PAGE_SIZE) % TWO64, ops[n].flags);
      }
    }
  }

  /** A page that was unmapped last, or never mapped, has an entry of zero. */
  lemma {:induction false} UnmappedIsZero(ops: seq<Op>, q: nat, i: nat)
    requires forall j :: 0 <= j < |ops| ==> InReach(ops[j])
    requires (LastOn(ops, q, i) && ops[i].Unmap?) || forall j :: 0 <= j < |ops| ==> !Covers(ops[j], q)
    ensures AfterAll(ops, q, 0) == 0
  {
    if ops != [] {
      var n := |ops| - 1;
      if LastOn(ops, q, i) && i == n {
        ZeroOrPresent(ops[..n], q);
      } else {
        UnmappedIsZero(ops[..n], q, i);
      }
    }
  }

  /** An operation covers exactly the pages of the addresses `virt`, `virt + 4096` and so on
      that lie in its region. */
  lemma CoversExact(op: Op, q: nat)
    requires InReach(op)
    ensures Covers(op, q) <==> exists k: nat :: k * PAGE_SIZE < op.size && Page((op.virt + k * PAGE_SIZE) % TWO64) == q
  {
    hide Page;
    forall k: nat | k * PAGE_SIZE < op.size
      ensures Page((op.virt + k * PAGE_SIZE) % TWO64) == Page(op.virt) + k && k < PagesIn(op.size)
    {
      AllPages(op.size, k);
      PageAt(op.virt, k);
    }
    if Covers(op, q) {
      var k := q - Page(op.virt);
      AllPages(op.size, k);
      assert Page((op.virt + k * PAGE_SIZE) % TWO64) == q;
    }
  }

  // ---------- The tables in use ----------

  /** Frames the table allocator will return, in order. */
  ghost predicate Supply(t: Tables, pool: seq<int>) {
    && (forall i :: 0 <= i < |pool| ==> pool[i] !in t && pool[i] % PAGE_SIZE == 0)
    && (forall i, j :: 0 <= i < j < |pool| ==> pool[i] != pool[j])
  }

  class PageTables {
    const root: int
    var tables: Tables
    var pool: seq<int>
    ghost var owner: map<int, Node>

    ghost predicate Valid()
      reads this
    {
      Tree(tables, root, owner) && Supply(tables, pool)
    }

    /** The leaf entry in force for page `p`; this is the finite map the tables stand for. */
    ghost function Entries(p: nat): int
      reads this
    {
      Leaf(tables, root, 4, p)
    }

    /** The last entry of `pml4` may be anything; `paging_init` makes it refer to `pml4`. */
    constructor (root: int, pml4: seq<int>, pool: seq<int>)
      requires |pml4| == 512 && forall i :: 0 <= i < 511 ==> !Present(pml4[i])
      requires Supply(map[root := pml4], pool)
      ensures Valid() && this.root == root && this.pool == pool
      ensures forall q: nat :: Served(q) ==> Entries(q) == 0
    {
      this.root := root;
      tables := map[root := pml4];
      this.pool := pool;
      owner := map[root := Node(4, 0)];
      new;
      forall q: nat | Served(q) ensures Entries(q) == 0 {
        ServedIndex(q);
      }
    }

    /** One level of the walk: follows entry `i` of table `f`, adding an empty table if asked to. */
    method Descend(f: int, i: nat, create: bool, ghost level: nat, ghost p: nat) returns (next: Option<int>)
      requires Valid() && Served(p) && 1 < level <= 4 && At(owner, f, level, p) && i == Index(p, level)
      requires create ==> |pool| >= 1
      modifies this
      ensures Valid() && Grows(old(tables), tables)
      ensures |pool| >= old(|pool|) - 1
      ensures forall g :: g in old(owner) ==> g in owner && owner[g] == old(owner)[g]
      ensures forall q: nat :: Served(q) ==> Entries(q) == old(Entries(q))
      ensures !create ==> unchanged(this)
      ensures next.None? ==> !create && !Present(Entry(tables, f, i))
      ensures next.Some? ==> Present(Entry(tables, f, i)) && Frame(Entry(tables, f, i)) == next.value
                             && At(owner, next.value, level - 1, p)
    {
      ServedIndex(p);
      if !Present(tables[f][i]) {
        if !create { return None; }
        var n := pool[0];
        ghost var t := tables;
        LinkBits(n);
        InstallKeepsTree(t, root, owner, f, i, n);
        forall q: nat | Served(q) ensures Leaf(Install(t, f, i, n), root, 4, q) == Leaf(t, root, 4, q) {
          ServedIndex(q);
          InstallKeepsLeaves(t, root, owner, f, i, n, root, 4, q);
        }
        owner := owner[n := owner[f].Child(i)];
        tables := Install(tables, f, i, n);
        pool := pool[1..];
      }
      Child(tables, root, owner, f, level, p);
      return Some(Frame(tables[f][i]));
    }

    /** The leaf table and index for `virt`. With `create` it adds the missing tables, all empty. */
    method Walk(virt: nat, create: bool) returns (r: Option<(int, nat)>)
      requires Valid() && virt < TWO64 && Served(Page(virt))
      requires create ==> |pool| >= 3
      modifies this
      ensures Valid() && Grows(old(tables), tables)
      ensures |pool| >= old(|pool|) - 3
      ensures forall q: nat :: Served(q) ==> Entries(q) == old(Entries(q))
      ensures !create ==> unchanged(this)
      ensures r.None? ==> !create && Entries(Page(virt)) == 0
      ensures r.Some? ==>
        && At(owner, r.value.0, 1, Page(virt)) && r.value.1 == Index(Page(virt), 1)
        && LeafTable(tables, root, 4, Page(virt)) == Some(r.value.0)
        && Entry(tables, r.value.0, r.value.1) == Entries(Page(virt))
    {
      ghost var p := Page(virt);
      ServedIndex(p);
      Digits(virt);
      var pml4, pdp, pd, pt := virt / 0x80_0000_0000 % 512, virt / 0x4000_0000 % 512, virt / 0x20_0000 % 512,
                               virt / 0x1000 % 512;
      var f3 := Descend(root, pml4, create, 4, p);
      if f3.None? { return None; }
      var f2 := Descend(f3.value, pdp, create, 3, p);
      if f2.None? {
        assert Leaf(tables, f3.value, 3, p) == 0;
        return None;
      }
      var f1 := Descend(f2.value, pd, create, 2, p);
      if f1.None? {
        assert Leaf(tables, f2.value, 2, p) == 0;
        assert Leaf(tables, f3.value, 3, p) == 0;
        return None;
      }
      WalkChain(tables, root, p, f3.value, f2.value, f1.value);
      return Some((f1.value, pt));
    }

    /** Sets the leaf entry at table `f`, index `i`, which serves page `p`. */
    method SetLeaf(f: int, i: nat, e: int, ghost p: nat)
      requires Valid() && Served(p) && At(owner, f, 1, p) && i == Index(p, 1)
      requires LeafTable(tables, root, 4, p) == Some(f)
      modifies this
      ensures Valid() && pool == old(pool)
      ensures forall q: nat :: Served(q) ==> Entries(q) == if q == p then e else old(Entries(q))
    {
      ghost var t := tables;
      WriteKeepsTree(t, root, owner, f, i, e);
      forall q: nat | Served(q)
        ensures Leaf(Write(t, f, i, e), root, 4, q) == if q == p then e else Leaf(t, root, 4, q)
      {
        ServedIndex(q);
        WriteChangesOneLeaf(t, root, owner, f, e, p, root, 4, q);
      }
      tables := Write(tables, f, i, e);
    }

    method MapPage(virt: nat, phys: nat, flags: nat)
      requires Valid() && virt < TWO64 && Served(Page(virt)) && phys < TWO64 && |pool| >= 3
      modifies this
      ensures Valid() && |pool| >= old(|pool|) - 3
      ensures forall q: nat :: Served(q) ==> Entries(q) == After(MapOne(virt, phys, flags), q, old(Entries(q)))
    {
      hide Pte;
      var entry := Walk(virt, true);
      SetLeaf(entry.value.0, entry.value.1, Pte(phys, flags), Page(virt));
    }

    method UnmapPage(virt: nat)
      requires Valid() && virt < TWO64 && Served(Page(virt))
      modifies this
      ensures Valid() && pool == old(pool)
      ensures forall q: nat :: Served(q) ==> Entries(q) == After(UnmapOne(virt), q, old(Entries(q)))
    {
      var entry := Walk(virt, false);
      if entry.None? || !Present(tables[entry.value.0][entry.value.1]) { return; }
      SetLeaf(entry.value.0, entry.value.1, 0, Page(virt));
    }

    method VirtToPhys(virt: nat) returns (phys: int)
      requires Valid() && virt < TWO64 && Served(Page(virt))
      modifies this
      ensures unchanged(this)
      ensures phys == Translate(Entries(Page(virt)), virt)
    {
      var entry := Walk(virt, false);
      if entry.None? || !Present(tables[entry.value.0][entry.value.1]) { return 0; }
      phys := Frame(tables[entry.value.0][entry.value.1]) + virt % 0x1000;
    }

    method MapRegion(virt: nat, phys: nat, size: nat, flags: nat)
      requires Valid() && virt < TWO64 && virt % SPACE + size <= OWN_SLOT && |pool| >= 3 * PagesIn(size)
      modifies this
      ensures Valid() && |pool| >= old(|pool|) - 3 * PagesIn(size)
      ensures forall q: nat :: Served(q) ==> Entries(q) == After(Map(virt, phys, size, flags), q, old(Entries(q)))
    {
      hide Pte, Page, PagesIn, After, Entries;
      var offset := 0;
      ghost var k := 0;
      WholePages(0);
      forall q: nat, e: int ensures After(Map(virt, phys, 0, flags), q, e) == e {
        NoPages(Map(virt, phys, 0, flags), q, e);
      }
      AllPages(size, 0);
      while offset < size
        invariant Valid() && k <= PagesIn(size) && offset == k * PAGE_SIZE
        invariant offset < size <==> k < PagesIn(size)
        invariant |pool| >= old(|pool|) - 3 * k
        invariant forall q: nat :: Served(q) ==>
                    Entries(q) == After(Map(virt, phys, k * PAGE_SIZE, flags), q, old(Entries(q)))
      {
        assert virt % SPACE + k * PAGE_SIZE < OWN_SLOT;
        PageAt(virt, k);
        PageIsServed(virt, k);
        MapPage((virt + offset) % TWO64, (phys + offset) % TWO64, flags);
        forall q: nat | Served(q)
          ensures Entries(q) == After(Map(virt, phys, (k + 1) * PAGE_SIZE, flags), q, old(Entries(q)))
        {
          MapOneMore(virt, phys, flags, k, q, old(Entries(q)));
        }
        offset := offset + PAGE_SIZE;
        k := k + 1;
        AllPages(size, k);
      }
      WholePages(k);
      forall q: nat | Served(q) ensures Entries(q) == After(Map(virt, phys, size, flags), q, old(Entries(q))) {
        SamePages(Map(virt, phys, k * PAGE_SIZE, flags), size, q, old(Entries(q)));
      }
    }

    method UnmapRegion(virt: nat, size: nat)
      requires Valid() && virt < TWO64 && virt % SPACE + size <= OWN_SLOT
      modifies this
      ensures Valid() && pool == old(pool)
      ensures forall q: nat :: Served(q) ==> Entries(q) == After(Unmap(virt, size), q, old(Entries(q)))
    {
      hide Pte, Page, PagesIn, After, Entries;
      var offset := 0;
      ghost var k := 0;
      WholePages(0);
      forall q: nat, e: int ensures After(Unmap(virt, 0), q, e) == e { NoPages(Unmap(virt, 0), q, e); }
      AllPages(size, 0);
      while offset < size
        invariant Valid() && k <= PagesIn(size) && offset == k * PAGE_SIZE
        invariant offset < size <==> k < PagesIn(size)
        invariant pool == old(pool)
        invariant forall q: nat :: Served(q) ==> Entries(q) == After(Unmap(virt, k * PAGE_SIZE), q, old(Entries(q)))
      {
        assert virt % SPACE + k * PAGE_SIZE < OWN_SLOT;
        PageAt(virt, k);
        PageIsServed(virt, k);
        UnmapPage((virt + offset) % TWO64);
        forall q: nat | Served(q)
          ensures Entries(q) == After(Unmap(virt, (k + 1) * PAGE_SIZE), q, old(Entries(q)))
        {
          UnmapOneMore(virt, k, q, old(Entries(q)));
        }
        offset := offset + PAGE_SIZE;
        k := k + 1;
        AllPages(size, k);
      }
      WholePages(k);
      forall q: nat | Served(q) ensures Entries(q) == After(Unmap(virt, size), q, old(Entries(q))) {
        SamePages(Unmap(virt, k * PAGE_SIZE), size, q, old(Entries(q)));
      }
    }

    /** Any run of region and page operations: the tables answer like the page-by-page model. */
    method Execute(ops: seq<Op>)
      requires Valid()
      requires forall i :: 0 <= i < |ops| ==> InReach(ops[i])
      requires |pool| >= 3 * TotalPages(ops)
      modifies this
      ensures Valid()
      ensures forall q: nat :: Served(q) ==> Entries(q) == AfterAll(ops, q, old(Entries(q)))
    {
      hide Pte, After;
      for n := 0 to |ops|
        invariant Valid() && |pool| >= 3 * TotalPages(ops[n..])
        invariant forall q: nat :: Served(q) ==> Entries(q) == AfterAll(ops[..n], q, old(Entries(q)))
      {
        assert ops[..n + 1][..n] == ops[..n];
        assert ops[n..][0] == ops[n] && ops[n..][1..] == ops[n + 1..];
        match ops[n]
        case Map(virt, phys, size, flags) => MapRegion(virt, phys, size, flags);
        case Unmap(virt, size) => UnmapRegion(virt, size);
      }
      assert ops[..|ops|] == ops;
    }
  }

  /** The four table indices, as the source shifts and masks them out of the address. */
  lemma Digits(virt: nat)
    ensures Index(Page(virt), 4) == virt / 0x80_0000_0000 % 512
    ensures Index(Page(virt), 3) == virt / 0x4000_0000 % 512
    ensures Index(Page(virt), 2) == virt / 0x20_0000 % 512
    ensures Index(Page(virt), 1) == virt / 0x1000 % 512
  {
    var p := Page(virt);
    assert Prefix(p, 0) == p;
    assert Prefix(p, 1) == p / 512;
    assert Prefix(p, 2) == Prefix(p, 1) / 512;
    assert Prefix(p, 3) == Prefix(p, 2) / 512;
    HighDigits(virt);
  }

  lemma HighDigits(virt: nat)
    ensures Page(virt) % 512 == virt / 0x1000 % 512
    ensures Page(virt) / 512 % 512 == virt / 0x20_0000 % 512
    ensures Page(virt) / 512 / 512 % 512 == virt / 0x4000_0000 % 512
    ensures Page(virt) / 512 / 512 / 512 % 512 == virt / 0x80_0000_0000 % 512
  {
    hide Page;
    PageDigits(virt);
    var n := virt / 0x1000;
    NextDigits(n);
    assert virt / 0x20_0000 == n / 512;
    assert virt / 0x4000_0000 == n / 512 / 512;
    assert virt / 0x80_0000_0000 == n / 512 / 512 / 512;
  }

  lemma PageDigits(virt: nat)
    ensures Page(virt) == virt / 0x1000 % 0x10_0000_0000
  {
    var h, l := virt / SPACE, virt % SPACE;
    assert virt == h * SPACE + l;
    assert virt / 0x1000 == h * 0x10_0000_0000 + l / 0x1000;
  }

  lemma NextDigits(n: nat)
    ensures n % 0x10_0000_0000 % 512 == n % 512
    ensures n % 0x10_0000_0000 / 512 % 512 == n / 512 % 512
    ensures n % 0x10_0000_0000 / 512 / 512 % 512 == n / 512 / 512 % 512
    ensures n % 0x10_0000_0000 / 512 / 512 / 512 % 512 == n / 512 / 512 / 512 % 512
  {
    var h, l := n / 0x10_0000_0000, n % 0x10_0000_0000;
    assert n == h * 0x10_0000_0000 + l;
    assert n / 512 == h * 0x800_0000 + l / 512;
    assert n / 512 / 512 == h * 0x4_0000 + l / 512 / 512;
    assert n / 512 / 512 / 512 == h * 512 + l / 512 / 512 / 512;
  }

  /** The pages of a region that does not reach the self-referring slot follow each other. */
  lemma PageAt(virt: nat, k: nat)
    requires virt < TWO64 && virt % SPACE + k * PAGE_SIZE < SPACE
    ensures Page((virt + k * PAGE_SIZE) % TWO64) == Page(virt) + k
  {
    var h, l := virt / SPACE, virt % SPACE + k * PAGE_SIZE;
    assert virt + k * PAGE_SIZE == h * SPACE + l && h < 0x1_0000;
    InSpace(h, l);
    Offset(virt % SPACE / PAGE_SIZE + k, virt % SPACE % PAGE_SIZE);
  }

  lemma PageIsServed(virt: nat, k: nat)
    requires virt % SPACE + k * PAGE_SIZE < OWN_SLOT
    ensures Served(Page(virt) + k)
  {
  }

  lemma InSpace(h: nat, l: nat)
    requires l < SPACE && h < 0x1_0000
    ensures (h * SPACE + l) % TWO64 == h * SPACE + l && (h * SPACE + l) % SPACE == l
  {
  }
}
