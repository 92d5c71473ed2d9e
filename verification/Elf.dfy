/** The ELF64 loader of kernel/fs/elf.c. The image lies at address `bin` of the same memory
    that the segments are copied to. */
module Elf {
  import opened Machine
  import opened Bytes

  const HEADER: nat := 64
  const PHDR: nat := 56
  const PT_LOAD: nat := 1
  const ELF_MAGIC: nat := 0x464C_457F

  datatype Phdr = Phdr(kind: nat, offset: nat, vaddr: nat, filesz: nat, memsz: nat) {
    /** Bytes of memory the segment writes. */
    function Span(): nat { if filesz > memsz then filesz else memsz }
    predicate Loads() { kind == PT_LOAD }
  }

  datatype Loaded = Loaded(data: nat, size: nat, entry: nat, loadBase: nat)

  datatype Image = Image(magic: nat, class_: nat, kind: nat, entry: nat, phoff: nat, phentsize: nat, phnum: nat)

  function HeaderAt(m: seq<byte>, a: nat): Image
    requires a + HEADER <= |m|
  {
    Image(Load(m, a, 4), m[a + 4], Load(m, a + 16, 2), Load(m, a + 24, 8), Load(m, a + 32, 8),
          Load(m, a + 54, 2), Load(m, a + 56, 2))
  }

  function PhdrAt(m: seq<byte>, a: nat): Phdr
    requires a + PHDR <= |m|
  {
    Phdr(Load(m, a, 4), Load(m, a + 8, 8), Load(m, a + 16, 8), Load(m, a + 32, 8), Load(m, a + 40, 8))
  }

  lemma PhdrFrame(m: seq<byte>, m': seq<byte>, a: nat)
    requires |m| == |m'| && a + PHDR <= |m| && forall x :: a <= x < a + PHDR ==> m[x] == m'[x]
    ensures PhdrAt(m, a) == PhdrAt(m', a)
  {
    LoadFrame(m, m', a, 4);
    LoadFrame(m, m', a + 8, 8);
    LoadFrame(m, m', a + 16, 8);
    LoadFrame(m, m', a + 32, 8);
    LoadFrame(m, m', a + 40, 8);
  }

  predicate Recognised(h: Image) {
    h.magic == ELF_MAGIC && h.class_ == 2 && (h.kind == 2 || h.kind == 3)
  }

  /** The checks before the first segment. */
  predicate Accepted(h: Image, size: nat) {
    Recognised(h) && (h.phoff + h.phentsize * h.phnum) % TWO64 <= size
  }

  /** The program headers of an accepted image. */
  function Phdrs(m: seq<byte>, bin: nat, h: Image): (ps: seq<Phdr>)
    requires bin + h.phoff + h.phnum * PHDR <= |m|
    ensures |ps| == h.phnum
  {
    seq(h.phnum, i requires 0 <= i < h.phnum => PhdrAt(m, bin + h.phoff + i * PHDR))
  }

  predicate Apart(a: nat, n: nat, b: nat, k: nat) { a + n <= b || b + k <= a }

  /** What the loader relies on: program headers inside the image, no wrap-around, and
      segments that lie in memory apart from the image. They may overlap each other. */
  ghost predicate WellPlaced(m: seq<byte>, bin: nat, size: nat, h: Image, ps: seq<Phdr>) {
    && h.phoff + h.phnum * PHDR <= size
    && bin + size <= |m| <= TWO64
    && (forall i :: 0 <= i < |ps| && ps[i].Loads() ==>
          && ps[i].offset + ps[i].filesz < TWO64 && ps[i].vaddr + ps[i].Span() <= |m|
          && Apart(ps[i].vaddr, ps[i].Span(), bin, size))
  }

  predicate Fits(p: Phdr, size: nat) { p.Loads() ==> p.offset + p.filesz <= size }

  /** The segment's memory: its file bytes, then zeros up to its memory size. */
  ghost predicate InMemory(m: seq<byte>, image: seq<byte>, p: Phdr) {
    && p.vaddr + p.Span() <= |m| && p.offset + p.filesz <= |image|
    && m[p.vaddr..p.vaddr + p.filesz] == image[p.offset..p.offset + p.filesz]
    && (forall x :: p.vaddr + p.filesz <= x < p.vaddr + p.memsz ==> m[x] == 0)
  }

  predicate Covers(p: Phdr, x: nat) { p.Loads() && p.vaddr <= x < p.vaddr + p.Span() }

  /** The byte a segment puts at an address it covers. */
  function ByteOf(p: Phdr, image: seq<byte>, x: nat): byte {
    if p.vaddr <= x < p.vaddr + p.filesz && p.offset + (x - p.vaddr) < |image| then image[p.offset + (x - p.vaddr)]
    else 0
  }

  /** The byte at `x` after the first `n` segments. */
  function Content(m0: seq<byte>, image: seq<byte>, ps: seq<Phdr>, n: nat, x: nat): byte
    requires n <= |ps| && x < |m0|
  {
    if n == 0 then m0[x]
    else if Covers(ps[n - 1], x) then ByteOf(ps[n - 1], image, x)
    else Content(m0, image, ps, n - 1, x)
  }

  /** The first `n` segments are in memory and nothing else has changed. */
  ghost predicate LoadedUpTo(m: seq<byte>, m0: seq<byte>, image: seq<byte>, ps: seq<Phdr>, n: nat)
    requires n <= |ps|
  {
    |m| == |m0| && forall x :: 0 <= x < |m| ==> m[x] == Content(m0, image, ps, n, x)
  }

  /** The last segment that covers an address decides its byte; without one it is as before. */
  lemma {:induction false} LastSegmentDecides(m0: seq<byte>, image: seq<byte>, ps: seq<Phdr>, n: nat, i: nat, x: nat)
    requires i <= n <= |ps| && x < |m0|
    requires forall j :: i <= j < n ==> !Covers(ps[j], x)
    requires i > 0 ==> Covers(ps[i - 1], x)
    ensures Content(m0, image, ps, n, x) == if i == 0 then m0[x] else ByteOf(ps[i - 1], image, x)
  {
    if i < n { LastSegmentDecides(m0, image, ps, n - 1, i, x); }
  }

  /** A segment that no later one overlaps is in memory as a whole: file bytes, then zeros. */
  lemma SegmentInMemory(m: seq<byte>, m0: seq<byte>, image: seq<byte>, ps: seq<Phdr>, n: nat, i: nat)
    requires i < n <= |ps| && LoadedUpTo(m, m0, image, ps, n) && ps[i].Loads()
    requires Fits(ps[i], |image|) && ps[i].vaddr + ps[i].Span() <= |m|
    requires forall j :: i < j < n && ps[j].Loads() ==> Apart(ps[i].vaddr, ps[i].Span(), ps[j].vaddr, ps[j].Span())
    ensures InMemory(m, image, ps[i])
  {
    var p := ps[i];
    forall x | p.vaddr <= x < p.vaddr + p.Span() ensures m[x] == ByteOf(p, image, x) {
      LastSegmentDecides(m0, image, ps, n, i + 1, x);
    }
    assert m[p.vaddr..p.vaddr + p.filesz] == image[p.offset..p.offset + p.filesz];
  }

  /** The least segment address so far; all ones when there is none. */
  function LoadBase(ps: seq<Phdr>, n: nat): nat
    requires n <= |ps|
  {
    if n == 0 then TWO64 - 1
    else
      var b := LoadBase(ps, n - 1);
      if ps[n - 1].Loads() && ps[n - 1].vaddr < b then ps[n - 1].vaddr else b
  }

  lemma {:induction false} LoadBaseIsLeast(ps: seq<Phdr>, n: nat)
    requires n <= |ps| && forall i :: 0 <= i < n && ps[i].Loads() ==> ps[i].vaddr < TWO64
    ensures forall i :: 0 <= i < n && ps[i].Loads() ==> LoadBase(ps, n) <= ps[i].vaddr
    ensures LoadBase(ps, n) == TWO64 - 1 || exists i :: 0 <= i < n && ps[i].Loads() && ps[i].vaddr == LoadBase(ps, n)
  {
    if n > 0 { LoadBaseIsLeast(ps, n - 1); }
  }

  method Memcpy(mem: array<byte>, dst: nat, src: nat, n: nat)
    requires dst + n <= mem.Length && src + n <= mem.Length && Apart(dst, n, src, n)
    modifies mem
    ensures forall x :: 0 <= x < mem.Length ==>
              mem[x] == if dst <= x < dst + n then old(mem[src + (x - dst)]) else old(mem[x])
  {
    for i := 0 to n
      invariant forall x :: 0 <= x < mem.Length ==>
                  mem[x] == if dst <= x < dst + i then old(mem[src + (x - dst)]) else old(mem[x])
    {
      mem[dst + i] := mem[src + i];
    }
  }

  method Memset0(mem: array<byte>, dst: nat, n: nat)
    requires dst + n <= mem.Length
    modifies mem
    ensures forall x :: 0 <= x < mem.Length ==> mem[x] == if dst <= x < dst + n then 0 else old(mem[x])
  {
    for i := 0 to n
      invariant forall x :: 0 <= x < mem.Length ==> mem[x] == if dst <= x < dst + i then 0 else old(mem[x])
    {
      mem[dst + i] := 0;
    }
  }

  /** Copies one segment and clears its tail. */
  method LoadSegment(mem: array<byte>, bin: nat, size: nat, p: Phdr)
    requires bin + size <= mem.Length && p.offset + p.filesz <= size
    requires p.vaddr + p.Span() <= mem.Length && Apart(p.vaddr, p.Span(), bin, size)
    modifies mem
    ensures InMemory(mem[..], old(mem[bin..bin + size]), p)
    ensures mem[bin..bin + size] == old(mem[bin..bin + size])
    ensures forall x :: 0 <= x < mem.Length && !(p.vaddr <= x < p.vaddr + p.Span()) ==> mem[x] == old(mem[x])
  {
    ghost var m0 := mem[..];
    Memcpy(mem, p.vaddr, bin + p.offset, p.filesz);
    if p.memsz > p.filesz {
      Memset0(mem, p.vaddr + p.filesz, p.memsz - p.filesz);
    }
    SegmentPlaced(mem[..], m0, bin, size, p);
    hide InMemory;
    assert m0[bin..bin + size] == old(mem[bin..bin + size]);
  }

  /** Byte by byte: a copy of the file bytes, zeros after it, and the rest as it was. */
  lemma SegmentPlaced(m: seq<byte>, m0: seq<byte>, bin: nat, size: nat, p: Phdr)
    requires |m| == |m0| && bin + size <= |m| && p.offset + p.filesz <= size
    requires p.vaddr + p.Span() <= |m| && Apart(p.vaddr, p.Span(), bin, size)
    requires forall x :: p.vaddr <= x < p.vaddr + p.filesz ==> m[x] == m0[bin + p.offset + (x - p.vaddr)]
    requires forall x :: p.vaddr + p.filesz <= x < p.vaddr + p.memsz ==> m[x] == 0
    requires forall x :: 0 <= x < |m| && !(p.vaddr <= x < p.vaddr + p.Span()) ==> m[x] == m0[x]
    ensures InMemory(m, m0[bin..bin + size], p) && m[bin..bin + size] == m0[bin..bin + size]
  {
    var image := m0[bin..bin + size];
    var copy, file := m[p.vaddr..p.vaddr + p.filesz], image[p.offset..p.offset + p.filesz];
    forall i | 0 <= i < p.filesz ensures copy[i] == file[i] {
      assert copy[i] == m[p.vaddr + i] && file[i] == image[p.offset + i] == m0[bin + p.offset + i];
    }
    assert copy == file;
    forall i | 0 <= i < size ensures m[bin..bin + size][i] == image[i] {
      assert m[bin + i] == m0[bin + i];
    }
  }

  /** The first segment whose file bytes run past the end of the image. */
  function FirstUnfit(ps: seq<Phdr>, size: nat, i: nat := 0): (n: nat)
    requires i <= |ps|
    ensures i <= n <= |ps| && (n < |ps| ==> !Fits(ps[n], size)) && forall j :: i <= j < n ==> Fits(ps[j], size)
    decreases |ps| - i
  {
    if i == |ps| || !Fits(ps[i], size) then i else FirstUnfit(ps, size, i + 1)
  }

  /** The segment loop. It reads the program headers from memory as it goes along. */
  method LoadSegments(mem: array<byte>, bin: nat, size: nat, h: Image, ghost m0: seq<byte>, ghost ps: seq<Phdr>)
    returns (ok: bool, base: nat)
    requires m0 == mem[..] && h.phoff + h.phnum * PHDR <= size && bin + size <= mem.Length
    requires ps == Phdrs(m0, bin, h) && WellPlaced(m0, bin, size, h, ps)
    modifies mem
    ensures ok <==> FirstUnfit(ps, size) == |ps|
    ensures LoadedUpTo(mem[..], m0, m0[bin..bin + size], ps, FirstUnfit(ps, size))
    ensures ok ==> base == LoadBase(ps, |ps|)
  {
    hide InMemory, PhdrAt, LoadedUpTo;
    NoSegments(m0, m0[bin..bin + size], ps);
    base := TWO64 - 1;
    for i := 0 to h.phnum
      invariant LoadedUpTo(mem[..], m0, m0[bin..bin + size], ps, i)
      invariant base == LoadBase(ps, i) && FirstUnfit(ps, size) == FirstUnfit(ps, size, i)
      invariant mem[bin..bin + size] == m0[bin..bin + size]
    {
      var p := ReadPhdr(mem, bin, size, h, i, m0, ps);
      if p.Loads() {
        if p.vaddr < base { base := p.vaddr; }
        if (p.offset + p.filesz) % TWO64 > size { return false, base; }
        ghost var m := mem[..];
        LoadSegment(mem, bin, size, p);
        NextSegment(mem[..], m, m0, m0[bin..bin + size], ps, i);
      } else {
        SkipSegment(mem[..], m0, m0[bin..bin + size], ps, i);
      }
    }
    return true, base;
  }

  method ReadPhdr(mem: array<byte>, bin: nat, size: nat, h: Image, i: nat, ghost m0: seq<byte>, ghost ps: seq<Phdr>)
    returns (p: Phdr)
    requires |m0| == mem.Length && i < h.phnum && h.phoff + h.phnum * PHDR <= size && bin + size <= mem.Length
    requires ps == Phdrs(m0, bin, h) && mem[bin..bin + size] == m0[bin..bin + size]
    ensures p == ps[i]
  {
    var a := bin + h.phoff + i * PHDR;
    assert i * PHDR + PHDR <= h.phnum * PHDR;
    forall x | a <= x < a + PHDR ensures mem[..][x] == m0[x] {
      assert mem[bin..bin + size][x - bin] == m0[bin..bin + size][x - bin];
    }
    PhdrFrame(mem[..], m0, a);
    p := PhdrAt(mem[..], a);
  }

  /** Success means every segment is in memory and nothing else has changed; a segment that
      does not fit stops the load with the earlier ones in place; any other failure changes nothing. */
  method ElfLoad(mem: array<byte>, bin: nat, size: nat) returns (ret: int, out: Loaded)
    requires bin != 0 ==> bin + size <= mem.Length
    requires bin != 0 && size >= HEADER && Recognised(HeaderAt(mem[..], bin)) ==>
      HeaderAt(mem[..], bin).phentsize * HeaderAt(mem[..], bin).phnum < 0x8000_0000
    requires bin != 0 && size >= HEADER && Accepted(HeaderAt(mem[..], bin), size) ==>
      var h := HeaderAt(mem[..], bin);
      h.phoff + h.phnum * PHDR <= size && WellPlaced(mem[..], bin, size, h, Phdrs(mem[..], bin, h))
    modifies mem
    ensures ret == 0 || ret == -1
    ensures bin == 0 || size < HEADER || !Accepted(HeaderAt(old(mem[..]), bin), size) ==>
      ret == -1 && mem[..] == old(mem[..])
    ensures bin != 0 && size >= HEADER && Accepted(HeaderAt(old(mem[..]), bin), size) ==>
      var m0 := old(mem[..]);
      var h := HeaderAt(m0, bin);
      var ps := Phdrs(m0, bin, h);
      var n := FirstUnfit(ps, size);
      && (ret == 0 <==> n == |ps|)
      && LoadedUpTo(mem[..], m0, m0[bin..bin + size], ps, n)
      && (ret == 0 ==> out == Loaded(bin, size, h.entry, LoadBase(ps, |ps|)))
  {
    out := Loaded(0, 0, 0, 0);
    if bin == 0 || size < HEADER { return -1, out; }
    var h := HeaderAt(mem[..], bin);
    if !Accepted(h, size) { return -1, out; }
    var ok, base := LoadSegments(mem, bin, size, h, mem[..], Phdrs(mem[..], bin, h));
    if !ok { return -1, out; }
    return 0, Loaded(bin, size, h.entry, base);
  }

  lemma NoSegments(m: seq<byte>, image: seq<byte>, ps: seq<Phdr>)
    ensures LoadedUpTo(m, m, image, ps, 0)
  {
  }

  lemma SkipSegment(m: seq<byte>, m0: seq<byte>, image: seq<byte>, ps: seq<Phdr>, i: nat)
    requires i < |ps| && !ps[i].Loads() && LoadedUpTo(m, m0, image, ps, i)
    ensures LoadedUpTo(m, m0, image, ps, i + 1)
  {
  }

  /** Loading one more segment. */
  lemma NextSegment(m': seq<byte>, m: seq<byte>, m0: seq<byte>, image: seq<byte>, ps: seq<Phdr>, i: nat)
    requires i < |ps| && ps[i].Loads() && LoadedUpTo(m, m0, image, ps, i) && |m'| == |m|
    requires InMemory(m', image, ps[i])
    requires forall x :: 0 <= x < |m| && !(ps[i].vaddr <= x < ps[i].vaddr + ps[i].Span()) ==> m'[x] == m[x]
    ensures LoadedUpTo(m', m0, image, ps, i + 1)
  {
    var p := ps[i];
    forall x | p.vaddr <= x < p.vaddr + p.Span() ensures m'[x] == ByteOf(p, image, x) {
      if x < p.vaddr + p.filesz {
        assert m'[p.vaddr..p.vaddr + p.filesz][x - p.vaddr] == image[p.offset..p.offset + p.filesz][x - p.vaddr];
      }
    }
    hide InMemory, ByteOf;
  }

  // ---------- Images in the ELF format ----------

  /** The file header of chapter 4 of the System V gABI, 64-bit and little-endian; `ident` are
      the identification bytes after the class. */
  datatype FileHeader = FileHeader(
    class_: nat, ident: seq<byte>, kind: nat, machine: nat, version: nat, entry: nat, phoff: nat, shoff: nat,
    flags: nat, ehsize: nat, phentsize: nat, phnum: nat, shentsize: nat, shnum: nat, shstrndx: nat)

  /** The program header of chapter 5. */
  datatype Segment = Segment(
    kind: nat, flags: nat, offset: nat, vaddr: nat, paddr: nat, filesz: nat, memsz: nat, align: nat)
  {
    function Seen(): Phdr { Phdr(kind, offset, vaddr, filesz, memsz) }
  }

  predicate HeaderFits(h: FileHeader) {
    && h.class_ < 0x100 && |h.ident| == 11
    && h.kind < 0x1_0000 && h.machine < 0x1_0000 && h.version < TWO32
    && h.entry < TWO64 && h.phoff < TWO64 && h.shoff < TWO64 && h.flags < TWO32
    && h.ehsize < 0x1_0000 && h.phentsize < 0x1_0000 && h.phnum < 0x1_0000
    && h.shentsize < 0x1_0000 && h.shnum < 0x1_0000 && h.shstrndx < 0x1_0000
  }

  predicate SegmentFits(p: Segment) {
    && p.kind < TWO32 && p.flags < TWO32 && p.offset < TWO64 && p.vaddr < TWO64 && p.paddr < TWO64
    && p.filesz < TWO64 && p.memsz < TWO64 && p.align < TWO64
  }

  /** The first half of a file header: identification to entry point. */
  function FrontBytes(h: FileHeader): (s: seq<byte>)
    requires HeaderFits(h)
    ensures |s| == 32
  {
    [0x7F, 0x45, 0x4C, 0x46, h.class_] + h.ident
    + LittleEndian(h.kind, 2) + LittleEndian(h.machine, 2) + LittleEndian(h.version, 4) + LittleEndian(h.entry, 8)
  }

  /** The second half: the two tables. */
  function TableBytes(h: FileHeader): (s: seq<byte>)
    ensures |s| == 32
  {
    LittleEndian(h.phoff, 8) + LittleEndian(h.shoff, 8) + LittleEndian(h.flags, 4)
    + LittleEndian(h.ehsize, 2) + LittleEndian(h.phentsize, 2) + LittleEndian(h.phnum, 2)
    + LittleEndian(h.shentsize, 2) + LittleEndian(h.shnum, 2) + LittleEndian(h.shstrndx, 2)
  }

  function HeaderBytes(h: FileHeader): (s: seq<byte>)
    requires HeaderFits(h)
    ensures |s| == HEADER
  {
    FrontBytes(h) + TableBytes(h)
  }

  function SegmentBytes(p: Segment): (s: seq<byte>)
    ensures |s| == PHDR
  {
    LittleEndian(p.kind, 4) + LittleEndian(p.flags, 4) + LittleEndian(p.offset, 8) + LittleEndian(p.vaddr, 8)
    + LittleEndian(p.paddr, 8) + LittleEndian(p.filesz, 8) + LittleEndian(p.memsz, 8) + LittleEndian(p.align, 8)
  }

  lemma Widths()
    ensures Pow256(2) == 0x1_0000 && Pow256(4) == TWO32 && Pow256(8) == TWO64 && Pow256(1) == 0x100
  {
    assert Pow256(3) == 0x100_0000;
    assert Pow256(6) == 256 * Pow256(5) == 65536 * Pow256(4);
  }

  lemma MagicBytes()
    ensures LittleEndian(ELF_MAGIC, 4) == [0x7F, 0x45, 0x4C, 0x46]
  {
    assert LittleEndian(ELF_MAGIC, 4) == [0x7F] + LittleEndian(0x46_4C45, 3);
    assert LittleEndian(0x46_4C45, 3) == [0x45] + LittleEndian(0x464C, 2);
    assert LittleEndian(0x464C, 2) == [0x4C] + LittleEndian(0x46, 1);
  }

  lemma FrontReadBack(m: seq<byte>, a: nat, h: FileHeader)
    requires HeaderFits(h) && a + 32 <= |m| && m[a..a + 32] == FrontBytes(h)
    ensures Load(m, a, 4) == ELF_MAGIC && m[a + 4] == h.class_ && Load(m, a + 16, 2) == h.kind
    ensures Load(m, a + 24, 8) == h.entry
  {
    Widths();
    MagicBytes();
    var s := m[a..a + 32];
    hide LittleEndian, Load, Pow256;
    var magic, kind, entry := LittleEndian(ELF_MAGIC, 4), LittleEndian(h.kind, 2), LittleEndian(h.entry, 8);
    var ident := [0x7F, 0x45, 0x4C, 0x46, h.class_] + h.ident;
    var other := LittleEndian(h.machine, 2) + LittleEndian(h.version, 4);
    assert s == ident + kind + (other + entry);
    assert s == (ident + kind + other) + entry + [];
    assert s[0..4] == magic && s[4] == h.class_;
    hide FrontBytes;
    Middle(ident, kind, other + entry);
    Middle(ident + kind + other, entry, []);
    SubSlice(m, a, a + 32, 0, 4);
    SubSlice(m, a, a + 32, 16, 18);
    SubSlice(m, a, a + 32, 24, 32);
    LoadOf(m, a, ELF_MAGIC, 4);
    LoadOf(m, a + 16, h.kind, 2);
    LoadOf(m, a + 24, h.entry, 8);
  }

  lemma TableReadBack(m: seq<byte>, a: nat, h: FileHeader)
    requires HeaderFits(h) && a + 32 <= |m| && m[a..a + 32] == TableBytes(h)
    ensures Load(m, a, 8) == h.phoff && Load(m, a + 22, 2) == h.phentsize && Load(m, a + 24, 2) == h.phnum
  {
    Widths();
    var s := m[a..a + 32];
    hide LittleEndian, Load, Pow256;
    var phoff, phentsize, phnum := LittleEndian(h.phoff, 8), LittleEndian(h.phentsize, 2), LittleEndian(h.phnum, 2);
    var other := LittleEndian(h.shoff, 8) + LittleEndian(h.flags, 4) + LittleEndian(h.ehsize, 2);
    var last := LittleEndian(h.shentsize, 2) + LittleEndian(h.shnum, 2) + LittleEndian(h.shstrndx, 2);
    assert s == [] + phoff + (other + phentsize + phnum + last);
    assert s == (phoff + other) + phentsize + (phnum + last);
    assert s == (phoff + other + phentsize) + phnum + last;
    hide TableBytes;
    Middle([], phoff, other + phentsize + phnum + last);
    Middle(phoff + other, phentsize, phnum + last);
    Middle(phoff + other + phentsize, phnum, last);
    SubSlice(m, a, a + 32, 0, 8);
    SubSlice(m, a, a + 32, 22, 24);
    SubSlice(m, a, a + 32, 24, 26);
    LoadOf(m, a, h.phoff, 8);
    LoadOf(m, a + 22, h.phentsize, 2);
    LoadOf(m, a + 24, h.phnum, 2);
  }

  /** A written file header is read field by field, wherever it stands in memory. */
  lemma HeaderReadBack(pre: seq<byte>, h: FileHeader, post: seq<byte>)
    requires HeaderFits(h)
    ensures HeaderAt(pre + HeaderBytes(h) + post, |pre|) ==
            Image(ELF_MAGIC, h.class_, h.kind, h.entry, h.phoff, h.phentsize, h.phnum)
  {
    hide FrontBytes, TableBytes, Load, HeaderFits;
    var m, a := pre + HeaderBytes(h) + post, |pre|;
    assert m[a..a + 32] == FrontBytes(h);
    assert m[a + 32..a + 64] == TableBytes(h);
    FrontReadBack(m, a, h);
    TableReadBack(m, a + 32, h);
  }

  lemma SegmentReadBack(pre: seq<byte>, p: Segment, post: seq<byte>)
    requires SegmentFits(p)
    ensures PhdrAt(pre + SegmentBytes(p) + post, |pre|) == p.Seen()
  {
    var m, a := pre + SegmentBytes(p) + post, |pre|;
    hide LittleEndian;
    assert m[a..a + 4] == LittleEndian(p.kind, 4);
    assert m[a + 8..a + 16] == LittleEndian(p.offset, 8);
    assert m[a + 16..a + 24] == LittleEndian(p.vaddr, 8);
    assert m[a + 32..a + 40] == LittleEndian(p.filesz, 8);
    assert m[a + 40..a + 48] == LittleEndian(p.memsz, 8);
    Widths();
    hide SegmentBytes, Load, Pow256;
    LoadOf(m, a, p.kind, 4);
    LoadOf(m, a + 8, p.offset, 8);
    LoadOf(m, a + 16, p.vaddr, 8);
    LoadOf(m, a + 32, p.filesz, 8);
    LoadOf(m, a + 40, p.memsz, 8);
  }

  /** Memory that does not start with the four magic bytes, or whose program headers would
      reach past the end of the file, is not accepted. */
  lemma Refused(m: seq<byte>, a: nat, size: nat)
    requires a + HEADER <= |m| && size < TWO64
    ensures m[a..a + 4] != [0x7F, 0x45, 0x4C, 0x46] ==> !Accepted(HeaderAt(m, a), size)
    ensures var h := HeaderAt(m, a);
      size < h.phoff + h.phentsize * h.phnum < TWO64 ==> !Accepted(h, size)
  {
    MagicBytes();
    LittleEndianOfValue(m[a..a + 4]);
  }

  /** `image` starts with header `h` and has the program headers `segs` where it says. */
  ghost predicate IsImage(image: seq<byte>, h: FileHeader, segs: seq<Segment>) {
    && HeaderFits(h) && h.phentsize == PHDR && h.phnum == |segs|
    && HEADER <= |image| && h.phoff + |segs| * PHDR <= |image| < TWO64
    && image[..HEADER] == HeaderBytes(h)
    && forall i :: 0 <= i < |segs| ==> SegmentFits(segs[i]) && HasSegment(image, h.phoff + i * PHDR, segs[i])
  }

  ghost predicate HasSegment(image: seq<byte>, a: nat, p: Segment) {
    a + PHDR <= |image| && image[a..a + PHDR] == SegmentBytes(p)
  }

  function Seen(segs: seq<Segment>): (ps: seq<Phdr>)
    ensures |ps| == |segs| && forall i :: 0 <= i < |segs| ==> ps[i] == segs[i].Seen()
  {
    seq(|segs|, i requires 0 <= i < |segs| => segs[i].Seen())
  }

  lemma ImageHeader(m: seq<byte>, bin: nat, size: nat, h: FileHeader, segs: seq<Segment>)
    requires bin + size <= |m| && IsImage(m[bin..bin + size], h, segs)
    ensures HeaderAt(m, bin) == Image(ELF_MAGIC, h.class_, h.kind, h.entry, h.phoff, PHDR, |segs|)
  {
    hide HeaderBytes, HeaderAt;
    assert m[bin..bin + HEADER] == m[bin..bin + size][..HEADER];
    assert m == m[..bin] + m[bin..bin + HEADER] + m[bin + HEADER..];
    HeaderReadBack(m[..bin], h, m[bin + HEADER..]);
  }

  lemma ImageSegment(m: seq<byte>, bin: nat, size: nat, a: nat, p: Segment)
    requires bin + size <= |m| && SegmentFits(p) && HasSegment(m[bin..bin + size], a, p)
    ensures bin + a + PHDR <= |m| && PhdrAt(m, bin + a) == p.Seen()
  {
    hide SegmentBytes, PhdrAt, SegmentFits;
    var b := bin + a;
    SubSlice(m, bin, bin + size, a, a + PHDR);
    assert m == m[..b] + m[b..b + PHDR] + m[b + PHDR..];
    SegmentReadBack(m[..b], p, m[b + PHDR..]);
  }

  lemma ImageSegments(m: seq<byte>, bin: nat, size: nat, h: FileHeader, segs: seq<Segment>)
    requires bin + size <= |m| && IsImage(m[bin..bin + size], h, segs)
    ensures HeaderAt(m, bin).phoff == h.phoff && HeaderAt(m, bin).phnum == |segs|
    ensures bin + h.phoff + |segs| * PHDR <= |m| && Phdrs(m, bin, HeaderAt(m, bin)) == Seen(segs)
  {
    hide IsImage, HeaderAt, PhdrAt;
    ImageHeader(m, bin, size, h, segs);
    TableInMemory(m, bin, size, h, segs);
    var ps := Phdrs(m, bin, HeaderAt(m, bin));
    forall i | 0 <= i < |segs| ensures ps[i] == segs[i].Seen() {
      SegmentOfImage(m, bin, size, h, segs, i);
    }
  }

  lemma TableInMemory(m: seq<byte>, bin: nat, size: nat, h: FileHeader, segs: seq<Segment>)
    requires bin + size <= |m| && IsImage(m[bin..bin + size], h, segs)
    ensures bin + h.phoff + |segs| * PHDR <= |m| && bin + HEADER <= |m|
  {
    hide HeaderBytes, SegmentFits, HasSegment, HeaderFits;
  }

  lemma SegmentOfImage(m: seq<byte>, bin: nat, size: nat, h: FileHeader, segs: seq<Segment>, i: nat)
    requires bin + size <= |m| && IsImage(m[bin..bin + size], h, segs) && i < |segs|
    ensures bin + h.phoff + i * PHDR + PHDR <= |m| && PhdrAt(m, bin + h.phoff + i * PHDR) == segs[i].Seen()
  {
    hide HeaderBytes, SegmentFits, HasSegment, HeaderFits, PhdrAt;
    ImageSegment(m, bin, size, h.phoff + i * PHDR, segs[i]);
  }

  /** A 64-bit executable or shared object whose loadable segments lie in the file. */
  predicate Loadable(h: FileHeader, segs: seq<Segment>, size: nat) {
    h.class_ == 2 && (h.kind == 2 || h.kind == 3) && AllInFile(segs, size)
  }

  predicate AllInFile(segs: seq<Segment>, size: nat) {
    forall i :: 0 <= i < |segs| && segs[i].kind == 1 ==> segs[i].offset + segs[i].filesz <= size
  }

  /** The loadable segments lie in memory apart from the image, and no offset wraps. */
  predicate Placed(segs: seq<Segment>, bin: nat, size: nat, memory: nat) {
    forall i :: 0 <= i < |segs| && segs[i].kind == 1 ==>
      && segs[i].offset + segs[i].filesz < TWO64 && segs[i].vaddr + segs[i].Seen().Span() <= memory
      && Apart(segs[i].vaddr, segs[i].Seen().Span(), bin, size)
  }

  /** `elf_load` on an image in the ELF format, in the terms of that format: it succeeds exactly
      for 64-bit executables and shared objects whose loadable segments lie in the file, and
      then puts each of them at its virtual address. */
  method LoadImage(mem: array<byte>, bin: nat, size: nat, ghost h: FileHeader, ghost segs: seq<Segment>)
    returns (ret: int, out: Loaded)
    requires bin != 0 && bin + size <= mem.Length <= TWO64 && IsImage(mem[bin..bin + size], h, segs)
    requires Placed(segs, bin, size, mem.Length)
    modifies mem
    ensures ret == 0 || ret == -1
    ensures ret == 0 <==> Loadable(h, segs, size)
    ensures ret == 0 ==> out.entry == h.entry && out.data == bin && out.size == size
    ensures ret == 0 ==>
      LoadedUpTo(mem[..], old(mem[..]), old(mem[bin..bin + size]), Seen(segs), |segs|)
      && out.loadBase == LoadBase(Seen(segs), |segs|)
    ensures ret == 0 ==> forall i :: 0 <= i < |segs| && segs[i].kind == 1 && LastOnItsPlace(segs, i) ==>
      InMemory(mem[..], old(mem[bin..bin + size]), segs[i].Seen())
  {
    hide IsImage, HeaderAt, Phdrs, InMemory, LoadedUpTo, WellPlaced, Accepted, Recognised, FirstUnfit, LoadBase,
         LastOnItsPlace;
    ghost var m0 := mem[..];
    ghost var image := m0[bin..bin + size];
    assert mem[bin..bin + size] == image;
    ImageReady(m0, bin, size, h, segs);
    ret, out := ElfLoad(mem, bin, size);
    if ret == 0 {
      forall i | 0 <= i < |segs| && segs[i].kind == 1 && LastOnItsPlace(segs, i)
        ensures InMemory(mem[..], image, segs[i].Seen())
      {
        LastIsLoaded(mem[..], m0, image, segs, i);
      }
    }
  }

  lemma LastIsLoaded(m: seq<byte>, m0: seq<byte>, image: seq<byte>, segs: seq<Segment>, i: nat)
    requires i < |segs| && LoadedUpTo(m, m0, image, Seen(segs), |segs|) && segs[i].kind == 1
    requires segs[i].offset + segs[i].filesz <= |image| && segs[i].vaddr + segs[i].Seen().Span() <= |m|
    requires LastOnItsPlace(segs, i)
    ensures InMemory(m, image, segs[i].Seen())
  {
    hide LoadedUpTo, InMemory;
    SegmentInMemory(m, m0, image, Seen(segs), |segs|, i);
  }

  /** What `elf_load` checks of an image, and that it relies on no more. */
  lemma ImageReady(m: seq<byte>, bin: nat, size: nat, h: FileHeader, segs: seq<Segment>)
    requires bin + size <= |m| <= TWO64 && IsImage(m[bin..bin + size], h, segs)
    requires Placed(segs, bin, size, |m|)
    ensures size >= HEADER && HeaderAt(m, bin).entry == h.entry
    ensures HeaderAt(m, bin).phentsize * HeaderAt(m, bin).phnum < 0x8000_0000
    ensures Accepted(HeaderAt(m, bin), size) <==> h.class_ == 2 && (h.kind == 2 || h.kind == 3)
    ensures HeaderAt(m, bin).phoff + HeaderAt(m, bin).phnum * PHDR <= size
    ensures Phdrs(m, bin, HeaderAt(m, bin)) == Seen(segs)
    ensures WellPlaced(m, bin, size, HeaderAt(m, bin), Seen(segs))
    ensures FirstUnfit(Seen(segs), size) == |segs| <==> AllInFile(segs, size)
  {
    ImageHeader(m, bin, size, h, segs);
    ImageSegments(m, bin, size, h, segs);
    hide HeaderAt, HeaderBytes, Phdrs, HasSegment, SegmentFits;
  }

  /** No later loadable segment shares memory with this one. */
  ghost predicate LastOnItsPlace(segs: seq<Segment>, i: nat)
    requires i < |segs|
  {
    forall j :: i < j < |segs| && segs[j].kind == 1 ==>
      Apart(segs[i].vaddr, segs[i].Seen().Span(), segs[j].vaddr, segs[j].Seen().Span())
  }
}
