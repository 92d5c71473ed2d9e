/** The cpio "newc" reader of kernel/fs/initramfs.c, with an encoder as its specification. */
module Initramfs {
  import opened Machine
  import opened Bytes

  const HEADER_LEN: nat := 110
  const PATH_MAX: nat := 4096

  /** "070701". */
  const MAGIC: seq<byte> := [48, 55, 48, 55, 48, 49]

  // ---------- Hexadecimal fields ----------

  /** Characters that are no hexadecimal digit count as 0. */
  function Digit(c: byte): (d: nat)
    ensures d < 16
  {
    if 48 <= c <= 57 then c - 48
    else if 97 <= c <= 102 then c - 97 + 10
    else if 65 <= c <= 70 then c - 65 + 10
    else 0
  }

  /** Reading stops at a NUL; the value is taken modulo 2^64. */
  function HexValue(s: seq<byte>, val: nat := 0): nat {
    if s == [] || s[0] == 0 then val else HexValue(s[1..], val * 16 % TWO64 + Digit(s[0]))
  }

  method ParseHex(s: seq<byte>) returns (val: nat)
    ensures val == HexValue(s)
  {
    val := 0;
    var i := 0;
    while i < |s| && s[i] != 0
      invariant i <= |s| && HexValue(s[i..], val) == HexValue(s)
    {
      assert s[i..][1..] == s[i + 1..];
      val := val * 16 % TWO64 + Digit(s[i]);
      i := i + 1;
    }
  }

  function DigitChar(d: nat, upper: bool): (c: byte)
    requires d < 16
    ensures c != 0 && Digit(c) == d
  {
    if d < 10 then 48 + d else if upper then 65 + d - 10 else 97 + d - 10
  }

  /** The last `k` hexadecimal digits of `n`. */
  function Hex(n: nat, k: nat, upper: bool): (s: seq<byte>)
    ensures |s| == k && 0 !in s
  {
    if k == 0 then [] else Hex(n / 16, k - 1, upper) + [DigitChar(n % 16, upper)]
  }

  /** Nothing after a NUL matters. */
  lemma {:induction false} NulEndsField(s: seq<byte>, t: seq<byte>, val: nat)
    ensures HexValue(s + [0] + t, val) == HexValue(s, val)
  {
    if s != [] && s[0] != 0 {
      assert (s + [0] + t)[1..] == s[1..] + [0] + t;
      NulEndsField(s[1..], t, val * 16 % TWO64 + Digit(s[0]));
    }
  }

  /** Characters that are no hexadecimal digits count as the digit 0. */
  lemma OtherCharacters(c: byte)
    requires !(48 <= c <= 57) && !(65 <= c <= 70) && !(97 <= c <= 102)
    ensures Digit(c) == 0
  {
  }

  lemma {:induction false} HexValueAppend(s: seq<byte>, c: byte, val: nat)
    requires 0 !in s && c != 0
    ensures HexValue(s + [c], val) == HexValue(s, val) * 16 % TWO64 + Digit(c)
  {
    if s != [] {
      assert (s + [c])[1..] == s[1..] + [c];
      HexValueAppend(s[1..], c, val * 16 % TWO64 + Digit(s[0]));
    } else {
      assert (s + [c])[1..] == [];
    }
  }

  function Pow16(k: nat): nat { if k == 0 then 1 else 16 * Pow16(k - 1) }

  lemma {:induction false} HexRoundTrip(n: nat, k: nat, upper: bool)
    requires n < Pow16(k) && Pow16(k) <= TWO64
    ensures HexValue(Hex(n, k, upper)) == n
  {
    if k > 0 {
      HexRoundTrip(n / 16, k - 1, upper);
      HexValueAppend(Hex(n / 16, k - 1, upper), DigitChar(n % 16, upper), 0);
    }
  }

  lemma Pow16Of8()
    ensures Pow16(8) == TWO32
  {
    assert Pow16(8) == 16 * 16 * Pow16(6) && Pow16(6) == 16 * 16 * Pow16(4) && Pow16(4) == 16 * 16 * Pow16(2);
  }

  // ---------- One entry ----------

  function Align4(n: nat): (r: nat)
    ensures r % 4 == 0 && n <= r < n + 4
  {
    (n + 3) / 4 * 4
  }

  datatype Step =
    | End
    | Corrupt
    | Item(nameOff: nat, nameSize: nat, dataOff: nat, dataSize: nat, next: nat)

  /** What the reader makes of the archive at offset `off`. */
  function Next(a: seq<byte>, off: nat): Step {
    if off >= |a| then End
    else if off + HEADER_LEN > |a| then Corrupt
    else if a[off..off + 6] != MAGIC then End
    else
      var nameSize := HexValue(a[off + 94..off + 102]);
      var dataSize := HexValue(a[off + 54..off + 62]);
      var nameOff := off + HEADER_LEN;
      var dataOff := Align4(nameOff + nameSize);
      if nameOff + nameSize > |a| || dataOff + dataSize > |a| then Corrupt
      else Item(nameOff, nameSize, dataOff, dataSize, Align4(dataOff + dataSize))
  }

  /** Whatever the bytes are: an entry lies inside the archive, and the reader moves on by
      at least a header, to a multiple of 4. */
  lemma NextIsInside(a: seq<byte>, off: nat)
    requires Next(a, off).Item?
    ensures var e := Next(a, off);
      && off + HEADER_LEN == e.nameOff <= e.nameOff + e.nameSize <= e.dataOff
      && e.dataOff + e.dataSize <= |a|
      && e.next >= off + HEADER_LEN && e.next % 4 == 0
  {
  }

  /** The name as a C string, after copying into a buffer of `size` bytes. */
  function NameIn(a: seq<byte>, e: Step, size: nat): seq<byte>
    requires e.Item? && e.nameOff + e.nameSize <= |a| && size > 0
  {
    CString(a[e.nameOff..e.nameOff + CopyLength(e, size)])
  }

  function CopyLength(e: Step, size: nat): nat
    requires e.Item? && size > 0
  {
    if e.nameSize < size then e.nameSize else size - 1
  }

  /** The first entry from `off` on whose name is `target`. */
  function FirstMatch(a: seq<byte>, off: nat, target: seq<byte>): (r: Option<Step>)
    ensures r.Some? ==> r.value.Item?
    decreases |a| - off
  {
    var e := Next(a, off);
    if !e.Item? then None
    else if NameIn(a, e, PATH_MAX) == target then Some(e)
    else FirstMatch(a, e.next, target)
  }

  // ---------- The reader ----------

  class Reader {
    const archive: seq<byte>
    var offset: nat

    constructor (archive: seq<byte>)
      ensures this.archive == archive && offset == 0
    {
      this.archive := archive;
      offset := 0;
    }

    /** `initramfs_next`: returns 1 for an entry, 0 at the end, -1 for a truncated archive. */
    method ReadNext(name: array?<byte>) returns (ret: int, e: Step)
      requires name != null ==> name.Length > 0
      modifies this, name
      ensures e == Next(archive, old(offset))
      ensures ret == if e.Item? then 1 else if e.Corrupt? then -1 else 0
      ensures offset == if e.Item? then e.next else old(offset)
      ensures !e.Item? && name != null ==> name[..] == old(name[..])
      ensures e.Item? && name != null ==>
        && CString(name[..]) == NameIn(archive, e, name.Length)
        && name[CopyLength(e, name.Length) + 1..] == old(name[CopyLength(e, name.Length) + 1..])
    {
      e := End;
      if offset >= |archive| { return 0, End; }
      if offset + HEADER_LEN > |archive| { return -1, Corrupt; }
      if archive[offset..offset + 6] != MAGIC { return 0, End; }
      var nameSize := ParseHex(archive[offset + 94..offset + 102]);
      var dataSize := ParseHex(archive[offset + 54..offset + 62]);
      var nameOff := offset + HEADER_LEN;
      var dataOff := Align4(nameOff + nameSize);
      if nameOff + nameSize > |archive| || dataOff + dataSize > |archive| { return -1, Corrupt; }
      e := Item(nameOff, nameSize, dataOff, dataSize, Align4(dataOff + dataSize));
      if name != null {
        CopyName(name, archive[nameOff..nameOff + CopyLength(e, name.Length)]);
      }
      offset := e.next;
      return 1, e;
    }

    static method CopyName(name: array<byte>, s: seq<byte>)
      requires |s| < name.Length
      modifies name
      ensures CString(name[..]) == CString(s)
      ensures name[|s| + 1..] == old(name[|s| + 1..])
    {
      for i := 0 to |s|
        invariant forall x :: 0 <= x < i ==> name[x] == s[x]
        invariant forall x :: i <= x < name.Length ==> name[x] == old(name[x])
      {
        name[i] := s[i];
      }
      name[|s|] := 0;
      ghost var rest := name[|s| + 1..];
      assert name[..] == s + [0] + rest;
      CStringStops(s, rest);
    }

    /** `initramfs_find`: the search always starts at the front; a failed one leaves the
        offset as it was. */
    method Find(target: seq<byte>) returns (found: bool, e: Step)
      modifies this
      ensures found == FirstMatch(archive, 0, target).Some?
      ensures found ==> Some(e) == FirstMatch(archive, 0, target) && offset == e.next
      ensures !found ==> offset == old(offset)
    {
      var saved := offset;
      offset := 0;
      var name := new byte[PATH_MAX](_ => 0);
      while true
        invariant FirstMatch(archive, 0, target) == FirstMatch(archive, offset, target)
        decreases |archive| - offset
      {
        var ret;
        ret, e := ReadNext(name);
        if ret <= 0 { break; }
        if CString(name[..]) == target { return true, e; }
      }
      offset := saved;
      found := false;
    }
  }

  lemma {:induction false} CStringStops(s: seq<byte>, t: seq<byte>)
    ensures CString(s + [0] + t) == CString(s)
  {
    if s != [] {
      assert (s + [0] + t)[1..] == s[1..] + [0] + t;
      CStringStops(s[1..], t);
    }
  }

  // ---------- The encoder ----------

  /** `before`, `between` and `after` are the header fields the reader ignores. */
  datatype File = File(name: seq<byte>, data: seq<byte>, before: seq<byte>, between: seq<byte>, after: seq<byte>,
                       upper: bool)

  predicate Encodable(f: File) {
    && 0 !in f.name && |f.name| + 1 < TWO32 && |f.data| < TWO32
    && |f.before| == 48 && |f.between| == 32 && |f.after| == 8
  }

  function Zeros(n: nat): seq<byte> { seq(n, _ => 0) }

  /** Zeros up to the next multiple of 4. */
  function Padding(n: nat): seq<byte> { Zeros(Align4(n) - n) }

  function Header(f: File): (h: seq<byte>)
    requires Encodable(f)
    ensures |h| == HEADER_LEN
  {
    MAGIC + f.before + Hex(|f.data|, 8, f.upper) + f.between + Hex(|f.name| + 1, 8, f.upper) + f.after
  }

  function Body(f: File): seq<byte> {
    f.name + [0] + Padding(HEADER_LEN + |f.name| + 1) + f.data + Padding(|f.data|)
  }

  function EncodeOne(f: File): (s: seq<byte>)
    requires Encodable(f)
  {
    Header(f) + Body(f)
  }

  ghost predicate AllEncodable(fs: seq<File>) {
    forall i :: 0 <= i < |fs| ==> Encodable(fs[i])
  }

  ghost function Encode(fs: seq<File>): seq<byte>
    requires AllEncodable(fs)
  {
    if fs == [] then [] else EncodeOne(fs[0]) + Encode(fs[1..])
  }

  lemma HeaderFields(f: File)
    requires Encodable(f)
    ensures Header(f)[..6] == MAGIC
    ensures HexValue(Header(f)[54..62]) == |f.data|
    ensures HexValue(Header(f)[94..102]) == |f.name| + 1
  {
    Pow16Of8();
    HexRoundTrip(|f.data|, 8, f.upper);
    HexRoundTrip(|f.name| + 1, 8, f.upper);
    hide Hex, HexValue;
    assert Header(f)[54..62] == Hex(|f.data|, 8, f.upper);
    assert Header(f)[94..102] == Hex(|f.name| + 1, 8, f.upper);
  }

  /** The entry the reader finds where an encoded file starts. */
  function ItemOf(f: File, off: nat): (e: Step)
    ensures e.Item? && e.nameOff == off + HEADER_LEN && e.nameSize == |f.name| + 1 && e.dataSize == |f.data|
  {
    var dataOff := Align4(off + HEADER_LEN + |f.name| + 1);
    Item(off + HEADER_LEN, |f.name| + 1, dataOff, |f.data|, Align4(dataOff + |f.data|))
  }

  lemma BodyLayout(f: File)
    ensures var n, d := |f.name|, Align4(HEADER_LEN + |f.name| + 1) - HEADER_LEN;
      && |Body(f)| == d + Align4(|f.data|) && n + 1 <= d
      && Body(f)[..n] == f.name && Body(f)[n] == 0
      && Body(f)[d..d + |f.data|] == f.data
  {
  }

  /** Offsets of the parts of a file that starts at `off`. */
  lemma ItemOffsets(f: File, off: nat)
    requires Encodable(f) && off % 4 == 0
    ensures var e, d := ItemOf(f, off), Align4(HEADER_LEN + |f.name| + 1) - HEADER_LEN;
      && e.dataOff == off + HEADER_LEN + d && e.next == off + |EncodeOne(f)| && e.next % 4 == 0
      && e.nameOff + e.nameSize <= e.dataOff && e.dataOff + e.dataSize <= e.next
  {
    hide Header, Body, Align4;
    BodyLayout(f);
    AlignShift(off, HEADER_LEN + |f.name| + 1);
    AlignShift(Align4(off + HEADER_LEN + |f.name| + 1), |f.data|);
  }

  lemma HeaderReadBack(pre: seq<byte>, f: File, post: seq<byte>)
    requires Encodable(f) && |pre| % 4 == 0
    ensures Next(pre + EncodeOne(f) + post, |pre|) == ItemOf(f, |pre|)
  {
    hide Header, Body, HexValue;
    var h := Header(f);
    HeaderFields(f);
    ItemOffsets(f, |pre|);
    assert pre + EncodeOne(f) + post == pre + h + (Body(f) + post);
    Slice(pre, h, Body(f) + post, 0, 6);
    Slice(pre, h, Body(f) + post, 54, 62);
    Slice(pre, h, Body(f) + post, 94, 102);
  }

  lemma BodyReadBack(pre: seq<byte>, f: File, post: seq<byte>)
    requires Encodable(f) && |pre| % 4 == 0
    ensures var a, e := pre + EncodeOne(f) + post, ItemOf(f, |pre|);
      && e.nameOff + e.nameSize <= e.dataOff <= e.dataOff + e.dataSize <= |a|
      && a[e.dataOff..e.dataOff + e.dataSize] == f.data
      && a[e.nameOff..e.nameOff + e.nameSize] == f.name + [0]
  {
    hide Header, Body, Align4;
    var h, n := Header(f), |f.name|;
    BodyLayout(f);
    ItemOffsets(f, |pre|);
    var d := Align4(HEADER_LEN + n + 1) - HEADER_LEN;
    assert EncodeOne(f) == h + Body(f);
    assert pre + (h + Body(f)) + post == (pre + h) + Body(f) + post;
    hide EncodeOne;
    Slice(pre + h, Body(f), post, 0, n + 1);
    Slice(pre + h, Body(f), post, d, d + |f.data|);
    assert Body(f)[0..n + 1] == f.name + [0];
  }

  /** Reading back one encoded file, wherever it starts on a multiple of 4. */
  lemma NextOfEncoded(pre: seq<byte>, f: File, post: seq<byte>)
    requires Encodable(f) && |pre| % 4 == 0
    ensures var a, e := pre + EncodeOne(f) + post, Next(pre + EncodeOne(f) + post, |pre|);
      && e.Item?
      && e.dataOff + e.dataSize <= |a| && e.nameOff + e.nameSize <= |a|
      && a[e.dataOff..e.dataOff + e.dataSize] == f.data
      && NameIn(a, e, PATH_MAX) == ShortName(f)
      && e.next == |pre + EncodeOne(f)| && e.next % 4 == 0
  {
    hide EncodeOne, Next, ItemOf, NameIn;
    HeaderReadBack(pre, f, post);
    BodyReadBack(pre, f, post);
    ItemOffsets(f, |pre|);
    NameReadBack(pre + EncodeOne(f) + post, f, |pre|);
  }

  /** An archive that ends anywhere before the last byte of a file's data is reported as
      corrupt at that file. */
  lemma TruncatedIsCorrupt(pre: seq<byte>, f: File, c: nat)
    requires Encodable(f) && |pre| % 4 == 0
    requires 0 < c && c <= |EncodeOne(f)| && |pre| + c < ItemOf(f, |pre|).dataOff + |f.data|
    ensures Next(pre + EncodeOne(f)[..c], |pre|) == Corrupt
  {
    var a, off := pre + EncodeOne(f)[..c], |pre|;
    if c >= HEADER_LEN {
      HeaderFields(f);
      var h := Header(f);
      var rest := EncodeOne(f)[HEADER_LEN..c];
      assert a == pre + h + rest;
      hide EncodeOne, Header;
      Slice(pre, h, rest, 0, 6);
      Slice(pre, h, rest, 54, 62);
      Slice(pre, h, rest, 94, 102);
    }
  }

  /** Six bytes that are not the magic number end the iteration, without an error. */
  lemma OtherBytesEnd(a: seq<byte>, off: nat)
    requires off + HEADER_LEN <= |a| && a[off..off + 6] != [48, 55, 48, 55, 48, 49]
    ensures Next(a, off) == End
  {
  }

  /** The reader sees a name in full exactly when it is shorter than its buffer. */
  lemma NameIsFullExact(pre: seq<byte>, f: File, post: seq<byte>)
    requires Encodable(f) && |pre| % 4 == 0
    ensures var a, e := pre + EncodeOne(f) + post, Next(pre + EncodeOne(f) + post, |pre|);
      && e.Item? && e.nameOff + e.nameSize <= |a|
      && (NameIn(a, e, PATH_MAX) == f.name <==> |f.name| < PATH_MAX)
  {
    hide Next, NameIn, EncodeOne, ShortName;
    NextOfEncoded(pre, f, post);
  }

  /** A name of 4096 characters is cut, so it is not found under its own name. */
  lemma LongNameIsCut() returns (f: File)
    ensures Encodable(f) && |f.name| == PATH_MAX
    ensures FirstMatch(EncodeOne(f), 0, f.name).None?
  {
    f := File(seq(PATH_MAX, _ => 97), [], seq(48, _ => 48), seq(32, _ => 48), seq(8, _ => 48), false);
    assert f.name[0] == 97;
    assert AllEncodable([f]);
    hide Next, NameIn, EncodeOne, ShortName, FirstMatch;
    EncodeSingle(f);
    assert ShortName(f) != f.name;
    FindInEncoded([], [f], f.name);
    assert [] + Encode([f]) == EncodeOne(f);
  }

  lemma EncodeSingle(f: File)
    requires Encodable(f)
    ensures AllEncodable([f]) && Encode([f]) == EncodeOne(f)
  {
  }

  lemma NextAtEnd(a: seq<byte>)
    ensures Next(a, |a|) == End
  {
  }

  lemma Slice(pre: seq<byte>, s: seq<byte>, post: seq<byte>, i: nat, j: nat)
    requires i <= j <= |s|
    ensures (pre + s + post)[|pre| + i..|pre| + j] == s[i..j]
  {
  }

  lemma AlignShift(off: nat, n: nat)
    requires off % 4 == 0
    ensures Align4(off + n) == off + Align4(n)
  {
  }

  /** All entries in order, as the reader delivers them: name (in a PATH_MAX buffer) and contents. */
  function ReadAll(a: seq<byte>, off: nat): seq<(seq<byte>, seq<byte>)>
    decreases |a| - off
  {
    var e := Next(a, off);
    if !e.Item? then [] else
      [(NameIn(a, e, PATH_MAX), a[e.dataOff..e.dataOff + e.dataSize])] + ReadAll(a, e.next)
  }

  /** What a reader should see: names are cut to PATH_MAX - 1 bytes. */
  function Seen(fs: seq<File>): seq<(seq<byte>, seq<byte>)> {
    if fs == [] then [] else [(ShortName(fs[0]), fs[0].data)] + Seen(fs[1..])
  }

  function ShortName(f: File): (s: seq<byte>)
    ensures |f.name| < PATH_MAX <==> s == f.name
  {
    if |f.name| < PATH_MAX then f.name else f.name[..PATH_MAX - 1]
  }

  lemma {:induction false} CStringOf(s: seq<byte>)
    requires 0 !in s
    ensures CString(s) == s && CString(s + [0]) == s
  {
    if s != [] {
      CStringOf(s[1..]);
      assert (s + [0])[1..] == s[1..] + [0];
    }
  }

  lemma NameReadBack(a: seq<byte>, f: File, off: nat)
    requires Encodable(f)
    requires var e := ItemOf(f, off);
      e.nameOff + e.nameSize <= |a| && a[e.nameOff..e.nameOff + e.nameSize] == f.name + [0]
    ensures NameIn(a, ItemOf(f, off), PATH_MAX) == ShortName(f)
  {
    NameInBuffer(a, f, off, PATH_MAX);
  }

  /** A name comes back whole in a buffer with room for it and its NUL, and otherwise cut to
      one less than the buffer has. */
  lemma NameInBuffer(a: seq<byte>, f: File, off: nat, size: nat)
    requires Encodable(f) && size > 0
    requires var e := ItemOf(f, off);
      e.nameOff + e.nameSize <= |a| && a[e.nameOff..e.nameOff + e.nameSize] == f.name + [0]
    ensures NameIn(a, ItemOf(f, off), size) == if |f.name| < size then f.name else f.name[..size - 1]
  {
    var e := ItemOf(f, off);
    var n := CopyLength(e, size);
    assert a[e.nameOff..e.nameOff + n] == (f.name + [0])[..n];
    if n == |f.name| + 1 {
      assert (f.name + [0])[..n] == f.name + [0];
      CStringOf(f.name);
    } else {
      assert (f.name + [0])[..n] == f.name[..n];
      CStringOf(f.name[..n]);
    }
  }

  /** Round trip: iterating over an encoded archive yields exactly the files, in order. */
  lemma {:induction false} ReadAllOfEncoded(pre: seq<byte>, fs: seq<File>)
    requires AllEncodable(fs) && |pre| % 4 == 0
    ensures ReadAll(pre + Encode(fs), |pre|) == Seen(fs)
    decreases |fs|
  {
    hide EncodeOne, Next, NameIn, ShortName, Encodable;
    var a := pre + Encode(fs);
    NextAtEnd(a);
    if fs != [] {
      var f, rest := fs[0], Encode(fs[1..]);
      assert a == pre + EncodeOne(f) + rest == (pre + EncodeOne(f)) + rest;
      NextOfEncoded(pre, f, rest);
      ReadAllOfEncoded(pre + EncodeOne(f), fs[1..]);
    }
  }

  /** The index of the first file seen under the name `target`, or the number of files. */
  function FirstNamed(fs: seq<File>, target: seq<byte>): (i: nat)
    ensures i <= |fs| && (i < |fs| ==> ShortName(fs[i]) == target)
    ensures forall j :: 0 <= j < i ==> ShortName(fs[j]) != target
  {
    if fs == [] || ShortName(fs[0]) == target then 0 else 1 + FirstNamed(fs[1..], target)
  }

  /** Searching an encoded archive finds the first file of that name, and only such a file. */
  lemma {:induction false} FindInEncoded(pre: seq<byte>, fs: seq<File>, target: seq<byte>)
    requires AllEncodable(fs) && |pre| % 4 == 0
    ensures var a, i := pre + Encode(fs), FirstNamed(fs, target);
      var r := FirstMatch(a, |pre|, target);
      && (r.None? <==> i == |fs|)
      && (r.Some? ==> r.value.dataOff + r.value.dataSize <= |a|
                      && a[r.value.dataOff..r.value.dataOff + r.value.dataSize] == fs[i].data)
    decreases |fs|
  {
    hide EncodeOne, Next, NameIn, ShortName, Encodable;
    var a := pre + Encode(fs);
    NextAtEnd(a);
    if fs != [] {
      var f, rest := fs[0], Encode(fs[1..]);
      assert a == pre + EncodeOne(f) + rest == (pre + EncodeOne(f)) + rest;
      NextOfEncoded(pre, f, rest);
      if ShortName(f) != target {
        FindInEncoded(pre + EncodeOne(f), fs[1..], target);
      }
    }
  }
}
