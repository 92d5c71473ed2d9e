/** Bytes: C strings, and byte-addressed memory with little-endian integers. */
module Bytes {

  type byte = b: int | 0 <= b < 256

  /** The bytes before the first zero. */
  function CString(s: seq<byte>): (r: seq<byte>)
    ensures |r| <= |s| && 0 !in r
  {
    if s == [] || s[0] == 0 then [] else [s[0]] + CString(s[1..])
  }

  function Pow256(k: nat): (p: nat)
    ensures p > 0
  {
    if k == 0 then 1 else 256 * Pow256(k - 1)
  }

  /** The `k` low bytes of `n`, least significant first. */
  function LittleEndian(n: nat, k: nat): (s: seq<byte>)
    ensures |s| == k
  {
    if k == 0 then [] else [n % 256] + LittleEndian(n / 256, k - 1)
  }

  function Value(s: seq<byte>): (n: nat)
  {
    if s == [] then 0 else s[0] + 256 * Value(s[1..])
  }

  lemma {:induction false} ValueOfLittleEndian(n: nat, k: nat)
    requires n < Pow256(k)
    ensures Value(LittleEndian(n, k)) == n
  {
    if k > 0 {
      ValueOfLittleEndian(n / 256, k - 1);
      assert LittleEndian(n, k)[1..] == LittleEndian(n / 256, k - 1);
    }
  }

  lemma {:induction false} LittleEndianOfValue(s: seq<byte>)
    ensures LittleEndian(Value(s), |s|) == s
  {
    if s != [] {
      LittleEndianOfValue(s[1..]);
      assert Value(s) % 256 == s[0] && Value(s) / 256 == Value(s[1..]);
    }
  }

  lemma {:induction false} ValueBound(s: seq<byte>)
    ensures Value(s) < Pow256(|s|)
  {
    if s != [] {
      ValueBound(s[1..]);
    }
  }

  function Load(m: seq<byte>, a: nat, k: nat): (n: nat)
    requires a + k <= |m|
  {
    Value(m[a..a + k])
  }

  function Put(m: seq<byte>, a: nat, s: seq<byte>): (r: seq<byte>)
    requires a + |s| <= |m|
    ensures |r| == |m|
    ensures r[a..a + |s|] == s
    ensures forall x :: 0 <= x < |m| && !(a <= x < a + |s|) ==> r[x] == m[x]
  {
    m[..a] + s + m[a + |s|..]
  }

  /** A stored integer reads back. */
  lemma LoadAfterPut(m: seq<byte>, a: nat, n: nat, k: nat)
    requires a + k <= |m| && n < Pow256(k)
    ensures Load(Put(m, a, LittleEndian(n, k)), a, k) == n
  {
    ValueOfLittleEndian(n, k);
  }

  lemma Middle(pre: seq<byte>, s: seq<byte>, post: seq<byte>)
    ensures (pre + s + post)[|pre|..|pre| + |s|] == s
  {
  }

  lemma SubSlice(m: seq<byte>, lo: nat, hi: nat, a: nat, b: nat)
    requires lo <= hi <= |m| && a <= b <= hi - lo
    ensures m[lo..hi][a..b] == m[lo + a..lo + b]
  {
    var part := m[lo..hi];
    forall i | 0 <= i < b - a ensures part[a..b][i] == m[lo + a..lo + b][i] {
      assert part[a..b][i] == part[a + i] == m[lo + (a + i)];
    }
  }

  /** Bytes that are a written integer are read as it. */
  lemma LoadOf(m: seq<byte>, a: nat, n: nat, k: nat)
    requires a + k <= |m| && n < Pow256(k) && m[a..a + k] == LittleEndian(n, k)
    ensures Load(m, a, k) == n
  {
    ValueOfLittleEndian(n, k);
  }

  /** A load sees only the bytes in its own range. */
  lemma LoadFrame(m: seq<byte>, m': seq<byte>, a: nat, k: nat)
    requires |m| == |m'| && a + k <= |m|
    requires forall x :: a <= x < a + k ==> m[x] == m'[x]
    ensures Load(m, a, k) == Load(m', a, k)
  {
    assert m[a..a + k] == m'[a..a + k];
  }
}
