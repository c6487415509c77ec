/**
 * Byte strings as the tool handles them: little-endian integer fields packed by
 * Python's `struct` module, fixed-width string fields, C strings and Python slices.
 */
module Bytes {

  type byte = x: int | 0 <= x < 256

  /** 256 to the power k: the number of values a k-byte field can hold. */
  function Pow256(k: nat): (r: nat)
    ensures r >= 1
  {
    if k == 0 then 1 else 256 * Pow256(k - 1)
  }

  const U16Limit: nat := 0x1_0000
  const U32Limit: nat := 0x1_0000_0000

  lemma FieldLimits()
    ensures Pow256(1) == 256 && Pow256(2) == U16Limit && Pow256(4) == U32Limit
  {
  }

  /** The k-byte little-endian encoding of n, as `struct.pack` writes an unsigned field. */
  function LittleEndian(n: nat, k: nat): (r: seq<byte>)
    requires n < Pow256(k)
    ensures |r| == k
  {
    if k == 0 then [] else [n % 256] + LittleEndian(n / 256, k - 1)
  }

  /** The unsigned value of a little-endian byte string, as `struct.unpack` reads it. */
  function FromLittleEndian(s: seq<byte>): (r: nat)
    ensures r < Pow256(|s|)
  {
    if s == [] then 0 else s[0] + 256 * FromLittleEndian(s[1..])
  }

  /** Reading back a packed field gives the packed value. */
  lemma {:induction false} FromLittleEndianOfLittleEndian(n: nat, k: nat)
    requires n < Pow256(k)
    ensures FromLittleEndian(LittleEndian(n, k)) == n
  {
    if k > 0 {
      FromLittleEndianOfLittleEndian(n / 256, k - 1);
      assert LittleEndian(n, k)[1..] == LittleEndian(n / 256, k - 1);
    }
  }

  /** Packing the value read from a field gives the field's bytes back. */
  lemma {:induction false} LittleEndianOfFromLittleEndian(s: seq<byte>)
    ensures LittleEndian(FromLittleEndian(s), |s|) == s
  {
    if s != [] {
      var n := FromLittleEndian(s);
      var m := FromLittleEndian(s[1..]);
      assert n % 256 == s[0] && n / 256 == m;
      LittleEndianOfFromLittleEndian(s[1..]);
    }
  }

  function U16(n: nat): (r: seq<byte>)
    requires n < U16Limit
    ensures |r| == 2 && FromLittleEndian(r) == n
  {
    FieldLimits();
    FromLittleEndianOfLittleEndian(n, 2);
    LittleEndian(n, 2)
  }

  function U32(n: nat): (r: seq<byte>)
    requires n < U32Limit
    ensures |r| == 4 && FromLittleEndian(r) == n
  {
    FieldLimits();
    FromLittleEndianOfLittleEndian(n, 4);
    LittleEndian(n, 4)
  }

  /** A run of n zero bytes. */
  function Zeros(n: nat): (r: seq<byte>)
    ensures |r| == n && forall i :: 0 <= i < n ==> r[i] == 0
  {
    seq(n, _ => 0)
  }

  /** A fixed-width `struct` string field ("255s"): truncated or zero-padded to exactly n bytes. */
  function Pad(s: seq<byte>, n: nat): (r: seq<byte>)
    ensures |r| == n
    ensures forall i :: 0 <= i < n && i < |s| ==> r[i] == s[i]
    ensures forall i :: |s| <= i < n ==> r[i] == 0
  {
    if |s| >= n then s[..n] else s + Zeros(n - |s|)
  }

  /** The bytes before the first zero byte, as `partition(b"\0")[0]` gives them. */
  function CString(s: seq<byte>): (r: seq<byte>)
    ensures |r| <= |s| && r == s[..|r|]
    ensures forall i :: 0 <= i < |r| ==> r[i] != 0
    ensures |r| < |s| ==> s[|r|] == 0
  {
    if s == [] || s[0] == 0 then [] else [s[0]] + CString(s[1..])
  }

  /** A name with no zero byte that fits its padded field is read back whole. */
  lemma CStringOfPad(s: seq<byte>, n: nat)
    requires |s| <= n
    requires forall i :: 0 <= i < |s| ==> s[i] != 0
    ensures CString(Pad(s, n)) == s
  {
    var p := Pad(s, n);
    assert p[..|s|] == s;
    assert |s| < n ==> p[|s|] == 0;
  }

  /** Python's `s[lo:hi]` for non-negative bounds: both are clamped to the length. */
  function Slice<T>(s: seq<T>, lo: nat, hi: nat): (r: seq<T>)
    ensures |r| == if hi <= lo || |s| <= lo then 0 else (if hi < |s| then hi else |s|) - lo
    ensures forall i :: 0 <= i < |r| ==> r[i] == s[lo + i]
  {
    var h := if hi < |s| then hi else |s|;
    if h <= lo then [] else s[lo..h]
  }

  /** Python's `s[:-k]`: all but the last k elements, or nothing when s is shorter. */
  function DropLast<T>(s: seq<T>, k: nat): (r: seq<T>)
    ensures |r| == if |s| >= k then |s| - k else 0
    ensures r <= s
  {
    if |s| >= k then s[..|s| - k] else []
  }

  /** The concatenation of a sequence of sequences. */
  function Flatten<T>(ss: seq<seq<T>>): seq<T>
  {
    if ss == [] then [] else ss[0] + Flatten(ss[1..])
  }

  lemma {:induction false} FlattenAppend<T>(ss: seq<seq<T>>, s: seq<T>)
    ensures Flatten(ss + [s]) == Flatten(ss) + s
  {
    if ss != [] {
      assert (ss + [s])[1..] == ss[1..] + [s];
      FlattenAppend(ss[1..], s);
    }
  }

  /** The six fields of a packed record and what follows them, read back by position. */
  lemma Fields6<T>(a: seq<T>, b: seq<T>, c: seq<T>, d: seq<T>, e: seq<T>, f: seq<T>, rest: seq<T>)
    ensures var s := a + b + c + d + e + f + rest;
            var i1 := |a|; var i2 := i1 + |b|; var i3 := i2 + |c|;
            var i4 := i3 + |d|; var i5 := i4 + |e|; var i6 := i5 + |f|;
            && s[..i1] == a && s[i1..i2] == b && s[i2..i3] == c && s[i3..i4] == d
            && s[i4..i5] == e && s[i5..i6] == f && s[i6..] == rest && s[..i6] == a + b + c + d + e + f
  {
  }

  lemma AppendAssoc<T>(a: seq<T>, b: seq<T>, c: seq<T>)
    ensures a + b + c == a + (b + c)
  {
  }
}
