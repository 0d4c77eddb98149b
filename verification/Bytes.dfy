/** Bytes, little-endian numbers, and ranges of byte sequences.

    Machine integers are subset types of int: every operation of the program that can wrap is
    written with an explicit `U32` or `U64`. */
module Bytes {
  import opened Arithmetic

  type byte = x: int | 0 <= x < 0x100
  type uint16 = x: int | 0 <= x < 0x1_0000
  type uint32 = x: int | 0 <= x < 0x1_0000_0000
  type uint64 = x: int | 0 <= x < 0x1_0000_0000_0000_0000

  function U32(x: int): (r: uint32)
    ensures 0 <= x < 0x1_0000_0000 ==> r == x
  {
    x % 0x1_0000_0000
  }

  function U64(x: int): (r: uint64)
    ensures 0 <= x < 0x1_0000_0000_0000_0000 ==> r == x
  {
    x % 0x1_0000_0000_0000_0000
  }

  function Add32(a: uint32, b: uint32): uint32 {
    U32(a + b)
  }

  function Sub32(a: uint32, b: uint32): uint32 {
    U32(a - b)
  }

  function Mul32(a: uint32, b: uint32): uint32 {
    U32(a * b)
  }

  /** The number of values of `width` bytes. */
  function Pow256(width: nat): (p: nat)
    ensures p >= 1
  {
    if width == 0 then 1 else 0x100 * Pow256(width - 1)
  }

  lemma Pow256Values()
    ensures Pow256(1) == 0x100 && Pow256(2) == 0x1_0000 && Pow256(4) == 0x1_0000_0000
    ensures Pow256(8) == 0x1_0000_0000_0000_0000
  {
    assert Pow256(4) == 0x100 * (0x100 * Pow256(2));
    assert Pow256(6) == 0x100 * (0x100 * Pow256(4));
    assert Pow256(8) == 0x100 * (0x100 * Pow256(6));
  }

  /** The low `width` bytes of n, least significant first. */
  function LE(n: nat, width: nat): (s: seq<byte>)
    ensures |s| == width
  {
    if width == 0 then [] else [n % 0x100] + LE(n / 0x100, width - 1)
  }

  function FromLE(s: seq<byte>): (n: nat)
  {
    if s == [] then 0 else s[0] + 0x100 * FromLE(s[1..])
  }

  lemma {:induction false} FromLEOfLE(n: nat, width: nat)
    requires n < Pow256(width)
    ensures FromLE(LE(n, width)) == n
  {
    if width > 0 {
      FromLEOfLE(n / 0x100, width - 1);
      assert LE(n, width)[1..] == LE(n / 0x100, width - 1);
    }
  }

  lemma {:induction false} FromLEBound(s: seq<byte>)
    ensures FromLE(s) < Pow256(|s|)
  {
    if s != [] {
      FromLEBound(s[1..]);
    }
  }

  function Read16(s: seq<byte>): (n: uint16)
    requires |s| == 2
    ensures n == FromLE(s)
  {
    Pow256Values();
    FromLEBound(s);
    FromLE(s)
  }

  function Read32(s: seq<byte>): (n: uint32)
    requires |s| == 4
    ensures n == FromLE(s)
  {
    Pow256Values();
    FromLEBound(s);
    FromLE(s)
  }

  function Read64(s: seq<byte>): (n: uint64)
    requires |s| == 8
    ensures n == FromLE(s)
  {
    Pow256Values();
    FromLEBound(s);
    FromLE(s)
  }

  lemma Read16OfLE(n: uint16)
    ensures Read16(LE(n, 2)) == n
  {
    Pow256Values();
    FromLEOfLE(n, 2);
  }

  lemma Read32OfLE(n: uint32)
    ensures Read32(LE(n, 4)) == n
  {
    Pow256Values();
    FromLEOfLE(n, 4);
  }

  lemma Read64OfLE(n: uint64)
    ensures Read64(LE(n, 8)) == n
  {
    Pow256Values();
    FromLEOfLE(n, 8);
  }

  /** Writing a number into a narrower field keeps exactly its residue. */
  lemma {:induction false} FromLETruncates(n: nat, width: nat)
    ensures FromLE(LE(n, width)) == n % Pow256(width)
  {
    if width > 0 {
      FromLETruncates(n / 0x100, width - 1);
      assert LE(n, width)[1..] == LE(n / 0x100, width - 1);
      ModSplit(n, Pow256(width - 1));
    }
  }

  function Zeros(n: nat): (s: seq<byte>)
    ensures |s| == n
    ensures forall i :: 0 <= i < n ==> s[i] == 0
  {
    seq(n, _ => 0)
  }

  lemma {:induction false} ZeroLE(width: nat)
    ensures LE(0, width) == Zeros(width)
  {
    if width > 0 {
      ZeroLE(width - 1);
    }
  }

  /** `n` bytes of `s` from offset `off`. */
  function Slice(s: seq<byte>, off: nat, n: nat): (r: seq<byte>)
    requires off + n <= |s|
    ensures |r| == n
  {
    s[off..off + n]
  }

  /** `s` after writing `d` at `off`. */
  function Splice(s: seq<byte>, off: nat, d: seq<byte>): (r: seq<byte>)
    requires off + |d| <= |s|
    ensures |r| == |s|
    ensures forall i :: 0 <= i < |s| ==> r[i] == if off <= i < off + |d| then d[i - off] else s[i]
  {
    s[..off] + d + s[off + |d|..]
  }

  lemma SliceOfSplice(s: seq<byte>, off: nat, d: seq<byte>)
    requires off + |d| <= |s|
    ensures Slice(Splice(s, off, d), off, |d|) == d
  {
  }

  /** A write leaves every range it does not overlap as it was. */
  lemma SliceElsewhere(s: seq<byte>, off: nat, d: seq<byte>, o: nat, n: nat)
    requires off + |d| <= |s| && o + n <= |s|
    requires o + n <= off || off + |d| <= o
    ensures Slice(Splice(s, off, d), o, n) == Slice(s, o, n)
  {
  }

  /** Little-endian fields of one, two and four bytes written over `s`. */
  function Put1(s: seq<byte>, off: nat, x: uint32): (r: seq<byte>)
    requires off + 1 <= |s|
    ensures |r| == |s| && forall i :: 0 <= i < |s| ==> r[i] == if i == off then x % 0x100 else s[i]
  {
    s[off := x % 0x100]
  }

  function Put2(s: seq<byte>, off: nat, x: uint32): (r: seq<byte>)
    requires off + 2 <= |s|
    ensures |r| == |s|
    ensures U16At(r, off) == x % 0x1_0000
    ensures forall i :: 0 <= i < |s| && !(off <= i < off + 2) ==> r[i] == s[i]
  {
    BytesOf16(x);
    Put1(Put1(s, off, x), off + 1, x / 0x100)
  }

  function Put4(s: seq<byte>, off: nat, x: uint32): (r: seq<byte>)
    requires off + 4 <= |s|
    ensures |r| == |s|
    ensures U32At(r, off) == x
    ensures forall i :: 0 <= i < |s| && !(off <= i < off + 4) ==> r[i] == s[i]
  {
    BytesOf32(x);
    Put2(Put2(s, off, x), off + 2, x / 0x1_0000)
  }

  lemma BytesOf16(x: uint32)
    ensures x % 0x100 + 0x100 * (x / 0x100 % 0x100) == x % 0x1_0000
  {
    ModSplit(x, 0x100);
  }

  lemma BytesOf32(x: uint32)
    ensures x % 0x100 + 0x100 * (x / 0x100 % 0x100)
            + 0x1_0000 * (x / 0x1_0000 % 0x100) + 0x100_0000 * (x / 0x1_0000 / 0x100 % 0x100) == x
  {
  }

  function U16At(s: seq<byte>, off: nat): (n: uint16)
    requires off + 2 <= |s|
  {
    s[off] as int + 0x100 * (s[off + 1] as int)
  }

  function U32At(s: seq<byte>, off: nat): (n: uint32)
    requires off + 4 <= |s|
  {
    s[off] as int + 0x100 * (s[off + 1] as int) + 0x1_0000 * (s[off + 2] as int) + 0x100_0000 * (s[off + 3] as int)
  }

  function U64At(s: seq<byte>, off: nat): (n: uint64)
    requires off + 8 <= |s|
  {
    U32At(s, off) + 0x1_0000_0000 * U32At(s, off + 4)
  }

  /** A little-endian number is the sum of its bytes, by place. */
  lemma Read16At(s: seq<byte>, off: nat)
    requires off + 2 <= |s|
    ensures Read16(Slice(s, off, 2)) == U16At(s, off)
  {
    var b := Slice(s, off, 2);
    assert b[1..][1..] == [];
    assert FromLE(b[1..]) == b[1] as int;
  }

  lemma Read32At(s: seq<byte>, off: nat)
    requires off + 4 <= |s|
    ensures Read32(Slice(s, off, 4)) == U32At(s, off)
  {
    FromFour(Slice(s, off, 4));
  }

  lemma Read64At(s: seq<byte>, off: nat)
    requires off + 8 <= |s|
    ensures Read64(Slice(s, off, 8)) == U64At(s, off)
  {
    var b := Slice(s, off, 8);
    Read32At(s, off + 4);
    FromFour(b);
    assert b[4..] == Slice(s, off + 4, 4);
  }

  lemma SliceInSlice(s: seq<byte>, off: nat, n: nat, o: nat, k: nat)
    requires off + n <= |s| && o + k <= n
    ensures Slice(Slice(s, off, n), o, k) == Slice(s, off + o, k)
  {
    var inner := Slice(s, off, n);
    forall j | 0 <= j < k ensures Slice(inner, o, k)[j] == Slice(s, off + o, k)[j] {
      assert Slice(inner, o, k)[j] == inner[o + j] == s[off + (o + j)];
    }
  }

  lemma NumbersInSlice(s: seq<byte>, at: nat, n: nat, off: nat)
    requires at + n <= |s|
    ensures off + 4 <= n ==> U32At(Slice(s, at, n), off) == U32At(s, at + off)
    ensures off + 8 <= n ==> U64At(Slice(s, at, n), off) == U64At(s, at + off)
  {
  }

  lemma FromFour(b: seq<byte>)
    requires |b| >= 4
    ensures FromLE(b) == (b[0] as int) + 0x100 * (b[1] as int) + 0x1_0000 * (b[2] as int) + 0x100_0000 * (b[3] as int) + 0x1_0000_0000 * FromLE(b[4..])
  {
    assert b[1..][1..] == b[2..] && b[2..][1..] == b[3..] && b[3..][1..] == b[4..];
    assert FromLE(b[3..]) == (b[3] as int) + 0x100 * FromLE(b[4..]);
    assert FromLE(b[2..]) == (b[2] as int) + 0x100 * FromLE(b[3..]);
    assert FromLE(b[1..]) == (b[1] as int) + 0x100 * FromLE(b[2..]);
  }

  lemma SpliceAtSeam(a: seq<byte>, tail: seq<byte>, d: seq<byte>)
    requires |d| <= |tail|
    ensures Splice(a + tail, |a|, d) == a + d + tail[|d|..]
  {
  }
}
