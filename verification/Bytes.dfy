/** Octets and little-endian integers, as the x86 and ARM targets of the programs lay them out. */
module Bytes {

  type byte = b: int | 0 <= b < 256

  const U16: nat := 0x1_0000
  const U32: nat := 0x1_0000_0000
  const U64: nat := 0x1_0000_0000_0000_0000

  /** The n low-order bytes of x, least significant first. */
  function ToLE(x: nat, n: nat): (s: seq<byte>)
    ensures |s| == n
  {
    if n == 0 then [] else [x % 256] + ToLE(x / 256, n - 1)
  }

  function FromLE(s: seq<byte>): nat {
    if s == [] then 0 else s[0] + 256 * FromLE(s[1..])
  }

  function Pow256(n: nat): nat {
    if n == 0 then 1 else 256 * Pow256(n - 1)
  }

  lemma Widths()
    ensures Pow256(1) == 256 && Pow256(2) == U16 && Pow256(4) == U32 && Pow256(8) == U64
  {
    assert Pow256(3) == 256 * Pow256(2);
    assert Pow256(5) == 256 * Pow256(4);
    assert Pow256(6) == 256 * Pow256(5);
    assert Pow256(7) == 256 * Pow256(6);
  }

  /** Storing an integer that fits and loading it back gives the integer. */
  lemma {:induction false} LoadStored(x: nat, n: nat)
    requires x < Pow256(n)
    ensures FromLE(ToLE(x, n)) == x
  {
    if n > 0 {
      LoadStored(x / 256, n - 1);
      assert ToLE(x, n)[1..] == ToLE(x / 256, n - 1);
    }
  }

  /** Loading bytes and storing them back gives the bytes, and the integer fits its width. */
  lemma {:induction false} StoreLoaded(s: seq<byte>)
    ensures FromLE(s) < Pow256(|s|)
    ensures ToLE(FromLE(s), |s|) == s
  {
    if s != [] {
      StoreLoaded(s[1..]);
      assert s == [s[0]] + s[1..];
    }
  }

  /** Every integer that fits a width used by the programs survives a store and a load. */
  lemma LoadStoredWidths(x: nat)
    ensures x < U16 ==> FromLE(ToLE(x, 2)) == x
    ensures x < U32 ==> FromLE(ToLE(x, 4)) == x
    ensures x < U64 ==> FromLE(ToLE(x, 8)) == x
  {
    Widths();
    if x < U16 { LoadStored(x, 2); }
    if x < U32 { LoadStored(x, 4); }
    if x < U64 { LoadStored(x, 8); }
  }

  /** The low-order byte comes first. */
  lemma LowByteFirst()
    ensures ToLE(0x04030201, 4) == [1, 2, 3, 4] && FromLE([1, 2, 3, 4]) == 0x04030201
  {
    assert ToLE(0x0403, 2) == [3] + ToLE(4, 1) == [3, 4];
    assert [1, 2, 3, 4][1..] == [2, 3, 4] && [2, 3, 4][1..] == [3, 4] && [3, 4][1..] == [4];
    assert FromLE([3, 4]) == 0x0403 && FromLE([2, 3, 4]) == 0x040302;
    assert ToLE(0x040302, 3) == [2] + ToLE(0x0403, 2);
  }

  /** s with d written over it at position o. */
  function Patch(s: seq<byte>, o: nat, d: seq<byte>): (r: seq<byte>)
    requires o + |d| <= |s|
    ensures |r| == |s|
  {
    s[..o] + d + s[o + |d|..]
  }

  lemma PatchInside(s: seq<byte>, o: nat, d: seq<byte>)
    requires o + |d| <= |s|
    ensures Patch(s, o, d)[o..o + |d|] == d
  {
  }

  /** A stretch that the patch does not touch keeps its bytes. */
  lemma PatchOutside(s: seq<byte>, o: nat, d: seq<byte>, a: nat, b: nat)
    requires o + |d| <= |s| && a <= b <= |s| && (b <= o || o + |d| <= a)
    ensures Patch(s, o, d)[a..b] == s[a..b]
  {
  }

  /** Two adjacent patches are one. */
  lemma PatchTwice(s: seq<byte>, o: nat, d: seq<byte>, e: seq<byte>)
    requires o + |d| + |e| <= |s|
    ensures Patch(Patch(s, o, d), o + |d|, e) == Patch(s, o, d + e)
  {
  }

  /** Equal stretches have equal parts. */
  lemma EqualParts(s: seq<byte>, s': seq<byte>, a: nat, b: nat, c: nat, d: nat)
    requires a <= c <= d <= b <= |s| && b <= |s'| && s[a..b] == s'[a..b]
    ensures s[c..d] == s'[c..d]
  {
    forall i | c <= i < d
      ensures s[i] == s'[i]
    {
      assert s[i] == s[a..b][i - a] == s'[a..b][i - a];
    }
  }

  /** A part of a stretch whose bytes are d is the corresponding part of d. */
  lemma PartOf(s: seq<byte>, o: nat, d: seq<byte>, a: nat, b: nat)
    requires o + |d| <= |s| && s[o..o + |d|] == d && a <= b <= |d|
    ensures s[o + a..o + b] == d[a..b]
  {
    forall i | a <= i < b
      ensures s[o + i] == d[i]
    {
      assert s[o + i] == s[o..o + |d|][i];
    }
  }

  /** memcpy: the bytes d go to position o. */
  method Store(a: array<byte>, o: nat, d: seq<byte>)
    requires o + |d| <= a.Length
    modifies a
    ensures a[..] == Patch(old(a[..]), o, d)
  {
    for i := 0 to |d|
      invariant a[..] == Patch(old(a[..]), o, d[..i])
    {
      a[o + i] := d[i];
    }
    assert d[..|d|] == d;
  }
}
