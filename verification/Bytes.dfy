/** Machine words in a region of bytes. Native stores are little-endian, as on x86-64. */
module Bytes {
  import opened Common

  function Pow256(n: nat): (p: nat)
    ensures p > 0
  {
    if n == 0 then 1 else 256 * Pow256(n - 1)
  }

  /** The number a little-endian byte string denotes. */
  function FromLE(s: seq<byte>): (v: nat)
    ensures v < Pow256(|s|)
  {
    if |s| == 0 then 0 else s[0] + 256 * FromLE(s[1..])
  }

  /** The n low bytes of v, least significant first. */
  function ToLE(v: nat, n: nat): (s: seq<byte>)
    ensures |s| == n
  {
    if n == 0 then [] else [v % 256] + ToLE(v / 256, n - 1)
  }

  lemma {:induction false} FromToLE(v: nat, n: nat)
    requires v < Pow256(n)
    ensures FromLE(ToLE(v, n)) == v
  {
    if n > 0 {
      FromToLE(v / 256, n - 1);
      assert ToLE(v, n)[1..] == ToLE(v / 256, n - 1);
    }
  }

  lemma {:induction false} ToFromLE(s: seq<byte>)
    ensures ToLE(FromLE(s), |s|) == s
  {
    if |s| > 0 {
      ToFromLE(s[1..]);
      var v := FromLE(s);
      assert v / 256 == FromLE(s[1..]) && v % 256 == s[0];
    }
  }

  /** Four bytes, least significant first. */
  lemma FourBytes(b: seq<byte>)
    requires |b| == 4
    ensures FromLE(b) == (b[0] as nat) + 0x100 * (b[1] as nat) + 0x1_0000 * (b[2] as nat) + 0x100_0000 * (b[3] as nat)
  {
    assert FromLE(b[3..]) == b[3] + 256 * FromLE(b[3..][1..]);
    assert b[3..][1..] == [] && FromLE([]) == 0;
    assert b[2..][1..] == b[3..] && b[1..][1..] == b[2..];
    assert FromLE(b[2..]) == b[2] + 256 * FromLE(b[3..]);
    assert FromLE(b[1..]) == b[1] + 256 * FromLE(b[2..]);
  }

  /** Eight bytes are two times four. */
  lemma EightBytes(b: seq<byte>)
    requires |b| == 8
    ensures FromLE(b) == FromLE(b[..4]) + 0x1_0000_0000 * FromLE(b[4..])
  {
    FourBytes(b[..4]);
    assert b[1..][1..] == b[2..] && b[2..][1..] == b[3..] && b[3..][1..] == b[4..];
    assert FromLE(b[3..]) == b[3] + 256 * FromLE(b[4..]);
    assert FromLE(b[2..]) == b[2] + 256 * FromLE(b[3..]);
    assert FromLE(b[1..]) == b[1] + 256 * FromLE(b[2..]);
    assert FromLE(b) == b[0] + 256 * FromLE(b[1..]);
  }

  /** The number determines the bytes. */
  lemma SameNumberSameBytes(a: seq<byte>, b: seq<byte>)
    requires |a| == |b| && FromLE(a) == FromLE(b)
    ensures a == b
  {
    ToFromLE(a);
    ToFromLE(b);
  }

  /** A small number in four bytes. */
  lemma SmallWord(b: seq<byte>, v: byte)
    requires |b| == 4
    ensures FromLE(b) == v <==> b == [v, 0, 0, 0]
    ensures ToLE(v, 4) == [v, 0, 0, 0]
  {
    FourBytes(b);
    WordSizes();
    FromToLE(v, 4);
    FourBytes(ToLE(v, 4));
  }

  lemma WordSizes()
    ensures Pow256(4) == U32_MODULUS && Pow256(8) == U64_MODULUS
  {
    assert Pow256(1) == 256;
    assert Pow256(2) == 0x1_0000;
    assert Pow256(3) == 0x100_0000;
    assert Pow256(4) == U32_MODULUS;
    assert Pow256(5) == 256 * U32_MODULUS;
    assert Pow256(6) == 0x1_0000 * U32_MODULUS;
    assert Pow256(7) == 0x100_0000 * U32_MODULUS;
  }

  /** Where `repr(C)` puts a field of the given alignment after one that ends at `end`. */
  predicate FieldAt(off: nat, end: nat, alignment: nat)
    requires alignment > 0
  {
    off % alignment == 0 && end <= off < end + alignment
  }

  function Reverse(s: seq<byte>): (r: seq<byte>)
    ensures |r| == |s|
    ensures forall k :: 0 <= k < |s| ==> r[k] == s[|s| - 1 - k]
  {
    seq(|s|, k requires 0 <= k < |s| => s[|s| - 1 - k])
  }

  /** Big-endian, as used for the words of an operation id. */
  function FromBE(s: seq<byte>): (v: nat)
    ensures v < Pow256(|s|)
  {
    FromLE(Reverse(s))
  }

  function ToBE(v: nat, n: nat): (s: seq<byte>)
    ensures |s| == n
  {
    Reverse(ToLE(v, n))
  }

  /** A big-endian word stored natively and loaded back is the same four bytes. */
  lemma WordRoundTrip(s: seq<byte>)
    ensures ToBE(FromLE(ToLE(FromBE(s), |s|)), |s|) == s
  {
    FromToLE(FromBE(s), |s|);
    ToFromLE(Reverse(s));
    ReverseTwice(s);
  }

  lemma ReverseTwice(s: seq<byte>)
    ensures Reverse(Reverse(s)) == s
  {
  }

  // ---------- regions ----------

  /** Region m after the bytes b were stored at offset off. */
  function Splice(m: seq<byte>, off: nat, b: seq<byte>): (r: seq<byte>)
    requires off + |b| <= |m|
    ensures |r| == |m|
  {
    m[..off] + b + m[off + |b|..]
  }

  lemma SpliceReadsBack(m: seq<byte>, off: nat, b: seq<byte>)
    requires off + |b| <= |m|
    ensures Splice(m, off, b)[off..off + |b|] == b
  {
  }

  lemma SpliceLeavesAlone(m: seq<byte>, off: nat, b: seq<byte>, lo: nat, hi: nat)
    requires off + |b| <= |m| && lo <= hi <= |m|
    requires hi <= off || off + |b| <= lo
    ensures Splice(m, off, b)[lo..hi] == m[lo..hi]
  {
  }

  /** Storing inside a window is storing in the window. */
  lemma SpliceInside(m: seq<byte>, off: nat, b: seq<byte>, lo: nat, hi: nat)
    requires lo <= off && off + |b| <= hi <= |m|
    ensures Splice(m, off, b)[lo..hi] == Splice(m[lo..hi], off - lo, b)
    ensures Splice(m, off, b)[..lo] == m[..lo]
    ensures Splice(m, off, b)[hi..] == m[hi..]
  {
  }

  /** Two adjacent stores are one longer store. */
  lemma SpliceTwice(m: seq<byte>, off: nat, a: seq<byte>, b: seq<byte>)
    requires off + |a| + |b| <= |m|
    ensures Splice(Splice(m, off, a), off + |a|, b) == Splice(m, off, a + b)
  {
  }

  /** An atomic store or a block copy into the mapped region. */
  method StoreBytes(mem: array<byte>, off: nat, b: seq<byte>)
    requires off + |b| <= mem.Length
    modifies mem
    ensures mem[..] == Splice(old(mem[..]), off, b)
  {
    forall k | 0 <= k < |b| {
      mem[off + k] := b[k];
    }
  }
}
