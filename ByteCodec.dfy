/** The byte images of the values the converter writes: 8-byte GraphElem
    integers in two's complement and 16-byte CSR entries (tail, weight),
    little-endian as on the machines the converter targets. */
module ByteCodec {
  import opened Graph

  newtype Byte = b: int | 0 <= b < 256

  const ElemSize: nat := 8
  const EntrySize: nat := 16

  function Pow256(n: nat): (p: nat)
    ensures p > 0
  {
    if n == 0 then 1 else 256 * Pow256(n - 1)
  }

  /** The n low-order bytes of x, least significant first. */
  function LittleEndian(x: nat, n: nat): (bs: seq<Byte>)
    ensures |bs| == n
  {
    if n == 0 then [] else [(x % 256) as Byte] + LittleEndian(x / 256, n - 1)
  }

  function FromLittleEndian(bs: seq<Byte>): nat
  {
    if bs == [] then 0 else bs[0] as nat + 256 * FromLittleEndian(bs[1..])
  }

  lemma DivBelow(x: nat, m: nat)
    requires x < 256 * m
    ensures x / 256 < m
  {
  }

  lemma {:induction false} LittleEndianRoundTrip(x: nat, n: nat)
    requires x < Pow256(n)
    ensures FromLittleEndian(LittleEndian(x, n)) == x
    decreases n
  {
    if n > 0 {
      var q, r := x / 256, x % 256;
      DivBelow(x, Pow256(n - 1));
      LittleEndianRoundTrip(q, n - 1);
      var bs := LittleEndian(x, n);
      assert bs == [r as Byte] + LittleEndian(q, n - 1);
      assert bs[1..] == LittleEndian(q, n - 1);
      assert bs[0] as nat == r;
      assert FromLittleEndian(bs) == r + 256 * q;
    }
  }

  const Two64: nat := 0x1_0000_0000_0000_0000
  const Int64Min: int := -0x8000_0000_0000_0000
  const Int64Max: int := 0x7FFF_FFFF_FFFF_FFFF

  lemma Pow256Of8()
    ensures Pow256(8) == Two64
  {
    assert Pow256(4) == 0x1_0000_0000;
  }

  /** A GraphElem as stored: two's complement over 8 bytes. */
  function Int64Bytes(x: int): (bs: seq<Byte>)
    ensures |bs| == ElemSize
  {
    LittleEndian(x % Two64, 8)
  }

  function FromInt64Bytes(bs: seq<Byte>): int
  {
    var u := FromLittleEndian(bs);
    if u > Int64Max then u - Two64 else u
  }

  /** Every 64-bit integer reads back as itself. */
  lemma Int64RoundTrip(x: int)
    requires Int64Min <= x <= Int64Max
    ensures FromInt64Bytes(Int64Bytes(x)) == x
  {
    Pow256Of8();
    LittleEndianRoundTrip(x % Two64, 8);
  }

  /** The weight as stored: its eight IEEE-754 bytes. */
  function WeightBytes(w: Weight): (bs: seq<Byte>)
    ensures |bs| == 8
  {
    LittleEndian(w as int, 8)
  }

  lemma WeightRoundTrip(w: Weight)
    ensures FromLittleEndian(WeightBytes(w)) == w as int
  {
    Pow256Of8();
    LittleEndianRoundTrip(w as int, 8);
  }

  /** The CSR entry written per edge: the target vertex and the weight. */
  datatype CsrEntry = CsrEntry(tail: int, weight: Weight)

  function EntryBytes(c: CsrEntry): (bs: seq<Byte>)
    ensures |bs| == EntrySize
  {
    Int64Bytes(c.tail) + WeightBytes(c.weight)
  }

  /** Reading an entry back from its 16 bytes gives the entry. */
  lemma EntryRoundTrip(c: CsrEntry)
    requires Int64Min <= c.tail <= Int64Max
    ensures FromInt64Bytes(EntryBytes(c)[..8]) == c.tail
    ensures FromLittleEndian(EntryBytes(c)[8..]) == c.weight as int
  {
    assert EntryBytes(c)[..8] == Int64Bytes(c.tail);
    assert EntryBytes(c)[8..] == WeightBytes(c.weight);
    Int64RoundTrip(c.tail);
    WeightRoundTrip(c.weight);
  }

  /** The bytes of an array of GraphElem, entry after entry. */
  function ElemsBytes(t: seq<int>): (bs: seq<Byte>)
    ensures |bs| == ElemSize * |t|
  {
    if t == [] then [] else ElemsBytes(t[..|t| - 1]) + Int64Bytes(t[|t| - 1])
  }

  /** The bytes of an array of CSR entries, entry after entry. */
  function EntriesBytes(cs: seq<CsrEntry>): (bs: seq<Byte>)
    ensures |bs| == EntrySize * |cs|
  {
    if cs == [] then [] else EntriesBytes(cs[..|cs| - 1]) + EntryBytes(cs[|cs| - 1])
  }

  lemma SliceOfPrefix(a: seq<Byte>, b: seq<Byte>, lo: nat, hi: nat)
    requires lo <= hi <= |a|
    ensures (a + b)[lo..hi] == a[lo..hi]
  {
  }

  lemma SliceOfSuffix(a: seq<Byte>, b: seq<Byte>)
    ensures (a + b)[|a|..|a| + |b|] == b
  {
  }

  /** Entry k of an array sits at bytes 8k .. 8k + 8. */
  lemma {:induction false} ElemAt(t: seq<int>, k: nat)
    requires k < |t|
    ensures ElemsBytes(t)[ElemSize * k .. ElemSize * k + ElemSize] == Int64Bytes(t[k])
    decreases |t|
  {
    var n := |t| - 1;
    var a := ElemsBytes(t[..n]);
    assert ElemsBytes(t) == a + Int64Bytes(t[n]);
    if k < n {
      ElemAt(t[..n], k);
      assert t[..n][k] == t[k];
      assert ElemSize * k + ElemSize == ElemSize * (k + 1) <= ElemSize * n;
      SliceOfPrefix(a, Int64Bytes(t[n]), ElemSize * k, ElemSize * k + ElemSize);
    } else {
      SliceOfSuffix(a, Int64Bytes(t[n]));
    }
  }

  /** Entry k of a CSR column array sits at bytes 16k .. 16k + 16. */
  lemma {:induction false} EntryAt(cs: seq<CsrEntry>, k: nat)
    requires k < |cs|
    ensures EntriesBytes(cs)[EntrySize * k .. EntrySize * k + EntrySize] == EntryBytes(cs[k])
    decreases |cs|
  {
    var n := |cs| - 1;
    var a := EntriesBytes(cs[..n]);
    assert EntriesBytes(cs) == a + EntryBytes(cs[n]);
    if k < n {
      EntryAt(cs[..n], k);
      assert cs[..n][k] == cs[k];
      assert EntrySize * k + EntrySize == EntrySize * (k + 1) <= EntrySize * n;
      SliceOfPrefix(a, EntryBytes(cs[n]), EntrySize * k, EntrySize * k + EntrySize);
    } else {
      SliceOfSuffix(a, EntryBytes(cs[n]));
    }
  }
}
