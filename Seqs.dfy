/** Sums, concatenations and exclusive prefix sums over sequences: the values
    that the collective reductions and the buffer bookkeeping compute. */
module Seqs {

  /** Sum of a sequence of integers, folded from the right end. */
  function Sum(s: seq<int>): int
  {
    if s == [] then 0 else Sum(s[..|s| - 1]) + s[|s| - 1]
  }

  lemma {:induction false} SumAppend(a: seq<int>, b: seq<int>)
    ensures Sum(a + b) == Sum(a) + Sum(b)
    decreases |b|
  {
    if b == [] {
      assert a + b == a;
    } else {
      assert (a + b)[..|a + b| - 1] == a + b[..|b| - 1];
      SumAppend(a, b[..|b| - 1]);
    }
  }

  lemma {:induction false} SumNonNegative(s: seq<int>)
    requires forall k :: 0 <= k < |s| ==> s[k] >= 0
    ensures Sum(s) >= 0
    decreases |s|
  {
    if s != [] {
      SumNonNegative(s[..|s| - 1]);
    }
  }

  /** The prefix sums grow by the next element: Sum(s[..k+1]) == Sum(s[..k]) + s[k]. */
  lemma SumPrefixStep(s: seq<int>, k: nat)
    requires k < |s|
    ensures Sum(s[..k + 1]) == Sum(s[..k]) + s[k]
  {
    assert s[..k + 1][..k] == s[..k];
  }

  /** Adding one to a single entry adds one to the sum. */
  lemma {:induction false} SumIncrementAt(s: seq<int>, t: seq<int>, o: nat)
    requires |s| == |t| && o < |s|
    requires t[o] == s[o] + 1
    requires forall k :: 0 <= k < |s| && k != o ==> t[k] == s[k]
    ensures Sum(t) == Sum(s) + 1
    decreases |s|
  {
    var n := |s| - 1;
    if o == n {
      assert t[..n] == s[..n];
    } else {
      SumIncrementAt(s[..n], t[..n], o);
    }
  }

  /** Sum of a pointwise sum of two equally long sequences. */
  lemma {:induction false} SumPointwise(a: seq<int>, b: seq<int>, c: seq<int>)
    requires |a| == |b| == |c|
    requires forall k :: 0 <= k < |c| ==> c[k] == a[k] + b[k]
    ensures Sum(c) == Sum(a) + Sum(b)
    decreases |c|
  {
    if c != [] {
      var n := |c| - 1;
      SumPointwise(a[..n], b[..n], c[..n]);
    }
  }

  lemma {:induction false} SumScale(s: seq<int>, t: seq<int>, f: int)
    requires |s| == |t|
    requires forall k :: 0 <= k < |s| ==> t[k] == f * s[k]
    ensures Sum(t) == f * Sum(s)
    decreases |s|
  {
    if s != [] {
      var n := |s| - 1;
      SumScale(s[..n], t[..n], f);
    }
  }

  /** Concatenation of a sequence of sequences, in index order. */
  function Concat<T>(ss: seq<seq<T>>): seq<T>
  {
    if ss == [] then [] else Concat(ss[..|ss| - 1]) + ss[|ss| - 1]
  }

  /** The length of every element of ss. */
  function Lengths<T>(ss: seq<seq<T>>): (ls: seq<int>)
    ensures |ls| == |ss| && forall p :: 0 <= p < |ss| ==> ls[p] == |ss[p]|
  {
    seq(|ss|, p requires 0 <= p < |ss| => |ss[p]|)
  }

  lemma {:induction false} ConcatLength<T>(ss: seq<seq<T>>)
    ensures |Concat(ss)| == Sum(Lengths(ss))
    decreases |ss|
  {
    if ss != [] {
      var n := |ss| - 1;
      ConcatLength(ss[..n]);
      assert Lengths(ss)[..n] == Lengths(ss[..n]);
    }
  }

  /** Element p of ss sits in Concat(ss) right after the elements before it. */
  lemma {:induction false} ConcatSlice<T>(ss: seq<seq<T>>, p: nat)
    requires p < |ss|
    ensures 0 <= Sum(Lengths(ss)[..p])
    ensures Sum(Lengths(ss)[..p]) + |ss[p]| <= |Concat(ss)|
    ensures Concat(ss)[Sum(Lengths(ss)[..p]) .. Sum(Lengths(ss)[..p]) + |ss[p]|] == ss[p]
    decreases |ss|
  {
    var n := |ss| - 1;
    ConcatLength(ss[..n]);
    assert Lengths(ss)[..n] == Lengths(ss[..n]);
    SumNonNegative(Lengths(ss)[..p]);
    assert Concat(ss) == Concat(ss[..n]) + ss[n];
    if p == n {
      assert Lengths(ss)[..p] == Lengths(ss[..n]);
    } else {
      ConcatSlice(ss[..n], p);
      assert Lengths(ss)[..p] == Lengths(ss[..n])[..p];
      var lo := Sum(Lengths(ss)[..p]);
      assert Concat(ss)[lo .. lo + |ss[p]|] == Concat(ss[..n])[lo .. lo + |ss[p]|];
    }
  }

  lemma {:induction false} ConcatMultisetUpdate<T>(ss: seq<seq<T>>, o: nat, x: T)
    requires o < |ss|
    ensures multiset(Concat(ss[o := ss[o] + [x]])) == multiset(Concat(ss)) + multiset{x}
    decreases |ss|
  {
    var n := |ss| - 1;
    var tt := ss[o := ss[o] + [x]];
    assert tt[..n] == if o == n then ss[..n] else ss[..n][o := ss[o] + [x]];
    if o < n {
      ConcatMultisetUpdate(ss[..n], o, x);
    }
  }

  /** Exclusive prefix sums of s: entry p is the sum of the entries before p. */
  function ExclusiveScan(s: seq<int>): (d: seq<int>)
    ensures |d| == |s| && forall p :: 0 <= p < |s| ==> d[p] == Sum(s[..p])
  {
    seq(|s|, p requires 0 <= p < |s| => Sum(s[..p]))
  }

  /** The scan starts at zero and each entry adds its predecessor's size. */
  lemma ExclusiveScanSteps(s: seq<int>)
    ensures forall p :: 0 <= p < |s| ==> ExclusiveScan(s)[p] == Sum(s[..p])
    ensures |s| > 0 ==> ExclusiveScan(s)[0] == 0
    ensures forall p :: 0 <= p < |s| - 1 ==> ExclusiveScan(s)[p + 1] == ExclusiveScan(s)[p] + s[p]
    ensures |s| > 0 ==> ExclusiveScan(s)[|s| - 1] + s[|s| - 1] == Sum(s)
  {
    forall p | 0 <= p < |s| - 1
      ensures ExclusiveScan(s)[p + 1] == ExclusiveScan(s)[p] + s[p]
    {
      SumPrefixStep(s, p);
    }
    if |s| > 0 {
      assert s[..|s|] == s;
      SumPrefixStep(s, |s| - 1);
    }
  }

  /** Prefix sums of non-negative entries never decrease. */
  lemma {:induction false} PrefixSumMonotone(s: seq<int>, a: nat, b: nat)
    requires a <= b <= |s|
    requires forall k :: 0 <= k < |s| ==> s[k] >= 0
    ensures Sum(s[..a]) <= Sum(s[..b])
    decreases b - a
  {
    if a < b {
      PrefixSumMonotone(s, a, b - 1);
      SumPrefixStep(s, b - 1);
    }
  }

  /** The concatenation of the first q lists is a prefix of the whole. */
  lemma {:induction false} ConcatPrefix<T>(ss: seq<seq<T>>, q: nat)
    requires q <= |ss|
    ensures Concat(ss[..q]) <= Concat(ss)
    decreases |ss| - q
  {
    if q < |ss| {
      var n := |ss| - 1;
      ConcatPrefix(ss[..n], q);
      assert ss[..n][..q] == ss[..q];
    } else {
      assert ss[..q] == ss;
    }
  }

  lemma ConcatStep<T>(ss: seq<seq<T>>, p: nat)
    requires p < |ss|
    ensures Concat(ss[..p + 1]) == Concat(ss[..p]) + ss[p]
  {
    assert ss[..p + 1][..p] == ss[..p];
  }

  /** Row sums and column sums of an m-by-n table. */
  function RowSums(m: seq<seq<int>>): (rs: seq<int>)
    ensures |rs| == |m| && forall p :: 0 <= p < |m| ==> rs[p] == Sum(m[p])
  {
    seq(|m|, p requires 0 <= p < |m| => Sum(m[p]))
  }

  function Column(m: seq<seq<int>>, r: nat): (c: seq<int>)
    requires forall p :: 0 <= p < |m| ==> r < |m[p]|
    ensures |c| == |m| && forall p :: 0 <= p < |m| ==> c[p] == m[p][r]
  {
    seq(|m|, p requires 0 <= p < |m| => m[p][r])
  }

  function ColumnSums(m: seq<seq<int>>, n: nat): (cs: seq<int>)
    requires forall p :: 0 <= p < |m| ==> |m[p]| == n
    ensures |cs| == n && forall r :: 0 <= r < n ==> cs[r] == Sum(Column(m, r))
  {
    seq(n, r requires 0 <= r < n => Sum(Column(m, r)))
  }

  /** Summing a table by rows or by columns gives the same total. */
  lemma {:induction false} SumRowsColumns(m: seq<seq<int>>, n: nat)
    requires forall p :: 0 <= p < |m| ==> |m[p]| == n
    ensures Sum(RowSums(m)) == Sum(ColumnSums(m, n))
    decreases |m|
  {
    if m == [] {
      assert forall r :: 0 <= r < n ==> Column(m, r) == [];
      SumScale(ColumnSums(m, n), ColumnSums(m, n), 0);
    } else {
      var k := |m| - 1;
      var m' := m[..k];
      SumRowsColumns(m', n);
      assert RowSums(m)[..k] == RowSums(m');
      forall r | 0 <= r < n
        ensures ColumnSums(m, n)[r] == ColumnSums(m', n)[r] + m[k][r]
      {
        assert Column(m, r)[..k] == Column(m', r);
      }
      SumPointwise(ColumnSums(m', n), m[k], ColumnSums(m, n));
    }
  }

  lemma LastSplit<T>(s: seq<T>)
    requires |s| > 0
    ensures s == s[..|s| - 1] + [s[|s| - 1]]
  {
  }
}
