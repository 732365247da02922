/** The vertex-range partition (parallel-shards.cpp lines 207-213) and the
    owner lookup by std::upper_bound (lines 245-246 and 255-256). */
module VertexPartition {

  predicate Sorted(s: seq<int>)
  {
    forall a, b :: 0 <= a <= b < |s| ==> s[a] <= s[b]
  }

  /** Line 211: the first vertex of rank i's range. */
  function Boundary(V: nat, P: nat, i: nat): nat
    requires P >= 1
  {
    V * i / P
  }

  /** The boundary table of lines 207-211, parts[0..P]. */
  function Parts(V: nat, P: nat): (parts: seq<int>)
    requires P >= 1
    ensures |parts| == P + 1
  {
    seq(P + 1, i requires 0 <= i <= P => Boundary(V, P, i))
  }

  /** Lines 207-211. */
  method BuildParts(V: nat, nprocs: nat) returns (parts: array<int>)
    requires nprocs >= 1
    ensures fresh(parts)
    ensures parts[..] == Parts(V, nprocs)
  {
    parts := new int[nprocs + 1];
    parts[0] := 0;
    var i := 1;
    while i < nprocs + 1
      invariant 1 <= i <= nprocs + 1
      invariant parts[0] == 0
      invariant forall k :: 1 <= k < i ==> parts[k] == Boundary(V, nprocs, k)
    {
      parts[i] := (V * i) / nprocs;
      i := i + 1;
    }
  }

  /** Line 213: the number of vertices rank `rank` owns. */
  function LocalNumVertices(V: nat, P: nat, rank: nat): int
    requires P >= 1 && rank < P
  {
    (V * (rank + 1)) / P - (V * rank) / P
  }

  /** A multiple of P strictly between -P and P is zero. */
  lemma SmallMultiple(d: int, P: int)
    requires P > 0 && -P < d * P < P
    ensures d == 0
  {
    if d >= 1 {
      MulAtLeast(d, P);
    } else if d <= -1 {
      MulAtLeast(-d, P);
    }
  }

  lemma MulAtLeast(d: int, P: int)
    requires d >= 1 && P > 0
    ensures d * P >= P
  {
  }

  /** Euclidean division is unique: quotient q and remainder r determine n / P. */
  lemma DivUnique(n: int, P: int, q: int, r: int)
    requires P > 0 && 0 <= r < P && n == q * P + r
    ensures n / P == q && n % P == r
  {
    var d := q - n / P;
    assert n == (n / P) * P + n % P;
    assert d * P == q * P - (n / P) * P;
    SmallMultiple(d, P);
  }

  lemma DivMonotone(a: nat, b: nat, P: nat)
    requires P > 0 && a <= b
    ensures a / P <= b / P
  {
    var d := a / P - b / P;
    assert a == (a / P) * P + a % P && b == (b / P) * P + b % P;
    assert d * P == (a / P) * P - (b / P) * P;
    if d >= 1 {
      MulAtLeast(d, P);
    }
  }

  /** Adding m < P to x raises x / P by at most one. */
  lemma DivAddSmall(x: int, m: nat, P: int)
    requires P > 0 && m < P
    ensures (x + m) / P == x / P || (x + m) / P == x / P + 1
    ensures m == 0 ==> (x + m) / P == x / P
  {
    var s, t := x / P, x % P;
    assert x == s * P + t;
    if t + m < P {
      DivUnique(x + m, P, s, t + m);
    } else {
      assert x + m == (s + 1) * P + (t + m - P);
      DivUnique(x + m, P, s + 1, t + m - P);
    }
  }

  /** (a * P + b) / P == a + b / P */
  lemma DivShift(a: int, b: int, P: int)
    requires P > 0
    ensures (a * P + b) / P == a + b / P
  {
    assert b == (b / P) * P + b % P;
    assert a * P + b == (a + b / P) * P + b % P;
    DivUnique(a * P + b, P, a + b / P, b % P);
  }

  /** The boundaries start at 0, end at V and never decrease. */
  lemma PartsShape(V: nat, P: nat)
    requires P >= 1
    ensures Parts(V, P)[0] == 0 && Parts(V, P)[P] == V
    ensures Sorted(Parts(V, P))
  {
    var parts := Parts(V, P);
    assert parts[P] == V * P / P;
    DivUnique(V * P, P, V, 0);
    forall a, b | 0 <= a <= b < |parts| ensures parts[a] <= parts[b] {
      assert V * a <= V * b by {
        assert V * b == V * a + V * (b - a);
      }
      DivMonotone(V * a, V * b, P);
    }
  }

  /** Every range holds floor(V / P) or ceil(V / P) vertices, and rank r's
      range is the one line 213 counts. */
  lemma RangeSizes(V: nat, P: nat, r: nat)
    requires P >= 1 && r < P
    ensures LocalNumVertices(V, P, r) == Parts(V, P)[r + 1] - Parts(V, P)[r]
    ensures LocalNumVertices(V, P, r) == V / P || LocalNumVertices(V, P, r) == V / P + 1
    ensures V % P == 0 ==> LocalNumVertices(V, P, r) == V / P
  {
    var q, m := V / P, V % P;
    assert V == q * P + m;
    assert V * r == (q * r) * P + m * r by {
      assert V * r == (q * P + m) * r;
    }
    assert V * (r + 1) == (q * (r + 1)) * P + (m * r + m) by {
      assert V * (r + 1) == (q * P + m) * (r + 1);
    }
    DivShift(q * r, m * r, P);
    DivShift(q * (r + 1), m * r + m, P);
    DivAddSmall(m * r, m, P);
  }

  /** std::upper_bound over parts[lo..hi): the first position whose boundary
      exceeds v, found by halving the range as the library does. */
  function UpperBound(parts: seq<int>, v: int, lo: nat, hi: nat): (k: nat)
    requires lo <= hi <= |parts| && Sorted(parts)
    ensures lo <= k <= hi
    ensures forall m :: lo <= m < k ==> parts[m] <= v
    ensures forall m :: k <= m < hi ==> v < parts[m]
    decreases hi - lo
  {
    if lo == hi then lo
    else
      var mid := lo + (hi - lo) / 2;
      if v < parts[mid] then UpperBound(parts, v, lo, mid) else UpperBound(parts, v, mid + 1, hi)
  }

  /** Lines 245-246: the owner is one before the upper bound. */
  function Owner(parts: seq<int>, v: int): int
    requires Sorted(parts)
  {
    UpperBound(parts, v, 0, |parts|) - 1
  }

  /** Every vertex of the graph has an owner among the P ranks, whose range
      [parts[owner], parts[owner + 1]) holds it; a vertex equal to a boundary
      goes to the range that starts at it. */
  lemma OwnerSpec(V: nat, P: nat, v: int)
    requires P >= 1 && 0 <= v < V
    ensures Sorted(Parts(V, P))
    ensures 0 <= Owner(Parts(V, P), v) < P
    ensures Parts(V, P)[Owner(Parts(V, P), v)] <= v < Parts(V, P)[Owner(Parts(V, P), v) + 1]
    ensures forall r :: 0 <= r < P && Parts(V, P)[r] == v ==> Owner(Parts(V, P), v) >= r
  {
    PartsShape(V, P);
  }

  /** The owner is the only rank whose range holds v. */
  lemma OwnerUnique(V: nat, P: nat, v: int, r: nat)
    requires P >= 1 && r < P
    requires Parts(V, P)[r] <= v < Parts(V, P)[r + 1]
    ensures Sorted(Parts(V, P)) && Owner(Parts(V, P), v) == r
  {
    PartsShape(V, P);
    var k := UpperBound(Parts(V, P), v, 0, P + 1);
    assert k >= r + 1;
    assert k <= r + 1;
  }

  /** A negative id has no owner: upper_bound stops at parts[0] = 0, so
      line 246 gives owner -1, and line 249 then indexes outEdges[-1]. */
  lemma NegativeIdUnowned(V: nat, P: nat, v: int)
    requires P >= 1 && v < 0
    ensures Sorted(Parts(V, P))
    ensures Owner(Parts(V, P), v) == -1
  {
    PartsShape(V, P);
  }
}
