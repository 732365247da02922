/** Shard file names "<ci>__<cj>.csv" (parallel-shards.cpp line 98) and the
    recovery of the vertex-id offsets from a path (lines 126-132). */
module ShardNames {
  import opened Wrappers

  /** INT_MAX of a 32-bit int: the range std::stoi accepts. */
  const IntMax: int := 0x7FFF_FFFF
  const IntMin: int := -0x8000_0000

  predicate IsDigit(c: char)
  {
    '0' <= c <= '9'
  }

  predicate AllDigits(s: string)
  {
    forall k :: 0 <= k < |s| ==> IsDigit(s[k])
  }

  function DigitChar(d: nat): (c: char)
    requires d < 10
    ensures IsDigit(c)
  {
    (('0' as int) + d) as char
  }

  function DigitValue(c: char): nat
    requires IsDigit(c)
  {
    (c as int) - ('0' as int)
  }

  /** std::to_string of a non-negative integer: its decimal digits, no sign,
      no leading zero. */
  function NatToString(n: nat): (s: string)
    ensures 1 <= |s| && AllDigits(s)
    decreases n
  {
    if n < 10 then [DigitChar(n)] else NatToString(n / 10) + [DigitChar(n % 10)]
  }

  /** The number a string of decimal digits denotes. */
  function DigitsValue(s: string): nat
    requires AllDigits(s)
  {
    if s == [] then 0 else DigitsValue(s[..|s| - 1]) * 10 + DigitValue(s[|s| - 1])
  }

  lemma {:induction false} DigitsValueOfNatToString(n: nat)
    ensures DigitsValue(NatToString(n)) == n
    decreases n
  {
    var s := NatToString(n);
    if n >= 10 {
      DigitsValueOfNatToString(n / 10);
      assert s[..|s| - 1] == NatToString(n / 10);
    }
  }

  /** Decimal rendering is injective: distinct numbers give distinct names. */
  lemma NatToStringInjective(a: nat, b: nat)
    requires NatToString(a) == NatToString(b)
    ensures a == b
  {
    DigitsValueOfNatToString(a);
    DigitsValueOfNatToString(b);
  }

  /** The longest prefix of s made of decimal digits. */
  function DigitPrefix(s: string): (d: string)
    ensures |d| <= |s| && d == s[..|d|] && AllDigits(d)
    ensures |d| < |s| ==> !IsDigit(s[|d|])
  {
    if s == [] || !IsDigit(s[0]) then [] else [s[0]] + DigitPrefix(s[1..])
  }

  lemma {:induction false} DigitPrefixOfDigits(s: string)
    requires AllDigits(s)
    ensures DigitPrefix(s) == s
    decreases |s|
  {
    if s != [] {
      DigitPrefixOfDigits(s[1..]);
    }
  }

  /** The white-space characters of std::isspace in the C locale. */
  predicate IsSpace(c: char)
  {
    c == ' ' || c == '\t' || c == '\n' || c == '\r' || c == '\U{B}' || c == '\U{C}'
  }

  function SkipSpaces(s: string): (t: string)
    ensures |t| <= |s| && t == s[|s| - |t|..]
    ensures t == [] || !IsSpace(t[0])
  {
    if s != [] && IsSpace(s[0]) then SkipSpaces(s[1..]) else s
  }

  /** std::stoi in base 10: leading white space, an optional sign and at least
      one digit, the rest ignored; None where it throws invalid_argument (no
      digits) or out_of_range (the value does not fit an int). */
  function Stoi(s: string): (r: Option<int>)
    ensures r.Some? ==> IntMin <= r.value <= IntMax
  {
    var t := SkipSpaces(s);
    var negative := t != [] && t[0] == '-';
    var body := if t != [] && (t[0] == '+' || t[0] == '-') then t[1..] else t;
    var digits := DigitPrefix(body);
    if digits == [] then None
    else
      var value: int := if negative then 0 - DigitsValue(digits) else DigitsValue(digits);
      if IntMin <= value <= IntMax then Some(value) else None
  }

  lemma StoiOfNatToString(n: nat)
    requires n <= IntMax
    ensures Stoi(NatToString(n)) == Some(n)
  {
    var s := NatToString(n);
    assert SkipSpaces(s) == s;
    DigitPrefixOfDigits(s);
    DigitsValueOfNatToString(n);
  }

  /** pat occurs in s starting at k. */
  predicate OccursAt(s: string, pat: string, k: nat)
  {
    k + |pat| <= |s| && s[k..k + |pat|] == pat
  }

  /** std::string::find(pat, from): the first occurrence at or after from,
      or None for npos. */
  function FindFrom(s: string, pat: string, from: nat): (r: Option<nat>)
    ensures r.Some? ==> from <= r.value && OccursAt(s, pat, r.value)
    ensures r.Some? ==> forall k :: from <= k < r.value ==> !OccursAt(s, pat, k)
    ensures r.None? ==> forall k :: from <= k ==> !OccursAt(s, pat, k)
    decreases |s| - from
  {
    if from + |pat| > |s| then None
    else if s[from..from + |pat|] == pat then Some(from)
    else FindFrom(s, pat, from + 1)
  }

  function Find(s: string, pat: string): (r: Option<nat>)
  {
    FindFrom(s, pat, 0)
  }

  /** The first occurrence is the one Find reports. */
  lemma FindFirstOccurrence(s: string, pat: string, k: nat)
    requires OccursAt(s, pat, k)
    requires forall m :: 0 <= m < k ==> !OccursAt(s, pat, m)
    ensures Find(s, pat) == Some(k)
  {
  }

  /** std::string::find_last_of(c): the last position holding c, or None for npos. */
  function FindLast(s: string, c: char): (r: Option<nat>)
    ensures r.Some? ==> r.value < |s| && s[r.value] == c
    ensures r.Some? ==> forall k :: r.value < k < |s| ==> s[k] != c
    ensures r.None? ==> forall k :: 0 <= k < |s| ==> s[k] != c
  {
    if s == [] then None
    else if s[|s| - 1] == c then Some(|s| - 1)
    else FindLast(s[..|s| - 1], c)
  }

  /** Line 98: the shard file name of tile (ci, cj). */
  function ShardName(ci: nat, cj: nat): string
  {
    NatToString(ci) + "__" + NatToString(cj) + ".csv"
  }

  /** Line 99: the shard's path below the input directory. */
  function ShardPath(dir: string, ci: nat, cj: nat): string
  {
    dir + "/" + ShardName(ci, cj)
  }

  /** The vertex-id offsets of a shard: added to its first and second column. */
  datatype ShardOffsets = ShardOffsets(vLo: int, vHi: int)

  /** Line 126: the part after the last '/' (all of it when there is none,
      as npos + 1 wraps to 0). */
  function FileNameOf(path: string): (name: string)
    ensures |name| <= |path| && name == path[|path| - |name|..]
    ensures forall k :: 0 <= k < |name| ==> name[k] != '/'
    ensures |name| < |path| ==> path[|path| - |name| - 1] == '/'
  {
    match FindLast(path, '/')
    case None => path
    case Some(k) => path[k + 1..]
  }

  /** Line 127: the part before the first '.' (all of it when there is none). */
  function StripExtension(full: string): (noext: string)
    ensures |noext| <= |full| && noext == full[..|noext|]
    ensures forall k :: 0 <= k < |noext| ==> full[k] != '.'
    ensures |noext| < |full| ==> full[|noext|] == '.'
  {
    match Find(full, ".")
    case None =>
      assert forall k :: 0 <= k < |full| ==> !OccursAt(full, ".", k);
      NoDotBefore(full, |full|);
      full
    case Some(d) =>
      NoDotBefore(full, d);
      full[..d]
  }

  /** No position before d starts an occurrence of "." iff none holds '.'. */
  lemma NoDotBefore(full: string, d: nat)
    requires d <= |full|
    requires forall k :: 0 <= k < d ==> !OccursAt(full, ".", k)
    ensures forall k :: 0 <= k < d ==> full[k] != '.'
  {
    forall k | 0 <= k < d
      ensures full[k] != '.'
    {
      assert !OccursAt(full, ".", k);
      assert full[k..k + 1] == [full[k]];
    }
  }

  /** Line 128: noext from two past the first "__" of full; npos + 2 wraps to 1,
      and substr throws out_of_range (None) past the end of noext. */
  function RightPart(full: string, noext: string): (right: Option<string>)
    ensures right.Some? ==> |right.value| <= |noext| && right.value == noext[|noext| - |right.value|..]
    ensures Find(full, "__").None? ==> (right.Some? <==> 1 <= |noext|)
    ensures Find(full, "__").Some? ==> (right.None? <==> |noext| < Find(full, "__").value + 2)
  {
    var pos := match Find(full, "__")
      case None => 1
      case Some(u) => u + 2;
    if pos <= |noext| then Some(noext[pos..]) else None
  }

  /** Line 129: noext up to the first "__" of full; a length of npos, or one
      past the end, keeps all of noext. */
  function LeftPart(full: string, noext: string): (left: string)
    ensures |left| <= |noext| && left == noext[..|left|]
    ensures Find(full, "__").None? ==> left == noext
  {
    match Find(full, "__")
    case None => noext
    case Some(u) => if u <= |noext| then noext[..u] else noext
  }

  /** Lines 126-132: cut the two tile indices out of the path and scale them.
      None where substr or stoi throws. */
  function DecodeOffsets(path: string, shardCount: int): Option<ShardOffsets>
  {
    var full := FileNameOf(path);
    var noext := StripExtension(full);
    match RightPart(full, noext)
    case None => None
    case Some(right) => ScaleOffsets(LeftPart(full, noext), right, shardCount)
  }

  /** Lines 131-132: both indices parsed by stoi, less one, times shardCount. */
  function ScaleOffsets(left: string, right: string, shardCount: int): (o: Option<ShardOffsets>)
    ensures o.Some? <==> Stoi(left).Some? && Stoi(right).Some?
  {
    match (Stoi(left), Stoi(right))
    case (Some(l), Some(r)) => Some(ShardOffsets((l - 1) * shardCount, (r - 1) * shardCount))
    case _ => None
  }

  /** The last '/' of a shard path is the separator added at line 99. */
  lemma LastSlashOfShardPath(dir: string, ci: nat, cj: nat)
    ensures FindLast(ShardPath(dir, ci, cj), '/') == Some(|dir|)
    ensures ShardPath(dir, ci, cj)[|dir| + 1..] == ShardName(ci, cj)
  {
    var name := ShardName(ci, cj);
    var path := ShardPath(dir, ci, cj);
    assert path[|dir|] == '/';
    forall k | |dir| < k < |path| ensures path[k] != '/' {
      assert path[k] == name[k - |dir| - 1];
    }
    assert path[|dir| + 1..] == name;
  }

  /** The characters of a shard name, position by position. */
  lemma ShardNameAt(ci: nat, cj: nat, k: nat)
    requires k < |ShardName(ci, cj)|
    ensures var a, b := NatToString(ci), NatToString(cj);
      && |ShardName(ci, cj)| == |a| + 2 + |b| + 4
      && (k < |a| ==> ShardName(ci, cj)[k] == a[k])
      && (|a| <= k < |a| + 2 ==> ShardName(ci, cj)[k] == '_')
      && (|a| + 2 <= k < |a| + 2 + |b| ==> ShardName(ci, cj)[k] == b[k - |a| - 2])
      && (k == |a| + 2 + |b| ==> ShardName(ci, cj)[k] == '.')
  {
  }

  /** The first '.' of a shard name closes the second index. */
  lemma DotOfShardName(ci: nat, cj: nat)
    ensures Find(ShardName(ci, cj), ".") == Some(|NatToString(ci)| + 2 + |NatToString(cj)|)
  {
    var a, b := NatToString(ci), NatToString(cj);
    var name := ShardName(ci, cj);
    var dot := |a| + 2 + |b|;
    ShardNameAt(ci, cj, dot);
    assert name[dot..dot + 1] == [name[dot]];
    forall m | 0 <= m < dot ensures !OccursAt(name, ".", m) {
      ShardNameAt(ci, cj, m);
      assert name[m..m + 1] == [name[m]];
    }
    FindFirstOccurrence(name, ".", dot);
  }

  /** The first "__" of a shard name follows the first index. */
  lemma SeparatorOfShardName(ci: nat, cj: nat)
    ensures Find(ShardName(ci, cj), "__") == Some(|NatToString(ci)|)
  {
    var a := NatToString(ci);
    var name := ShardName(ci, cj);
    ShardNameAt(ci, cj, |a|);
    ShardNameAt(ci, cj, |a| + 1);
    assert name[|a|..|a| + 2] == [name[|a|], name[|a| + 1]];
    forall m | 0 <= m < |a| ensures !OccursAt(name, "__", m) {
      ShardNameAt(ci, cj, m);
      assert name[m..m + 2][0] == name[m];
    }
    FindFirstOccurrence(name, "__", |a|);
  }

  /** Round trip: decoding the path built at line 99 gives back the offsets
      (ci-1)*shardCount and (cj-1)*shardCount, whatever the directory. */
  lemma DecodeShardPath(dir: string, ci: nat, cj: nat, shardCount: int)
    requires ci <= IntMax && cj <= IntMax
    ensures DecodeOffsets(ShardPath(dir, ci, cj), shardCount)
            == Some(ShardOffsets((ci - 1) * shardCount, (cj - 1) * shardCount))
  {
    var a, b := NatToString(ci), NatToString(cj);
    var name := ShardName(ci, cj);
    var noext := name[..|a| + 2 + |b|];
    FileNameOfShardPath(dir, ci, cj);
    StripShardName(ci, cj);
    SplitShardName(ci, cj);
    StoiOfNatToString(ci);
    StoiOfNatToString(cj);
    DecodeOffsetsOf(ShardPath(dir, ci, cj), name, noext, a, b, ci, cj, shardCount);
  }

  lemma FileNameOfShardPath(dir: string, ci: nat, cj: nat)
    ensures FileNameOf(ShardPath(dir, ci, cj)) == ShardName(ci, cj)
  {
    LastSlashOfShardPath(dir, ci, cj);
  }

  lemma StripShardName(ci: nat, cj: nat)
    ensures StripExtension(ShardName(ci, cj)) == ShardName(ci, cj)[..|NatToString(ci)| + 2 + |NatToString(cj)|]
  {
    DotOfShardName(ci, cj);
  }

  /** The two halves around the "__" of a shard name without its extension. */
  lemma SplitShardName(ci: nat, cj: nat)
    ensures var a, b := NatToString(ci), NatToString(cj);
      var noext := ShardName(ci, cj)[..|a| + 2 + |b|];
      RightPart(ShardName(ci, cj), noext) == Some(b) && LeftPart(ShardName(ci, cj), noext) == a
  {
    var a, b := NatToString(ci), NatToString(cj);
    var name := ShardName(ci, cj);
    var noext := name[..|a| + 2 + |b|];
    SeparatorOfShardName(ci, cj);
    assert noext[|a| + 2..] == b;
    assert noext[..|a|] == a;
  }

  /** DecodeOffsets once its intermediate strings and numbers are known. */
  lemma DecodeOffsetsOf(path: string, full: string, noext: string, left: string, right: string,
                        l: int, r: int, shardCount: int)
    requires FileNameOf(path) == full && StripExtension(full) == noext
    requires RightPart(full, noext) == Some(right) && LeftPart(full, noext) == left
    requires Stoi(left) == Some(l) && Stoi(right) == Some(r)
    ensures DecodeOffsets(path, shardCount) == Some(ShardOffsets((l - 1) * shardCount, (r - 1) * shardCount))
  {
    assert DecodeOffsets(path, shardCount) == ScaleOffsets(left, right, shardCount);
    ScaleOffsetsOf(left, right, l, r, shardCount);
  }

  lemma ScaleOffsetsOf(left: string, right: string, l: int, r: int, shardCount: int)
    requires Stoi(left) == Some(l) && Stoi(right) == Some(r)
    ensures ScaleOffsets(left, right, shardCount) == Some(ShardOffsets((l - 1) * shardCount, (r - 1) * shardCount))
  {
  }
}
