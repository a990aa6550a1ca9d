/** The fast-path selector of `SOMAArray::nnz`. The storage engine's fragment
    metadata is an input: one record per fragment with its timestamp range,
    its cell count and its non-empty range on dimension 0. The exact count that
    `_nnz_slow` would compute by reading the array is not modelled; the
    selector says when it would be used. */
module Nnz {
  import opened Base
  import opened Types

  /** A non-empty range on dimension 0, read into a pair of `uint64_t`. */
  datatype Range0 = Range0(lo: nat, hi: nat)

  datatype Fragment = Fragment(tsStart: nat, tsEnd: nat, cellNum: nat, dim0: Range0)

  /** The read timestamp range of the handle, both ends inclusive. */
  datatype TimestampRange = TimestampRange(first: nat, second: nat)

  /** What `nnz` returns: a count computed from fragment metadata, or the
      exact count of `_nnz_slow`. */
  datatype NnzResult = Summed(count: nat) | ExactCount

  const SOMA_JOINID: string := "soma_joinid"
  const SOMA_DIM_0: string := "soma_dim_0"

  // ---------------------------------------------------------------------
  // Classification of fragments against the read timestamp range.
  // ---------------------------------------------------------------------

  predicate FullyOutside(f: Fragment, ts: TimestampRange)
  {
    f.tsStart > ts.second || f.tsEnd < ts.first
  }

  predicate FullyInside(f: Fragment, ts: TimestampRange)
  {
    f.tsStart >= ts.first && f.tsEnd <= ts.second
  }

  /** A fragment that does not count because it is outside the read range. */
  predicate Skipped(f: Fragment, ts: Option<TimestampRange>)
  {
    ts.Some? && FullyOutside(f, ts.value)
  }

  /** A fragment that only partly overlaps the read range. */
  predicate Straddles(f: Fragment, ts: Option<TimestampRange>)
  {
    ts.Some? && !FullyOutside(f, ts.value) && !FullyInside(f, ts.value)
  }

  /** A fragment that spans several timestamps, i.e. came from consolidation. */
  predicate Consolidated(f: Fragment)
  {
    f.tsStart != f.tsEnd
  }

  /** A fragment whose presence rules out every metadata shortcut. */
  predicate ForcesExact(f: Fragment, ts: Option<TimestampRange>, allowsDups: bool)
  {
    Straddles(f, ts) || (!Skipped(f, ts) && !allowsDups && Consolidated(f))
  }

  predicate AnyForcesExact(frags: seq<Fragment>, ts: Option<TimestampRange>, allowsDups: bool)
  {
    exists i :: 0 <= i < |frags| && ForcesExact(frags[i], ts, allowsDups)
  }

  /** The fragments kept by the filter, in their original order. */
  function Relevant(frags: seq<Fragment>, ts: Option<TimestampRange>): (r: seq<Fragment>)
    ensures |r| <= |frags|
    ensures forall f :: f in r ==> f in frags && !Skipped(f, ts)
    ensures forall i :: 0 <= i < |frags| && !Skipped(frags[i], ts) ==> frags[i] in r
  {
    if frags == [] then []
    else
      var init := Relevant(frags[..|frags| - 1], ts);
      var last := frags[|frags| - 1];
      assert forall i :: 0 <= i < |frags| - 1 ==> frags[..|frags| - 1][i] == frags[i];
      if Skipped(last, ts) then init else init + [last]
  }

  /** Without a read timestamp range every fragment is relevant. */
  lemma {:induction false} RelevantWithoutRange(frags: seq<Fragment>)
    ensures Relevant(frags, None) == frags
  {
    if frags != [] {
      RelevantWithoutRange(frags[..|frags| - 1]);
    }
  }

  /** A single fragment is kept exactly when it is not skipped. */
  lemma RelevantSingleton(f: Fragment, ts: Option<TimestampRange>)
    ensures Relevant([f], ts) == if Skipped(f, ts) then [] else [f]
  {
    assert [f][..0] == [];
  }

  /** The filter works fragment by fragment: it distributes over
      concatenation, so the kept fragments appear once each, in input order. */
  lemma {:induction false} RelevantAppend(a: seq<Fragment>, b: seq<Fragment>, ts: Option<TimestampRange>)
    ensures Relevant(a + b, ts) == Relevant(a, ts) + Relevant(b, ts)
    decreases |b|
  {
    if b == [] {
      assert a + b == a;
    } else {
      var front := b[..|b| - 1];
      assert (a + b)[..|a + b| - 1] == a + front;
      assert (a + b)[|a + b| - 1] == b[|b| - 1];
      RelevantAppend(a, front, ts);
    }
  }

  function SumCells(frags: seq<Fragment>): nat
  {
    if frags == [] then 0 else SumCells(frags[..|frags| - 1]) + frags[|frags| - 1].cellNum
  }

  function Ranges(frags: seq<Fragment>): (r: seq<Range0>)
    ensures |r| == |frags|
    ensures forall i :: 0 <= i < |frags| ==> r[i] == frags[i].dim0
  {
    seq(|frags|, i requires 0 <= i < |frags| => frags[i].dim0)
  }

  /** Dimension 0 is an int64 `soma_joinid` or `soma_dim_0`, the only case in
      which the overlap test is meaningful. */
  predicate Dim0Eligible(dimName: string, dimType: DType)
  {
    (dimName == SOMA_JOINID || dimName == SOMA_DIM_0) && dimType == Int64
  }

  // ---------------------------------------------------------------------
  // Sorting ranges (std::sort on std::array<uint64_t, 2>) and overlap.
  // ---------------------------------------------------------------------

  /** The lexicographic order on pairs that std::sort uses. */
  predicate LexLe(a: Range0, b: Range0)
  {
    a.lo < b.lo || (a.lo == b.lo && a.hi <= b.hi)
  }

  predicate SortedLex(s: seq<Range0>)
  {
    forall i, j :: 0 <= i < j < |s| ==> LexLe(s[i], s[j])
  }

  /** Where `x` goes: before the first element it does not exceed. */
  function InsertPos(x: Range0, s: seq<Range0>): (p: nat)
    ensures p <= |s|
    ensures forall i :: 0 <= i < p ==> !LexLe(x, s[i])
    ensures p < |s| ==> LexLe(x, s[p])
  {
    if s == [] || LexLe(x, s[0]) then 0 else 1 + InsertPos(x, s[1..])
  }

  function Insert(x: Range0, s: seq<Range0>): (r: seq<Range0>)
    ensures multiset(r) == multiset(s) + multiset{x}
  {
    var p := InsertPos(x, s);
    assert s == s[..p] + s[p..];
    s[..p] + [x] + s[p..]
  }

  lemma InsertSorted(x: Range0, s: seq<Range0>)
    requires SortedLex(s)
    ensures SortedLex(Insert(x, s))
  {
    var p := InsertPos(x, s);
    var r := Insert(x, s);
    forall i, j | 0 <= i < j < |r|
      ensures LexLe(r[i], r[j])
    {
      if j < p {
        assert r[i] == s[i] && r[j] == s[j];
      } else if j == p {
        assert r[i] == s[i] && r[j] == x;
      } else if i == p {
        assert r[i] == x && r[j] == s[j - 1] && LexLe(x, s[p]);
        if j - 1 > p {
          assert LexLe(s[p], s[j - 1]);
        }
      } else if i < p {
        assert r[i] == s[i] && r[j] == s[j - 1] && !LexLe(x, s[i]);
        assert LexLe(s[i], s[j - 1]);
      } else {
        assert r[i] == s[i - 1] && r[j] == s[j - 1];
      }
    }
  }

  /** The ranges in ascending lexicographic order. */
  function SortRanges(s: seq<Range0>): (r: seq<Range0>)
    ensures SortedLex(r)
    ensures multiset(r) == multiset(s)
  {
    if s == [] then []
    else
      assert s == [s[0]] + s[1..];
      InsertSorted(s[0], SortRanges(s[1..]));
      Insert(s[0], SortRanges(s[1..]))
  }

  /** The test of the scan loop: some range reaches the next one. */
  predicate AdjacentOverlap(s: seq<Range0>)
  {
    exists k :: 0 <= k < |s| - 1 && s[k].hi >= s[k + 1].lo
  }

  predicate WellFormed(r: Range0)
  {
    r.lo <= r.hi
  }

  predicate Overlap(a: Range0, b: Range0)
  {
    a.lo <= b.hi && b.lo <= a.hi
  }

  /** No two ranges at different positions share a coordinate. */
  predicate PairwiseDisjoint(s: seq<Range0>)
  {
    forall i, j :: 0 <= i < j < |s| ==> !Overlap(s[i], s[j])
  }

  predicate DisjointFrom(x: Range0, s: seq<Range0>)
  {
    forall y :: y in s ==> !Overlap(x, y)
  }

  lemma {:induction false} NoAdjacentOverlapChain(s: seq<Range0>, i: nat, j: nat)
    requires forall k :: 0 <= k < |s| ==> WellFormed(s[k])
    requires !AdjacentOverlap(s)
    requires i < j < |s|
    ensures s[i].hi < s[j].lo
    decreases j - i
  {
    if j > i + 1 {
      NoAdjacentOverlapChain(s, i, j - 1);
      assert s[j - 1].hi < s[j].lo;
    }
  }

  /** On sorted, well-formed ranges the adjacent scan finds an overlap exactly
      when some pair overlaps. */
  lemma SortedScanIffDisjoint(s: seq<Range0>)
    requires SortedLex(s)
    requires forall k :: 0 <= k < |s| ==> WellFormed(s[k])
    ensures !AdjacentOverlap(s) <==> PairwiseDisjoint(s)
  {
    if !AdjacentOverlap(s) {
      forall i, j | 0 <= i < j < |s|
        ensures !Overlap(s[i], s[j])
      {
        NoAdjacentOverlapChain(s, i, j);
      }
    } else {
      var k :| 0 <= k < |s| - 1 && s[k].hi >= s[k + 1].lo;
      assert LexLe(s[k], s[k + 1]);
      assert Overlap(s[k], s[k + 1]);
    }
  }

  lemma PairwiseDisjointSplit(a: seq<Range0>, x: Range0, b: seq<Range0>)
    ensures PairwiseDisjoint(a + [x] + b) <==> PairwiseDisjoint(a + b) && DisjointFrom(x, a + b)
  {
    var s := a + [x] + b;
    var t := a + b;
    var p := |a|;
    if PairwiseDisjoint(s) {
      forall i, j | 0 <= i < j < |t|
        ensures !Overlap(t[i], t[j])
      {
        var i' := if i < p then i else i + 1;
        var j' := if j < p then j else j + 1;
        assert t[i] == s[i'] && t[j] == s[j'];
      }
      forall y | y in t
        ensures !Overlap(x, y)
      {
        var k :| 0 <= k < |t| && t[k] == y;
        if k < p {
          assert s[k] == y && s[p] == x;
        } else {
          assert s[k + 1] == y && s[p] == x;
        }
      }
    }
    if PairwiseDisjoint(t) && DisjointFrom(x, t) {
      forall i, j | 0 <= i < j < |s|
        ensures !Overlap(s[i], s[j])
      {
        if i == p {
          assert s[i] == x && s[j] == t[j - 1] && t[j - 1] in t;
        } else if j == p {
          assert s[j] == x && s[i] == t[i] && t[i] in t;
        } else {
          var i' := if i < p then i else i - 1;
          var j' := if j < p then j else j - 1;
          assert s[i] == t[i'] && s[j] == t[j'];
        }
      }
    }
  }

  lemma SameElementsDisjointFrom(x: Range0, s: seq<Range0>, t: seq<Range0>)
    requires multiset(s) == multiset(t)
    ensures DisjointFrom(x, s) <==> DisjointFrom(x, t)
  {
    forall y
      ensures y in s <==> y in t
    {
      assert y in s <==> y in multiset(s);
      assert y in t <==> y in multiset(t);
    }
  }

  lemma InsertDisjoint(x: Range0, t: seq<Range0>)
    ensures PairwiseDisjoint(Insert(x, t)) <==> PairwiseDisjoint(t) && DisjointFrom(x, t)
  {
    var p := InsertPos(x, t);
    PairwiseDisjointSplit(t[..p], x, t[p..]);
    assert t[..p] + t[p..] == t;
  }

  lemma ConsDisjoint(x: Range0, t: seq<Range0>)
    ensures PairwiseDisjoint([x] + t) <==> PairwiseDisjoint(t) && DisjointFrom(x, t)
  {
    PairwiseDisjointSplit([], x, t);
    assert [] + [x] + t == [x] + t;
    assert [] + t == t;
  }

  /** Sorting does not change whether the ranges are pairwise disjoint. */
  lemma {:induction false} SortPreservesDisjoint(s: seq<Range0>)
    ensures PairwiseDisjoint(SortRanges(s)) <==> PairwiseDisjoint(s)
  {
    if s != [] {
      var x := s[0];
      var rest := s[1..];
      var sr := SortRanges(rest);
      assert SortRanges(s) == Insert(x, sr);
      assert s == [x] + rest;
      SortPreservesDisjoint(rest);
      InsertDisjoint(x, sr);
      ConsDisjoint(x, rest);
      SameElementsDisjointFrom(x, sr, rest);
    }
  }

  /** The fast path's overlap test is independent of fragment order: on
      well-formed ranges it reports no overlap exactly when the ranges are
      pairwise disjoint. */
  lemma OverlapTestIffNotDisjoint(rs: seq<Range0>)
    requires forall k :: 0 <= k < |rs| ==> WellFormed(rs[k])
    ensures !AdjacentOverlap(SortRanges(rs)) <==> PairwiseDisjoint(rs)
  {
    var s := SortRanges(rs);
    forall k | 0 <= k < |s|
      ensures WellFormed(s[k])
    {
      assert s[k] in multiset(rs);
    }
    SortedScanIffDisjoint(s);
    SortPreservesDisjoint(rs);
  }

  lemma ModAddStep(a: int, c: int)
    ensures (a % TWO_64 + c) % TWO_64 == (a + c) % TWO_64
  {
    var q := a / TWO_64;
    assert a == q * TWO_64 + a % TWO_64;
    assert a + c == (a % TWO_64 + c) + q * TWO_64;
  }

  // ---------------------------------------------------------------------
  // nnz
  // ---------------------------------------------------------------------

  /** The filter loop of `nnz`: either a fragment forces the exact count, or
      the relevant fragments in order. */
  method FilterFragments(frags: seq<Fragment>, ts: Option<TimestampRange>, allowsDups: bool)
    returns (forced: bool, relevant: seq<Fragment>)
    ensures forced <==> AnyForcesExact(frags, ts, allowsDups)
    ensures !forced ==> relevant == Relevant(frags, ts)
  {
    relevant := [];
    var fid := 0;
    while fid < |frags|
      invariant 0 <= fid <= |frags|
      invariant relevant == Relevant(frags[..fid], ts)
      invariant !AnyForcesExact(frags[..fid], ts, allowsDups)
    {
      var f := frags[fid];
      assert frags[..fid + 1][..fid] == frags[..fid];
      if ts.Some? {
        if f.tsStart > ts.value.second || f.tsEnd < ts.value.first {
          fid := fid + 1;
          assert !AnyForcesExact(frags[..fid], ts, allowsDups) by {
            assert forall i :: 0 <= i < fid - 1 ==> frags[..fid][i] == frags[..fid - 1][i];
          }
          continue;
        } else if !(f.tsStart >= ts.value.first && f.tsEnd <= ts.value.second) {
          assert ForcesExact(frags[fid], ts, allowsDups);
          return true, relevant;
        }
      }
      relevant := relevant + [f];
      if !allowsDups && f.tsStart != f.tsEnd {
        assert ForcesExact(frags[fid], ts, allowsDups);
        return true, relevant;
      }
      fid := fid + 1;
      assert !AnyForcesExact(frags[..fid], ts, allowsDups) by {
        assert forall i :: 0 <= i < fid - 1 ==> frags[..fid][i] == frags[..fid - 1][i];
      }
    }
    assert frags[..fid] == frags;
    forced := false;
  }

  /** The summing loop of `nnz`: total cell count in `uint64_t` and the
      non-empty ranges on dimension 0, in fragment order. */
  method SumFragments(relevant: seq<Fragment>) returns (total: nat, ranges: seq<Range0>)
    ensures total == WrapU64(SumCells(relevant))
    ensures ranges == Ranges(relevant)
  {
    total := 0;
    ranges := [];
    var i := 0;
    while i < |relevant|
      invariant 0 <= i <= |relevant|
      invariant total == WrapU64(SumCells(relevant[..i]))
      invariant ranges == Ranges(relevant[..i])
    {
      assert relevant[..i + 1][..i] == relevant[..i];
      ModAddStep(SumCells(relevant[..i]), relevant[i].cellNum);
      total := WrapU64(total + relevant[i].cellNum);
      ranges := ranges + [relevant[i].dim0];
      i := i + 1;
    }
    assert relevant[..i] == relevant;
  }

  /** The scan over sorted ranges: is there a range reaching the next one? */
  method ScanOverlap(sorted: seq<Range0>) returns (overlap: bool)
    ensures overlap <==> AdjacentOverlap(sorted)
  {
    overlap := false;
    var k := 0;
    while k + 1 < |sorted|
      invariant 0 <= k <= |sorted|
      invariant forall m :: 0 <= m < k && m + 1 < |sorted| ==> sorted[m].hi < sorted[m + 1].lo
    {
      if sorted[k].hi >= sorted[k + 1].lo {
        return true;
      }
      k := k + 1;
    }
  }

  /** `nnz`: dense arrays are refused; a fragment straddling the read range,
      or a consolidated fragment on an array without duplicates, means the
      exact count; otherwise no relevant fragment gives 0, one gives its cell
      count, and two or more give their summed cell count (in `uint64_t`) only
      when dimension 0 is an int64 `soma_joinid`/`soma_dim_0` and the sorted
      non-empty ranges do not reach one another. */
  method ComputeNnz(
    sparse: bool, allowsDups: bool, frags: seq<Fragment>, ts: Option<TimestampRange>,
    dim0Name: string, dim0Type: DType)
    returns (r: Result<NnzResult>)
    ensures !sparse ==> r == Err(NotSparse)
    ensures sparse ==> r.Ok?
    ensures sparse && AnyForcesExact(frags, ts, allowsDups) ==> r == Ok(ExactCount)
    ensures sparse && !AnyForcesExact(frags, ts, allowsDups) ==>
      r == Ok(FastPath(Relevant(frags, ts), dim0Name, dim0Type))
  {
    if !sparse {
      return Err(NotSparse);
    }
    var forced, relevant := FilterFragments(frags, ts, allowsDups);
    if forced {
      return Ok(ExactCount);
    }
    var fragmentCount := |relevant|;
    if fragmentCount == 0 {
      return Ok(Summed(0));
    }
    if fragmentCount == 1 {
      return Ok(Summed(relevant[0].cellNum));
    }
    if (dim0Name != SOMA_JOINID && dim0Name != SOMA_DIM_0) || dim0Type != Int64 {
      return Ok(ExactCount);
    }
    var totalCellNum, nonEmptyDomains := SumFragments(relevant);
    var sorted := SortRanges(nonEmptyDomains);
    var overlap := ScanOverlap(sorted);
    if !overlap {
      return Ok(Summed(totalCellNum));
    }
    return Ok(ExactCount);
  }

  /** The decision of `nnz` once no fragment forces the exact count. */
  function FastPath(rel: seq<Fragment>, dim0Name: string, dim0Type: DType): (n: NnzResult)
    ensures |rel| == 0 ==> n == Summed(0)
    ensures |rel| == 1 ==> n == Summed(rel[0].cellNum)
    ensures |rel| >= 2 && !Dim0Eligible(dim0Name, dim0Type) ==> n == ExactCount
    ensures |rel| >= 2 && n.Summed? ==> n.count == WrapU64(SumCells(rel))
  {
    if |rel| == 0 then Summed(0)
    else if |rel| == 1 then Summed(rel[0].cellNum)
    else if Dim0Eligible(dim0Name, dim0Type) && !AdjacentOverlap(SortRanges(Ranges(rel))) then
      Summed(WrapU64(SumCells(rel)))
    else ExactCount
  }

  /** With two or more relevant fragments (whose non-empty ranges are
      well-formed) the metadata sum is used exactly when dimension 0 is
      eligible and no two fragments share a coordinate on it, whatever order
      the fragments come in. */
  lemma FastPathSumsIffDisjoint(rel: seq<Fragment>, dim0Name: string, dim0Type: DType)
    requires |rel| >= 2
    requires forall k :: 0 <= k < |rel| ==> WellFormed(rel[k].dim0)
    ensures FastPath(rel, dim0Name, dim0Type).Summed?
      <==> Dim0Eligible(dim0Name, dim0Type) && PairwiseDisjoint(Ranges(rel))
  {
    OverlapTestIffNotDisjoint(Ranges(rel));
  }

  /** The value `nnz` returns, given the count `_nnz_slow` would produce. */
  function NnzValue(r: NnzResult, exact: nat): (n: nat)
    ensures r.Summed? ==> n == r.count
    ensures r.ExactCount? ==> n == exact
  {
    match r
    case Summed(c) => c
    case ExactCount => exact
  }
}
