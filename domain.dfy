/** The shape model of `SOMAArray`: the (max) domain and the current domain
    of an int64-indexed array, the advisory checks that say whether a new
    shape may be installed, and the builders of the new current domain. The
    schema read from the storage engine is an input; the schema evolution the
    builders hand their rectangle to is not modelled. */
module Domain {
  import opened Base
  import opened Types

  /** A dimension with its immutable (max) domain `[lo, hi]`. */
  datatype Dim = Dim(name: string, dtype: DType, lo: int64, hi: int64)

  /** An int64 range of an NDRectangle. */
  datatype Range = Range(lo: int64, hi: int64)

  /** The current domain: empty on arrays created before shapes existed,
      otherwise an NDRectangle holding a range per dimension name. */
  datatype CurrentDomain = EmptyDomain | Rect(ranges: map<string, Range>)

  datatype Schema = Schema(dims: seq<Dim>, current: CurrentDomain)

  datatype OpenMode = Read | Write

  /** Why a requested shape is refused. */
  datatype Reason =
    | WrongNdim(given: nat, actual: nat)
    | MissingShape
    | ShapeAlreadyPresent
    | AboveMaxShape(dim: string, requested: int64, limit: int64)
    | BelowCurrentShape(dim: string, requested: int64, existing: int64)

  /** The (bool, reason) pair of the advisory checks. */
  datatype Check = Feasible | Infeasible(reason: Reason)

  const SOMA_JOINID: string := "soma_joinid"

  predicate DimsAreInt64(dims: seq<Dim>)
  {
    forall i :: 0 <= i < |dims| ==> dims[i].dtype == Int64
  }

  predicate HasShape(s: Schema)
  {
    s.current.Rect?
  }

  predicate HasDimensionName(dims: seq<Dim>, name: string)
  {
    exists i :: 0 <= i < |dims| && dims[i].name == name
  }

  /** Dimension names are unique, as the storage engine demands. */
  predicate DistinctNames(dims: seq<Dim>)
  {
    forall i, j :: 0 <= i < j < |dims| ==> dims[i].name != dims[j].name
  }

  // ---------------------------------------------------------------------
  // shape and maxshape
  // ---------------------------------------------------------------------

  /** `_tiledb_domain`: the number of coordinates `hi - lo + 1` of every
      dimension's max domain, in int64. */
  function TiledbDomain(dims: seq<Dim>): (r: Result<seq<int64>>)
    ensures r.Err? <==> !DimsAreInt64(dims)
    ensures r.Err? ==> r.error == DimsNotInt64
    ensures r.Ok? ==> |r.value| == |dims|
    ensures r.Ok? ==> forall i :: 0 <= i < |dims| ==>
      (dims[i].lo <= dims[i].hi && dims[i].hi - dims[i].lo < INT64_MAX ==>
         r.value[i] == dims[i].hi - dims[i].lo + 1)
  {
    if !DimsAreInt64(dims) then Err(DimsNotInt64)
    else Ok(seq(|dims|, i requires 0 <= i < |dims| => WrapI64(dims[i].hi - dims[i].lo + 1)))
  }

  /** The current-domain size `hi + 1` of each dimension, in dimension order;
      the first dimension whose range is not set is an error. */
  function CurrentSizes(dims: seq<Dim>, ranges: map<string, Range>): (r: Result<seq<int64>>)
    ensures r.Ok? <==> forall i :: 0 <= i < |dims| ==> dims[i].name in ranges
    ensures r.Ok? ==> |r.value| == |dims|
    ensures r.Ok? ==> forall i :: 0 <= i < |dims| ==>
      r.value[i] == WrapI64(ranges[dims[i].name].hi as int + 1)
    ensures r.Err? ==>
      exists i :: (&& 0 <= i < |dims| && dims[i].name !in ranges
                   && r.error == RangeNotSet(dims[i].name)
                   && forall j :: 0 <= j < i ==> dims[j].name in ranges)
  {
    if dims == [] then Ok([])
    else if dims[0].name !in ranges then Err(RangeNotSet(dims[0].name))
    else
      match CurrentSizes(dims[1..], ranges)
      case Ok(rest) =>
        assert forall i :: 1 <= i < |dims| ==> dims[i] == dims[1..][i - 1];
        Ok([WrapI64(ranges[dims[0].name].hi as int + 1)] + rest)
      case Err(e) =>
        assert forall i :: 1 <= i < |dims| ==> dims[i] == dims[1..][i - 1];
        Err(e)
  }

  /** `_tiledb_current_domain`. */
  function TiledbCurrentDomain(s: Schema): (r: Result<seq<int64>>)
    ensures !DimsAreInt64(s.dims) ==> r == Err(DimsNotInt64)
    ensures DimsAreInt64(s.dims) && !HasShape(s) ==> r == Err(NoCurrentDomain)
    ensures DimsAreInt64(s.dims) && HasShape(s) ==> r == CurrentSizes(s.dims, s.current.ranges)
  {
    if !DimsAreInt64(s.dims) then Err(DimsNotInt64)
    else if s.current.EmptyDomain? then Err(NoCurrentDomain)
    else CurrentSizes(s.dims, s.current.ranges)
  }

  /** `shape`: the current domain's sizes, or the max domain's on an array
      without a current domain. */
  function Shape(s: Schema): (r: Result<seq<int64>>)
    ensures !HasShape(s) ==> r == MaxShape(s)
    ensures HasShape(s) ==> r == TiledbCurrentDomain(s)
  {
    if s.current.EmptyDomain? then TiledbDomain(s.dims) else TiledbCurrentDomain(s)
  }

  /** `maxshape`. */
  function MaxShape(s: Schema): (r: Result<seq<int64>>)
    ensures r == TiledbDomain(s.dims)
  {
    TiledbDomain(s.dims)
  }

  /** The widest dimension an int64 array can be given, `[0, INT64_MAX - 1]`,
      has shape `INT64_MAX`. */
  lemma WidestDimensionShape(name: string)
    ensures Shape(Schema([Dim(name, Int64, 0, INT64_MAX - 1)], EmptyDomain)) == Ok([INT64_MAX])
  {
    var r := Shape(Schema([Dim(name, Int64, 0, INT64_MAX - 1)], EmptyDomain));
    assert r.Ok? && |r.value| == 1 && r.value[0] == INT64_MAX;
    assert r.value == [INT64_MAX];
  }

  // ---------------------------------------------------------------------
  // Advisory checks
  // ---------------------------------------------------------------------

  /** The test of one dimension in `_can_set_shape_domainish_subhelper`:
      against the max domain the requested size may not exceed `hi + 1`;
      against the current domain it may not be below `hi + 1`. */
  function DimOutcome(d: Dim, current: CurrentDomain, n: int64, checkCurrent: bool): (r: Result<Check>)
    requires checkCurrent ==> current.Rect?
    ensures r == Ok(Feasible) <==>
      && d.dtype == Int64
      && (checkCurrent ==> d.name in current.ranges && n >= WrapI64(current.ranges[d.name].hi as int + 1))
      && (!checkCurrent ==> n <= WrapI64(d.hi as int + 1))
    ensures d.dtype != Int64 ==> r == Err(DimTypeNotInt64(d.name))
    ensures d.dtype == Int64 && checkCurrent && d.name !in current.ranges ==> r == Err(RangeNotSet(d.name))
    ensures d.dtype == Int64 && (checkCurrent ==> d.name in current.ranges) ==> r.Ok?
    ensures r.Ok? && r.value.Infeasible? && checkCurrent ==>
      d.name in current.ranges
      && r.value.reason == BelowCurrentShape(d.name, n, WrapI64(current.ranges[d.name].hi as int + 1))
    ensures r.Ok? && r.value.Infeasible? && !checkCurrent ==>
      r.value.reason == AboveMaxShape(d.name, n, WrapI64(d.hi as int + 1))
  {
    if d.dtype != Int64 then Err(DimTypeNotInt64(d.name))
    else if checkCurrent then
      if d.name !in current.ranges then Err(RangeNotSet(d.name))
      else
        var oldShape := WrapI64(current.ranges[d.name].hi as int + 1);
        if n < oldShape then Ok(Infeasible(BelowCurrentShape(d.name, n, oldShape))) else Ok(Feasible)
    else
      var oldShape := WrapI64(d.hi as int + 1);
      if n > oldShape then Ok(Infeasible(AboveMaxShape(d.name, n, oldShape))) else Ok(Feasible)
  }

  /** `_can_set_shape_domainish_subhelper` from dimension `from` on: the
      outcome of the first dimension that does not pass, or feasible. */
  function DomainishCheck(
    dims: seq<Dim>, current: CurrentDomain, newshape: seq<int64>, checkCurrent: bool, from: nat)
    : (r: Result<Check>)
    requires |newshape| == |dims|
    requires from <= |dims|
    requires checkCurrent ==> current.Rect?
    ensures r == Ok(Feasible) <==>
      forall i :: from <= i < |dims| ==> DimOutcome(dims[i], current, newshape[i], checkCurrent) == Ok(Feasible)
    ensures r != Ok(Feasible) ==>
      exists i :: (&& from <= i < |dims|
                   && r == DimOutcome(dims[i], current, newshape[i], checkCurrent)
                   && forall j :: from <= j < i ==>
                        DimOutcome(dims[j], current, newshape[j], checkCurrent) == Ok(Feasible))
    decreases |dims| - from
  {
    if from == |dims| then Ok(Feasible)
    else
      var o := DimOutcome(dims[from], current, newshape[from], checkCurrent);
      if o != Ok(Feasible) then o
      else DomainishCheck(dims, current, newshape, checkCurrent, from + 1)
  }

  /** `_can_set_shape_helper`, shared by `can_upgrade_shape` and `can_resize`. */
  function CanSetShapeHelper(s: Schema, newshape: seq<int64>, isResize: bool): (r: Result<Check>)
    ensures |newshape| != |s.dims| ==> r == Ok(Infeasible(WrongNdim(|newshape|, |s.dims|)))
    ensures |newshape| == |s.dims| && isResize && !HasShape(s) ==> r == Ok(Infeasible(MissingShape))
    ensures |newshape| == |s.dims| && !isResize && HasShape(s) ==> r == Ok(Infeasible(ShapeAlreadyPresent))
    ensures |newshape| == |s.dims| && HasShape(s) == isResize ==>
      var maxCheck := DomainishCheck(s.dims, s.current, newshape, false, 0);
      r == if maxCheck != Ok(Feasible) then maxCheck
           else if isResize then DomainishCheck(s.dims, s.current, newshape, true, 0)
           else Ok(Feasible)
    ensures r == Ok(Feasible) <==>
      && |newshape| == |s.dims|
      && HasShape(s) == isResize
      && (forall i :: 0 <= i < |s.dims| ==> DimOutcome(s.dims[i], s.current, newshape[i], false) == Ok(Feasible))
      && (isResize ==> forall i :: 0 <= i < |s.dims| ==>
            DimOutcome(s.dims[i], s.current, newshape[i], true) == Ok(Feasible))
  {
    if |newshape| != |s.dims| then Ok(Infeasible(WrongNdim(|newshape|, |s.dims|)))
    else if isResize && !HasShape(s) then Ok(Infeasible(MissingShape))
    else if !isResize && HasShape(s) then Ok(Infeasible(ShapeAlreadyPresent))
    else
      var maxCheck := DomainishCheck(s.dims, s.current, newshape, false, 0);
      if maxCheck != Ok(Feasible) then maxCheck
      else if HasShape(s) then DomainishCheck(s.dims, s.current, newshape, true, 0)
      else Ok(Feasible)
  }

  /** On an int64 array whose current domain sets every dimension, a new
      shape is accepted exactly when it has the array's dimension count, the
      array's shape state suits the operation, no size exceeds `maxshape`,
      and, on resize, no size is below the current `shape`. */
  lemma CanSetShapeIffWithinBounds(s: Schema, newshape: seq<int64>, isResize: bool)
    requires DimsAreInt64(s.dims)
    requires |newshape| == |s.dims|
    requires HasShape(s) ==> forall i :: 0 <= i < |s.dims| ==> s.dims[i].name in s.current.ranges
    ensures CanSetShapeHelper(s, newshape, isResize) == Ok(Feasible) <==>
      && HasShape(s) == isResize
      && (forall i :: 0 <= i < |s.dims| ==> newshape[i] <= WrapI64(s.dims[i].hi as int + 1))
      && (isResize ==> forall i :: 0 <= i < |s.dims| ==>
            newshape[i] >= WrapI64(s.current.ranges[s.dims[i].name].hi as int + 1))
  {
    if HasShape(s) == isResize {
      forall i | 0 <= i < |s.dims|
        ensures DimOutcome(s.dims[i], s.current, newshape[i], false) == Ok(Feasible)
            <==> newshape[i] <= WrapI64(s.dims[i].hi as int + 1)
        ensures isResize ==> (DimOutcome(s.dims[i], s.current, newshape[i], true) == Ok(Feasible)
            <==> newshape[i] >= WrapI64(s.current.ranges[s.dims[i].name].hi as int + 1))
      {
      }
    }
  }

  /** The first dimension with the given name, as the engine's lookup by
      name finds it. */
  function DimNamed(dims: seq<Dim>, name: string): (d: Dim)
    requires HasDimensionName(dims, name)
    ensures d in dims && d.name == name
    ensures exists i :: 0 <= i < |dims| && dims[i] == d && forall j :: 0 <= j < i ==> dims[j].name != name
  {
    if dims[0].name == name then dims[0]
    else
      assert HasDimensionName(dims[1..], name) by {
        var i :| 0 <= i < |dims| && dims[i].name == name;
        assert dims[1..][i - 1] == dims[i];
      }
      var d := DimNamed(dims[1..], name);
      assert forall i :: 1 <= i < |dims| ==> dims[i] == dims[1..][i - 1];
      d
  }

  /** `_can_set_soma_joinid_shape_helper` as written: the requested
      `soma_joinid` size is compared with the ranges' `hi` itself. */
  function CanSetJoinidShapeAsWritten(s: Schema, newshape: int64, isResize: bool): (r: Result<Check>)
    ensures !isResize && HasShape(s) ==> r == Ok(Infeasible(ShapeAlreadyPresent))
    ensures isResize && !HasShape(s) ==> r == Ok(Infeasible(MissingShape))
    ensures HasShape(s) == isResize && !HasDimensionName(s.dims, SOMA_JOINID) ==> r == Ok(Feasible)
    ensures (&& HasShape(s) == isResize && HasDimensionName(s.dims, SOMA_JOINID)
             && DimNamed(s.dims, SOMA_JOINID).dtype == Int64
             && (isResize ==> SOMA_JOINID in s.current.ranges)) ==> r.Ok?
    ensures HasShape(s) == isResize && HasDimensionName(s.dims, SOMA_JOINID) ==>
      var d := DimNamed(s.dims, SOMA_JOINID);
      && (d.dtype != Int64 ==> r == Err(DimTypeNotInt64(SOMA_JOINID)))
      && (d.dtype == Int64 && isResize && SOMA_JOINID !in s.current.ranges ==> r == Err(RangeNotSet(SOMA_JOINID)))
      && (r == Ok(Feasible) <==>
            && d.dtype == Int64
            && (isResize ==> SOMA_JOINID in s.current.ranges && newshape >= s.current.ranges[SOMA_JOINID].hi)
            && newshape <= d.hi)
      && (r.Ok? && r.value.Infeasible? ==>
            r.value.reason ==
              if isResize && SOMA_JOINID in s.current.ranges && newshape < s.current.ranges[SOMA_JOINID].hi
              then BelowCurrentShape(SOMA_JOINID, newshape, WrapI64(s.current.ranges[SOMA_JOINID].hi as int + 1))
              else AboveMaxShape(SOMA_JOINID, newshape, WrapI64(d.hi as int + 1)))
  {
    if !isResize && HasShape(s) then Ok(Infeasible(ShapeAlreadyPresent))
    else if isResize && !HasShape(s) then Ok(Infeasible(MissingShape))
    else if !HasDimensionName(s.dims, SOMA_JOINID) then Ok(Feasible)
    else
      var d := DimNamed(s.dims, SOMA_JOINID);
      if d.dtype != Int64 then Err(DimTypeNotInt64(SOMA_JOINID))
      else if isResize && SOMA_JOINID !in s.current.ranges then Err(RangeNotSet(SOMA_JOINID))
      else if isResize && newshape < s.current.ranges[SOMA_JOINID].hi then
        Ok(Infeasible(BelowCurrentShape(SOMA_JOINID, newshape, WrapI64(s.current.ranges[SOMA_JOINID].hi as int + 1))))
      else if newshape > d.hi then
        Ok(Infeasible(AboveMaxShape(SOMA_JOINID, newshape, WrapI64(d.hi as int + 1))))
      else Ok(Feasible)
  }

  /** `_can_set_soma_joinid_shape_helper` with the comparisons its messages
      describe: against the shapes `hi + 1`, as the generic check does. */
  function CanSetJoinidShape(s: Schema, newshape: int64, isResize: bool): (r: Result<Check>)
    ensures !isResize && HasShape(s) ==> r == Ok(Infeasible(ShapeAlreadyPresent))
    ensures isResize && !HasShape(s) ==> r == Ok(Infeasible(MissingShape))
    ensures HasShape(s) == isResize && !HasDimensionName(s.dims, SOMA_JOINID) ==> r == Ok(Feasible)
    ensures (&& HasShape(s) == isResize && HasDimensionName(s.dims, SOMA_JOINID)
             && DimNamed(s.dims, SOMA_JOINID).dtype == Int64
             && (isResize ==> SOMA_JOINID in s.current.ranges)) ==> r.Ok?
    ensures HasShape(s) == isResize && HasDimensionName(s.dims, SOMA_JOINID) ==>
      var d := DimNamed(s.dims, SOMA_JOINID);
      && (d.dtype != Int64 ==> r == Err(DimTypeNotInt64(SOMA_JOINID)))
      && (d.dtype == Int64 && isResize && SOMA_JOINID !in s.current.ranges ==> r == Err(RangeNotSet(SOMA_JOINID)))
      && (r == Ok(Feasible) <==>
            && d.dtype == Int64
            && (isResize ==> SOMA_JOINID in s.current.ranges
                             && newshape >= WrapI64(s.current.ranges[SOMA_JOINID].hi as int + 1))
            && newshape <= WrapI64(d.hi as int + 1))
      && (r.Ok? && r.value.Infeasible? ==>
            r.value.reason ==
              if isResize && SOMA_JOINID in s.current.ranges
                 && newshape < WrapI64(s.current.ranges[SOMA_JOINID].hi as int + 1)
              then BelowCurrentShape(SOMA_JOINID, newshape, WrapI64(s.current.ranges[SOMA_JOINID].hi as int + 1))
              else AboveMaxShape(SOMA_JOINID, newshape, WrapI64(d.hi as int + 1)))
  {
    if !isResize && HasShape(s) then Ok(Infeasible(ShapeAlreadyPresent))
    else if isResize && !HasShape(s) then Ok(Infeasible(MissingShape))
    else if !HasDimensionName(s.dims, SOMA_JOINID) then Ok(Feasible)
    else
      var d := DimNamed(s.dims, SOMA_JOINID);
      if d.dtype != Int64 then Err(DimTypeNotInt64(SOMA_JOINID))
      else if isResize && SOMA_JOINID !in s.current.ranges then Err(RangeNotSet(SOMA_JOINID))
      else if isResize && newshape < WrapI64(s.current.ranges[SOMA_JOINID].hi as int + 1) then
        Ok(Infeasible(BelowCurrentShape(SOMA_JOINID, newshape, WrapI64(s.current.ranges[SOMA_JOINID].hi as int + 1))))
      else if newshape > WrapI64(d.hi as int + 1) then
        Ok(Infeasible(AboveMaxShape(SOMA_JOINID, newshape, WrapI64(d.hi as int + 1))))
      else Ok(Feasible)
  }

  /** The corrected check tests `soma_joinid` exactly as the generic shape
      check tests that dimension, on any array that has it; on an array
      indexed by `soma_joinid` alone the two checks therefore agree. */
  lemma JoinidCheckAgreesWithShapeCheck(s: Schema, newshape: int64, isResize: bool)
    ensures HasShape(s) == isResize && HasDimensionName(s.dims, SOMA_JOINID) ==>
      var d := DimNamed(s.dims, SOMA_JOINID);
      (CanSetJoinidShape(s, newshape, isResize) == Ok(Feasible) <==>
        && DimOutcome(d, s.current, newshape, false) == Ok(Feasible)
        && (isResize ==> DimOutcome(d, s.current, newshape, true) == Ok(Feasible)))
    ensures |s.dims| == 1 && s.dims[0].name == SOMA_JOINID ==>
      var joinidCheck := CanSetJoinidShape(s, newshape, isResize);
      joinidCheck == Ok(Feasible) <==> CanSetShapeHelper(s, [newshape], isResize) == Ok(Feasible)
  {
    if |s.dims| == 1 && s.dims[0].name == SOMA_JOINID {
      assert HasDimensionName(s.dims, SOMA_JOINID);
      assert DimNamed(s.dims, SOMA_JOINID) == s.dims[0];
      assert [newshape][0] == newshape;
    }
  }

  /** The check as written and the corrected one disagree only at the two
      boundary sizes: a resize to exactly the current `hi`, and a request of
      exactly the max `hi + 1`. */
  lemma JoinidChecksDifferOnlyAtBoundaries(s: Schema, newshape: int64, isResize: bool)
    requires HasDimensionName(s.dims, SOMA_JOINID) ==> DimNamed(s.dims, SOMA_JOINID).hi < INT64_MAX
    requires isResize && s.current.Rect? && SOMA_JOINID in s.current.ranges ==>
      s.current.ranges[SOMA_JOINID].hi < INT64_MAX
    ensures CanSetJoinidShapeAsWritten(s, newshape, isResize) != CanSetJoinidShape(s, newshape, isResize) ==>
      && HasDimensionName(s.dims, SOMA_JOINID)
      && ((isResize && s.current.Rect? && SOMA_JOINID in s.current.ranges
           && newshape == s.current.ranges[SOMA_JOINID].hi)
          || newshape as int == DimNamed(s.dims, SOMA_JOINID).hi as int + 1)
  {
  }

  /** As written, a resize to one less than the current shape is accepted:
      the current domain `[0, 99]` has shape 100, and 99 passes. */
  lemma JoinidResizeAcceptsDownsize()
    ensures
      var s := Schema([Dim(SOMA_JOINID, Int64, 0, 999)], Rect(map[SOMA_JOINID := Range(0, 99)]));
      && Shape(s) == Ok([100])
      && CanSetJoinidShapeAsWritten(s, 99, true) == Ok(Feasible)
      && CanSetJoinidShape(s, 99, true) == Ok(Infeasible(BelowCurrentShape(SOMA_JOINID, 99, 100)))
  {
    var s := Schema([Dim(SOMA_JOINID, Int64, 0, 999)], Rect(map[SOMA_JOINID := Range(0, 99)]));
    assert s.dims[0].name == SOMA_JOINID;
    assert HasDimensionName(s.dims, SOMA_JOINID);
    assert DimNamed(s.dims, SOMA_JOINID) == s.dims[0];
    var c := CurrentSizes(s.dims, s.current.ranges);
    assert c.Ok? && |c.value| == 1 && c.value[0] == 100;
    assert c.value == [100];
  }

  /** As written, an upgrade to exactly `maxshape` is refused: the max domain
      `[0, 99]` has max shape 100, and 100 fails the check. */
  lemma JoinidUpgradeRejectsMaxShape()
    ensures
      var s := Schema([Dim(SOMA_JOINID, Int64, 0, 99)], EmptyDomain);
      && MaxShape(s) == Ok([100])
      && CanSetJoinidShapeAsWritten(s, 100, false) == Ok(Infeasible(AboveMaxShape(SOMA_JOINID, 100, 100)))
      && CanSetJoinidShape(s, 100, false) == Ok(Feasible)
  {
    var s := Schema([Dim(SOMA_JOINID, Int64, 0, 99)], EmptyDomain);
    assert s.dims[0].name == SOMA_JOINID;
    assert HasDimensionName(s.dims, SOMA_JOINID);
    assert DimNamed(s.dims, SOMA_JOINID) == s.dims[0];
    var m := MaxShape(s);
    assert m.Ok? && |m.value| == 1 && m.value[0] == 100;
    assert m.value == [100];
  }

  // ---------------------------------------------------------------------
  // Builders
  // ---------------------------------------------------------------------

  /** `_set_shape_helper`: refuses a handle not opened for writing, an
      upgrade of an array that has a shape or a resize of one that has none,
      an array with a non-int64 dimension, and a shape of the wrong length;
      otherwise builds the rectangle `[0, newshape[i] as int - 1]` per dimension,
      which the array then reports as its shape. */
  method SetShapeHelper(s: Schema, mode: OpenMode, newshape: seq<int64>, isResize: bool)
    returns (r: Result<CurrentDomain>)
    ensures mode != Write ==> r == Err(NotWriteMode)
    ensures mode == Write && !isResize && HasShape(s) ==> r == Err(ShapeAlreadySet)
    ensures mode == Write && isResize && !HasShape(s) ==> r == Err(ShapeNotSet)
    ensures mode == Write && HasShape(s) == isResize && !DimsAreInt64(s.dims) ==> r == Err(DimsNotInt64)
    ensures mode == Write && HasShape(s) == isResize && DimsAreInt64(s.dims) && |newshape| != |s.dims|
      ==> r == Err(NdimMismatch(|newshape|, |s.dims|))
    ensures r.Ok? <==> mode == Write && HasShape(s) == isResize && DimsAreInt64(s.dims) && |newshape| == |s.dims|
    ensures r.Ok? ==>
      (r.value.Rect? && r.value.ranges.Keys == set i | 0 <= i < |s.dims| :: s.dims[i].name)
    ensures r.Ok? && DistinctNames(s.dims) ==>
      && (forall i :: 0 <= i < |s.dims| ==> r.value.ranges[s.dims[i].name] == Range(0, WrapI64(newshape[i] as int - 1)))
      && Shape(Schema(s.dims, r.value)) == Ok(newshape)
  {
    if mode != Write {
      return Err(NotWriteMode);
    }
    if !isResize && s.current.Rect? {
      return Err(ShapeAlreadySet);
    }
    if isResize && s.current.EmptyDomain? {
      return Err(ShapeNotSet);
    }
    if !DimsAreInt64(s.dims) {
      return Err(DimsNotInt64);
    }
    var n := |s.dims|;
    if |newshape| != n {
      return Err(NdimMismatch(|newshape|, n));
    }
    var ranges := BuildRect(s.dims, newshape);
    r := Ok(Rect(ranges));
    if DistinctNames(s.dims) {
      RectShapeRoundTrip(s.dims, newshape, ranges);
    }
  }

  /** The loop of `_set_shape_helper` that sets `[0, newshape[i] - 1]` for
      every dimension of a fresh rectangle. */
  method BuildRect(dims: seq<Dim>, newshape: seq<int64>) returns (ranges: map<string, Range>)
    requires |newshape| == |dims|
    ensures ranges.Keys == set i | 0 <= i < |dims| :: dims[i].name
    ensures DistinctNames(dims) ==>
      forall i :: 0 <= i < |dims| ==> ranges[dims[i].name] == Range(0, WrapI64(newshape[i] as int - 1))
  {
    ranges := map[];
    var i := 0;
    while i < |dims|
      invariant 0 <= i <= |dims|
      invariant ranges.Keys == set j | 0 <= j < i :: dims[j].name
      invariant DistinctNames(dims) ==>
        forall j :: 0 <= j < i ==> ranges[dims[j].name] == Range(0, WrapI64(newshape[j] as int - 1))
    {
      ranges := ranges[dims[i].name := Range(0, WrapI64(newshape[i] as int - 1))];
      i := i + 1;
    }
  }

  /** The rectangle `[0, newshape[i] - 1]` reports shape `newshape`. */
  lemma RectShapeRoundTrip(dims: seq<Dim>, newshape: seq<int64>, ranges: map<string, Range>)
    requires |newshape| == |dims|
    requires DimsAreInt64(dims)
    requires forall i :: 0 <= i < |dims| ==>
      dims[i].name in ranges && ranges[dims[i].name] == Range(0, WrapI64(newshape[i] as int - 1))
    ensures Shape(Schema(dims, Rect(ranges))) == Ok(newshape)
  {
    var sizes := CurrentSizes(dims, ranges);
    forall k | 0 <= k < |dims|
      ensures sizes.value[k] == newshape[k]
    {
      WrapI64DecInc(newshape[k]);
    }
    assert sizes.value == newshape;
  }

  /** `_set_soma_joinid_shape_helper`. An upgrade starts from an empty
      rectangle and sets only `soma_joinid` to `[0, newshape - 1]` (the
      per-type copy of the other dimensions' domains sits after a `continue`
      and never runs); a resize copies the current rectangle and replaces
      the `soma_joinid` range. */
  method SetSomaJoinidShapeHelper(s: Schema, mode: OpenMode, newshape: int64, isResize: bool)
    returns (r: Result<CurrentDomain>)
    ensures mode != Write ==> r == Err(NotWriteMode)
    ensures mode == Write && !isResize && HasShape(s) ==> r == Err(ShapeAlreadySet)
    ensures mode == Write && isResize && !HasShape(s) ==> r == Err(ShapeNotSet)
    ensures mode == Write && !isResize && !HasShape(s) ==>
      var typed := forall i :: 0 <= i < |s.dims| && s.dims[i].name == SOMA_JOINID ==> s.dims[i].dtype == Int64;
      && (!typed ==> r == Err(DimTypeNotInt64(SOMA_JOINID)))
      && (typed ==> r == Ok(Rect(
            if HasDimensionName(s.dims, SOMA_JOINID) then map[SOMA_JOINID := Range(0, WrapI64(newshape as int - 1))]
            else map[])))
    ensures mode == Write && isResize && HasShape(s) ==>
      r == Ok(Rect(
        if HasDimensionName(s.dims, SOMA_JOINID) then s.current.ranges[SOMA_JOINID := Range(0, WrapI64(newshape as int - 1))]
        else s.current.ranges))
  {
    if mode != Write {
      return Err(NotWriteMode);
    }
    if !isResize && s.current.Rect? {
      return Err(ShapeAlreadySet);
    }
    if isResize && s.current.EmptyDomain? {
      return Err(ShapeNotSet);
    }
    var ndim := |s.dims|;
    var ranges: map<string, Range> := if isResize then s.current.ranges else map[];
    var i := 0;
    while i < ndim
      invariant 0 <= i <= ndim
      invariant !isResize ==> forall j :: 0 <= j < i && s.dims[j].name == SOMA_JOINID ==> s.dims[j].dtype == Int64
      invariant ranges == (
        var base := if isResize then s.current.ranges else map[];
        if HasDimensionName(s.dims[..i], SOMA_JOINID) then base[SOMA_JOINID := Range(0, WrapI64(newshape as int - 1))]
        else base)
    {
      assert s.dims[..i + 1][..i] == s.dims[..i];
      assert s.dims[..i + 1][i] == s.dims[i];
      if s.dims[i].name == SOMA_JOINID {
        if !isResize && s.dims[i].dtype != Int64 {
          return Err(DimTypeNotInt64(SOMA_JOINID));
        }
        ranges := ranges[SOMA_JOINID := Range(0, WrapI64(newshape as int - 1))];
        assert HasDimensionName(s.dims[..i + 1], SOMA_JOINID);
      } else {
        assert HasDimensionName(s.dims[..i + 1], SOMA_JOINID) == HasDimensionName(s.dims[..i], SOMA_JOINID);
      }
      i := i + 1;
    }
    assert s.dims[..i] == s.dims;
    return Ok(Rect(ranges));
  }

  /** After a resize through `_set_soma_joinid_shape_helper` the array
      reports the requested `soma_joinid` size, and every other dimension
      keeps its size. */
  lemma JoinidResizeSetsShape(dims: seq<Dim>, ranges: map<string, Range>, newshape: int64, k: nat)
    requires DimsAreInt64(dims)
    requires forall i :: 0 <= i < |dims| ==> dims[i].name in ranges
    requires k < |dims|
    ensures
      var after := Shape(Schema(dims, Rect(ranges[SOMA_JOINID := Range(0, WrapI64(newshape as int - 1))])));
      var before := Shape(Schema(dims, Rect(ranges)));
      && after.Ok? && before.Ok?
      && (dims[k].name == SOMA_JOINID ==> after.value[k] == newshape)
      && (dims[k].name != SOMA_JOINID ==> after.value[k] == before.value[k])
  {
    var updated := ranges[SOMA_JOINID := Range(0, WrapI64(newshape as int - 1))];
    var after := CurrentSizes(dims, updated);
    var before := CurrentSizes(dims, ranges);
    assert after.Ok? && before.Ok?;
    if dims[k].name == SOMA_JOINID {
      WrapI64DecInc(newshape);
    }
  }

  /** The rectangle an upgrade through `_set_soma_joinid_shape_helper` builds
      for an array with a dimension other than `soma_joinid` has no range for
      that dimension, so it reports no shape. */
  lemma JoinidUpgradeLeavesOtherDimsUnset(s: Schema, newshape: int64, k: nat)
    requires DimsAreInt64(s.dims)
    requires k < |s.dims| && s.dims[k].name != SOMA_JOINID
    ensures Shape(Schema(s.dims, Rect(map[SOMA_JOINID := Range(0, WrapI64(newshape as int - 1))]))).Err?
    ensures Shape(Schema(s.dims, Rect(map[]))).Err?
  {
  }

  /** The range an upgrade is meant to give a dimension: `[0, newshape - 1]`
      on `soma_joinid`, the max domain on every other dimension. */
  function UpgradeRange(d: Dim, newshape: int64): (r: Range)
    ensures d.name == SOMA_JOINID ==> r.lo == 0 && r.hi as int == WrapI64(newshape as int - 1)
    ensures d.name != SOMA_JOINID ==> r.lo == d.lo && r.hi == d.hi
  {
    if d.name == SOMA_JOINID then Range(0, WrapI64(newshape as int - 1)) else Range(d.lo, d.hi)
  }

  /** The upgrade rectangle the comment in `_set_soma_joinid_shape_helper`
      describes: copied from the max domain except for the `soma_joinid`
      restriction. */
  function JoinidUpgradeRect(dims: seq<Dim>, newshape: int64): (ranges: map<string, Range>)
    requires DistinctNames(dims)
    ensures ranges.Keys == set i | 0 <= i < |dims| :: dims[i].name
    ensures forall i :: 0 <= i < |dims| ==> ranges[dims[i].name] == UpgradeRange(dims[i], newshape)
  {
    map i | 0 <= i < |dims| :: dims[i].name := UpgradeRange(dims[i], newshape)
  }

  /** With the intended upgrade rectangle every dimension has a shape:
      `soma_joinid` reports `newshape`, and every other dimension reports
      `hi + 1`, its `maxshape` when its domain starts at 0. */
  lemma JoinidUpgradeRectShape(dims: seq<Dim>, newshape: int64, k: nat)
    requires DimsAreInt64(dims) && DistinctNames(dims)
    requires k < |dims|
    ensures
      var sh := Shape(Schema(dims, Rect(JoinidUpgradeRect(dims, newshape))));
      && sh.Ok? && |sh.value| == |dims|
      && (dims[k].name == SOMA_JOINID ==> sh.value[k] == newshape)
      && (dims[k].name != SOMA_JOINID ==> sh.value[k] == WrapI64(dims[k].hi as int + 1))
      && (dims[k].name != SOMA_JOINID && dims[k].lo == 0 ==> sh.value[k] == MaxShape(Schema(dims, EmptyDomain)).value[k])
  {
    UpgradeSizes(dims, newshape, JoinidUpgradeRect(dims, newshape), k);
  }

  /** The sizes of any rectangle that holds the intended upgrade range of
      every dimension. */
  lemma UpgradeSizes(dims: seq<Dim>, newshape: int64, ranges: map<string, Range>, k: nat)
    requires DimsAreInt64(dims)
    requires k < |dims|
    requires forall i :: 0 <= i < |dims| ==>
      dims[i].name in ranges && ranges[dims[i].name] == UpgradeRange(dims[i], newshape)
    ensures
      var sh := Shape(Schema(dims, Rect(ranges)));
      && sh.Ok? && |sh.value| == |dims|
      && (dims[k].name == SOMA_JOINID ==> sh.value[k] == newshape)
      && (dims[k].name != SOMA_JOINID ==> sh.value[k] == WrapI64(dims[k].hi as int + 1))
      && (dims[k].name != SOMA_JOINID && dims[k].lo == 0 ==> sh.value[k] == MaxShape(Schema(dims, EmptyDomain)).value[k])
  {
    var sizes := CurrentSizes(dims, ranges);
    assert Shape(Schema(dims, Rect(ranges))) == sizes;
    assert sizes.Ok?;
    assert sizes.value[k] == WrapI64(UpgradeRange(dims[k], newshape).hi as int + 1);
    if dims[k].name == SOMA_JOINID {
      WrapI64DecInc(newshape);
    } else if dims[k].lo == 0 {
      assert MaxShape(Schema(dims, EmptyDomain)).value[k] == WrapI64(dims[k].hi - dims[k].lo + 1);
    }
  }
}
