/** The state `SOMAArray` keeps between calls: the metadata cache with its
    protected keys, and the read cursor that `reset` re-arms and `read_next`
    advances. The managed query and the array handle are outside the model;
    what `read_next` learns from them (the query is complete, the query is
    empty) arrives as parameters. */
module SomaArrayState {
  import opened Base
  import opened Types

  /** A cached metadata entry: its datatype, its value count and its bytes. */
  datatype MetadataValue = MetadataValue(valueType: DType, valueNum: nat, value: seq<bv8>)

  /** The `ResultOrder` enum; `Unnamed` stands for any other value cast to it. */
  datatype ResultOrder = Automatic | RowMajorOrder | ColMajorOrder | Unnamed(code: int)

  /** The query layouts `reset` chooses from. */
  datatype Layout = Unordered | RowMajor | ColMajor

  /** What a call of `read_next` hands back: a batch of results, which is the
      empty first batch of an empty query when no read was submitted. */
  datatype Batch = Batch(submittedRead: bool)

  const SOMA_OBJECT_TYPE_KEY: string := "soma_object_type"
  const ENCODING_VERSION_KEY: string := "soma_encoding_version"

  predicate Protected(key: string)
  {
    key == SOMA_OBJECT_TYPE_KEY || key == ENCODING_VERSION_KEY
  }

  /** The layout `reset` sets for a result order. */
  function LayoutFor(order: ResultOrder, sparse: bool): (r: Result<Layout>)
    ensures order == Automatic ==> r == Ok(if sparse then Unordered else RowMajor)
    ensures order == RowMajorOrder ==> r == Ok(RowMajor)
    ensures order == ColMajorOrder ==> r == Ok(ColMajor)
    ensures order.Unnamed? ==> r == Err(InvalidResultOrder(order.code))
  {
    match order
    case Automatic => if sparse then Ok(Unordered) else Ok(RowMajor)
    case RowMajorOrder => Ok(RowMajor)
    case ColMajorOrder => Ok(ColMajor)
    case Unnamed(code) => Err(InvalidResultOrder(code))
  }

  class SomaArray {
    const sparse: bool
    var metadata: map<string, MetadataValue>
    var batchSize: string
    var resultOrder: ResultOrder
    var layout: Layout
    var firstReadNext: bool
    var submitted: bool

    /** The layout in force is the one the result order calls for. */
    ghost predicate Valid()
      reads this
    {
      LayoutFor(resultOrder, sparse) == Ok(layout)
    }

    /** Opening a handle: batch size "auto", automatic order, a cursor reset
        for it, and a metadata cache filled from what the array stores. */
    constructor (sparse: bool, stored: map<string, MetadataValue>)
      ensures Valid()
      ensures this.sparse == sparse
      ensures metadata == stored
      ensures batchSize == "auto" && resultOrder == Automatic
      ensures layout == (if sparse then Unordered else RowMajor)
      ensures firstReadNext && !submitted
    {
      this.sparse := sparse;
      metadata := stored;
      batchSize := "auto";
      resultOrder := Automatic;
      layout := if sparse then Unordered else RowMajor;
      firstReadNext := true;
      submitted := false;
    }

    /** `reset`: an order without a layout throws `invalid_argument` before
        any field changes; otherwise the layout, batch size and order are set
        and the cursor is re-armed. The metadata cache is untouched. */
    method Reset(batchSize: string, order: ResultOrder) returns (o: Outcome)
      requires Valid()
      modifies this
      ensures Valid()
      ensures order.Unnamed? ==> o == Fail(InvalidResultOrder(order.code)) && unchanged(this)
      ensures !order.Unnamed? ==>
        && o == Pass
        && Ok(layout) == LayoutFor(order, sparse)
        && this.batchSize == batchSize && resultOrder == order
        && firstReadNext && !submitted
        && metadata == old(metadata)
    {
      var l := LayoutFor(order, sparse);
      if l.Err? {
        return Fail(l.error);
      }
      layout := l.value;
      this.batchSize := batchSize;
      resultOrder := order;
      firstReadNext := true;
      submitted := false;
      return Pass;
    }

    /** `read_next`: nothing once the query is complete; an empty query yields
        one empty batch right after a reset and nothing afterwards; any other
        query submits a read and yields its batch. */
    method ReadNext(complete: bool, emptyQuery: bool) returns (r: Option<Batch>)
      modifies this
      ensures complete ==> r == None && unchanged(this)
      ensures !complete && emptyQuery ==>
        r == (if old(firstReadNext) then Some(Batch(false)) else None)
      ensures !complete && !emptyQuery ==> r == Some(Batch(true))
      ensures !complete ==> !firstReadNext
      ensures metadata == old(metadata) && layout == old(layout) && resultOrder == old(resultOrder)
      ensures batchSize == old(batchSize) && submitted == old(submitted)
    {
      if complete {
        return None;
      }
      if emptyQuery {
        if firstReadNext {
          firstReadNext := false;
          return Some(Batch(false));
        } else {
          return None;
        }
      }
      firstReadNext := false;
      return Some(Batch(true));
    }

    /** `set_metadata`: a protected key without `force` throws and leaves the
        cache alone; otherwise the entry is inserted the way `std::map::insert`
        does, so an entry already cached under the key is kept. */
    method SetMetadata(key: string, valueType: DType, valueNum: nat, value: seq<bv8>, force: bool)
      returns (o: Outcome)
      modifies this
      ensures !force && Protected(key) ==> o == Fail(ProtectedKey(key)) && metadata == old(metadata)
      ensures force || !Protected(key) ==>
        && o == Pass
        && metadata == (if key in old(metadata) then old(metadata)
                        else old(metadata)[key := MetadataValue(valueType, valueNum, value)])
      ensures o.Pass? ==> key in metadata
      ensures o.Pass? && key !in old(metadata) ==> |metadata| == |old(metadata)| + 1
      ensures batchSize == old(batchSize) && resultOrder == old(resultOrder) && layout == old(layout)
      ensures firstReadNext == old(firstReadNext) && submitted == old(submitted)
    {
      if !force && key == SOMA_OBJECT_TYPE_KEY {
        return Fail(ProtectedKey(key));
      }
      if !force && key == ENCODING_VERSION_KEY {
        return Fail(ProtectedKey(key));
      }
      if key !in metadata {
        metadata := metadata[key := MetadataValue(valueType, valueNum, value)];
      }
      return Pass;
    }

    /** `delete_metadata`: a protected key without `force` throws and leaves
        the cache alone; otherwise the key is erased, present or not. */
    method DeleteMetadata(key: string, force: bool) returns (o: Outcome)
      modifies this
      ensures !force && Protected(key) ==> o == Fail(ProtectedKey(key)) && metadata == old(metadata)
      ensures force || !Protected(key) ==> o == Pass && metadata == old(metadata) - {key}
      ensures o.Pass? ==> key !in metadata
      ensures o.Pass? && key in old(metadata) ==> |metadata| == |old(metadata)| - 1
      ensures batchSize == old(batchSize) && resultOrder == old(resultOrder) && layout == old(layout)
      ensures firstReadNext == old(firstReadNext) && submitted == old(submitted)
    {
      if !force && key == SOMA_OBJECT_TYPE_KEY {
        return Fail(ProtectedKey(key));
      }
      if !force && key == ENCODING_VERSION_KEY {
        return Fail(ProtectedKey(key));
      }
      metadata := metadata - {key};
      return Pass;
    }

    /** `get_metadata(key)`: none exactly when the key is not cached. */
    function GetMetadata(key: string): (r: Option<MetadataValue>)
      reads this
      ensures r.None? <==> key !in metadata
      ensures r.Some? ==> r.value == metadata[key]
    {
      if key in metadata then Some(metadata[key]) else None
    }

    /** `has_metadata(key)` agrees with `get_metadata(key)`. */
    function HasMetadata(key: string): (r: bool)
      reads this
      ensures r <==> GetMetadata(key).Some?
    {
      key in metadata
    }

    /** `metadata_num`: the number of cached keys. */
    function MetadataNum(): (r: nat)
      reads this
      ensures r == |metadata.Keys|
    {
      |metadata|
    }

    /** `close` drops the cache. */
    method Close()
      modifies this
      ensures metadata == map[]
      ensures batchSize == old(batchSize) && resultOrder == old(resultOrder) && layout == old(layout)
      ensures firstReadNext == old(firstReadNext) && submitted == old(submitted)
    {
      metadata := map[];
    }
  }

  /** An empty query read after a reset yields exactly one (empty) batch. */
  method EmptyQueryReadsOnce(a: SomaArray) returns (first: Option<Batch>, second: Option<Batch>)
    requires a.Valid()
    modifies a
    ensures first == Some(Batch(false)) && second == None
  {
    var o := a.Reset("auto", Automatic);
    first := a.ReadNext(false, true);
    second := a.ReadNext(false, true);
  }

  /** The result-order sequence of the unit tests: row-major, then
      column-major, then an unnamed order, which is refused and leaves the
      column-major order in place. */
  method ResultOrderSequence(a: SomaArray) returns (o: Outcome)
    requires a.Valid()
    modifies a
    ensures o == Fail(InvalidResultOrder(3))
    ensures a.resultOrder == ColMajorOrder && a.layout == ColMajor
  {
    var o1 := a.Reset("auto", RowMajorOrder);
    assert a.resultOrder == RowMajorOrder;
    var o2 := a.Reset("auto", ColMajorOrder);
    o := a.Reset("auto", Unnamed(3));
  }

  /** A scenario built on the metadata unit test, on a cache holding the two
      protected keys: a new key is added, a protected key cannot be deleted
      without `force`, and deleting the new key removes it again. The unit
      test reads its counts after closing and reopening the array; here they
      are read from the cache directly. */
  method MetadataSequence(a: SomaArray, v: MetadataValue) returns (n1: nat, n2: nat)
    requires a.metadata.Keys == {SOMA_OBJECT_TYPE_KEY, ENCODING_VERSION_KEY}
    modifies a
    ensures n1 == 3 && n2 == 2
    ensures a.HasMetadata(SOMA_OBJECT_TYPE_KEY) && !a.HasMetadata("md")
  {
    var o1 := a.SetMetadata("md", v.valueType, v.valueNum, v.value, false);
    n1 := a.MetadataNum();
    var o2 := a.DeleteMetadata(SOMA_OBJECT_TYPE_KEY, false);
    var o3 := a.DeleteMetadata("md", false);
    n2 := a.MetadataNum();
  }
}
