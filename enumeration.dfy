/** Enumeration extension and dictionary promotion of `SOMAArray`: the values
    a write brings that the on-disk enumeration lacks, the capacity of the
    attribute's index type, and the gather that turns dictionary indexes
    into values when the attribute on disk is not enumerated. The engine's
    `Enumeration::extend` is modelled as appending. */
module Enumeration {
  import opened Base
  import opened Types
  import opened Util

  // ---------------------------------------------------------------------
  // Index-type capacity
  // ---------------------------------------------------------------------

  predicate IsIndexType(t: DType)
  {
    t == Int8 || t == UInt8 || t == Int16 || t == UInt16
    || t == Int32 || t == UInt32 || t == Int64 || t == UInt64
  }

  /** Width in bits of an integer index type. */
  function Width(t: DType): nat
    requires IsIndexType(t)
  {
    match t
    case Int8 => 8
    case UInt8 => 8
    case Int16 => 16
    case UInt16 => 16
    case Int32 => 32
    case UInt32 => 32
    case Int64 => 64
    case UInt64 => 64
  }

  predicate Signed(t: DType)
  {
    t == Int8 || t == Int16 || t == Int32 || t == Int64
  }

  function Pow2(n: nat): (r: nat)
    ensures r >= 1
  {
    if n == 0 then 1 else 2 * Pow2(n - 1)
  }

  lemma {:induction false} Pow2Add(a: nat, b: nat)
    ensures Pow2(a + b) == Pow2(a) * Pow2(b)
  {
    if a > 0 {
      Pow2Add(a - 1, b);
    }
  }

  lemma Pow2Widths()
    ensures Pow2(7) == 0x80 && Pow2(8) == 0x100
    ensures Pow2(15) == 0x8000 && Pow2(16) == 0x1_0000
    ensures Pow2(31) == 0x8000_0000 && Pow2(32) == 0x1_0000_0000
    ensures Pow2(63) == TWO_63 && Pow2(64) == TWO_64
  {
    assert Pow2(8) == 0x100;
    Pow2Add(8, 7);
    Pow2Add(8, 8);
    Pow2Add(16, 15);
    Pow2Add(16, 16);
    Pow2Add(32, 31);
    Pow2Add(32, 32);
  }

  /** `_get_max_capacity`: the largest value of the attribute's integer index
      type; any other type, booleans included, is refused. */
  function MaxCapacity(t: DType): (r: Result<nat>)
    ensures r.Ok? <==> IsIndexType(t)
    ensures r.Err? ==> r.error == InvalidIndexType
    ensures r.Ok? ==> r.value <= UINT64_MAX
  {
    match t
    case Int8 => Ok(0x7F)
    case UInt8 => Ok(0xFF)
    case Int16 => Ok(0x7FFF)
    case UInt16 => Ok(0xFFFF)
    case Int32 => Ok(0x7FFF_FFFF)
    case UInt32 => Ok(0xFFFF_FFFF)
    case Int64 => Ok(0x7FFF_FFFF_FFFF_FFFF)
    case UInt64 => Ok(0xFFFF_FFFF_FFFF_FFFF)
    case _ => Err(InvalidIndexType)
  }

  /** The capacity is the largest value of the index type: `2^(w-1) - 1`
      for a signed type of width `w`, `2^w - 1` for an unsigned one. */
  lemma MaxCapacityIsTypeMax(t: DType)
    requires IsIndexType(t)
    ensures MaxCapacity(t) == Ok(Pow2(Width(t) - (if Signed(t) then 1 else 0)) - 1)
  {
    Pow2Widths();
  }

  // ---------------------------------------------------------------------
  // Extension
  // ---------------------------------------------------------------------

  /** The incoming values missing from the existing enumeration, in incoming
      order; a missing value written twice is listed twice. */
  function NewValues<V(==)>(incoming: seq<V>, existing: seq<V>): (r: seq<V>)
    ensures |r| <= |incoming|
    ensures forall i :: 0 <= i < |r| ==> r[i] in incoming && r[i] !in existing
    ensures forall i :: 0 <= i < |incoming| && incoming[i] !in existing ==> incoming[i] in r
  {
    if incoming == [] then []
    else
      var init := NewValues(incoming[..|incoming| - 1], existing);
      var last := incoming[|incoming| - 1];
      assert forall i :: 0 <= i < |incoming| - 1 ==> incoming[..|incoming| - 1][i] == incoming[i];
      if last in existing then init else init + [last]
  }

  /** A single incoming value is new exactly when it is missing. */
  lemma NewValuesSingleton<V>(v: V, existing: seq<V>)
    ensures NewValues([v], existing) == if v in existing then [] else [v]
  {
    assert [v][..0] == [];
  }

  /** The filter works value by value: it distributes over concatenation, so
      the new values keep their incoming order and a repeated missing value
      is kept as often as it is written. */
  lemma {:induction false} NewValuesAppend<V>(a: seq<V>, b: seq<V>, existing: seq<V>)
    ensures NewValues(a + b, existing) == NewValues(a, existing) + NewValues(b, existing)
    decreases |b|
  {
    if b == [] {
      assert a + b == a;
    } else {
      var front := b[..|b| - 1];
      assert (a + b)[..|a + b| - 1] == a + front;
      assert (a + b)[|a + b| - 1] == b[|b| - 1];
      NewValuesAppend(a, front, existing);
    }
  }

  /** What the extension leaves on disk: whether the enumeration grew, and
      the enumeration afterwards. */
  datatype Evolution<V> = Evolution(extended: bool, enumeration: seq<V>)

  /** `_extend_and_evolve_schema`: without new values the enumeration is
      kept and the result is false; otherwise the attribute's index type must
      be an integer type whose free capacity, computed in `uint64_t`, holds
      every new value, and the enumeration becomes the existing values
      followed by the new ones. */
  method ExtendAndEvolveSchema<V(==)>(incoming: seq<V>, existing: seq<V>, indexType: DType)
    returns (r: Result<Evolution<V>>)
    ensures NewValues(incoming, existing) == [] ==> r == Ok(Evolution(false, existing))
    ensures NewValues(incoming, existing) != [] && !IsIndexType(indexType) ==> r == Err(InvalidIndexType)
    ensures NewValues(incoming, existing) != [] && IsIndexType(indexType) ==>
      var free := WrapU64(MaxCapacity(indexType).value - |existing|);
      && (free < |NewValues(incoming, existing)| ==> r == Err(CapacityExceeded))
      && (free >= |NewValues(incoming, existing)| ==>
            r == Ok(Evolution(true, existing + NewValues(incoming, existing))))
  {
    var extendValues: seq<V> := [];
    var i := 0;
    while i < |incoming|
      invariant 0 <= i <= |incoming|
      invariant extendValues == NewValues(incoming[..i], existing)
    {
      assert incoming[..i + 1][..i] == incoming[..i];
      if incoming[i] !in existing {
        extendValues := extendValues + [incoming[i]];
      }
      i := i + 1;
    }
    assert incoming[..i] == incoming;

    if |extendValues| != 0 {
      var maxCapacity :- MaxCapacity(indexType);
      var freeCapacity := WrapU64(maxCapacity - |existing|);
      if freeCapacity < |extendValues| {
        return Err(CapacityExceeded);
      }
      return Ok(Evolution(true, existing + extendValues));
    }
    return Ok(Evolution(false, existing));
  }

  /** While the enumeration fits its index type, the `uint64_t` capacity test
      refuses exactly the extensions that would not fit. */
  lemma CapacityTestExact(maxCapacity: nat, existing: nat, added: nat)
    requires maxCapacity <= UINT64_MAX
    requires existing <= maxCapacity
    ensures WrapU64(maxCapacity - existing) < added <==> existing + added > maxCapacity
  {
  }

  /** A longer enumeration than its index type holds makes the `uint64_t`
      subtraction wrap, and then any extension passes the test. */
  lemma CapacityTestWrapsWhenOverfull(maxCapacity: nat, existing: nat, added: nat)
    requires maxCapacity < existing <= maxCapacity + TWO_63
    requires added <= TWO_63
    ensures WrapU64(maxCapacity - existing) >= added
  {
  }

  /** After an extension every incoming value is in the enumeration, and the
      existing values keep their positions (so their indexes stay valid). */
  lemma ExtensionCoversIncoming<V>(incoming: seq<V>, existing: seq<V>)
    ensures forall v :: v in incoming ==> v in existing + NewValues(incoming, existing)
    ensures (existing + NewValues(incoming, existing))[..|existing|] == existing
  {
  }

  /** Writing the same values again after an extension adds nothing. */
  lemma {:induction false} ExtensionIdempotent<V>(incoming: seq<V>, existing: seq<V>)
    ensures NewValues(incoming, existing + NewValues(incoming, existing)) == []
  {
    ExtensionCoversIncoming(incoming, existing);
    NothingNewWhenCovered(incoming, existing + NewValues(incoming, existing));
  }

  lemma {:induction false} NothingNewWhenCovered<V>(incoming: seq<V>, existing: seq<V>)
    requires forall i :: 0 <= i < |incoming| ==> incoming[i] in existing
    ensures NewValues(incoming, existing) == []
  {
    if incoming != [] {
      NothingNewWhenCovered(incoming[..|incoming| - 1], existing);
    }
  }

  /** No value occurs twice, as in an enumeration. */
  predicate Distinct<V(==)>(s: seq<V>)
  {
    forall i, j :: 0 <= i < j < |s| ==> s[i] != s[j]
  }

  /** Distinct incoming values give distinct new values. */
  lemma {:induction false} NewValuesDistinct<V>(incoming: seq<V>, existing: seq<V>)
    requires Distinct(incoming)
    ensures Distinct(NewValues(incoming, existing))
  {
    if incoming != [] {
      var init := incoming[..|incoming| - 1];
      var last := incoming[|incoming| - 1];
      assert Distinct(init) by {
        forall i, j | 0 <= i < j < |init|
          ensures init[i] != init[j]
        {
          assert init[i] == incoming[i] && init[j] == incoming[j];
        }
      }
      NewValuesDistinct(init, existing);
      assert last !in init by {
        forall i | 0 <= i < |init|
          ensures init[i] != last
        {
          assert init[i] == incoming[i];
        }
      }
    }
  }

  /** Extending a distinct enumeration with distinct incoming values keeps it
      distinct: the new values are distinct and none is already present. */
  lemma ExtensionKeepsDistinct<V>(incoming: seq<V>, existing: seq<V>)
    requires Distinct(existing) && Distinct(incoming)
    ensures Distinct(existing + NewValues(incoming, existing))
  {
    var added := NewValues(incoming, existing);
    NewValuesDistinct(incoming, existing);
    var e := existing + added;
    forall i, j | 0 <= i < j < |e|
      ensures e[i] != e[j]
    {
      if j >= |existing| {
        assert e[j] == added[j - |existing|];
        if i < |existing| {
          assert e[i] in existing;
        }
      }
    }
  }

  /** The boolean values a write brings: the first `length` bytes of the
      unpacked bit buffer. */
  method IncomingBools(col: ArrowColumn) returns (r: Result<seq<byte>>)
    requires |col.buffers| >= 2 && ByteCount(col.length) <= |DataBuffer(col)|
    ensures r.Ok?
    ensures |r.value| == col.length
    ensures forall k :: 0 <= k < col.length ==> r.value[k] == Bit(DataBuffer(col)[k / 8], k % 8)
  {
    var casted := CastBitToUint8("b", col);
    return Ok(casted.value[..col.length]);
  }

  /** The string specialisation: the values are cut out of the character
      buffer at the given offsets, then extended as above. */
  method ExtendAndEvolveStrings(data: string, offsets: seq<nat>, existing: seq<string>, indexType: DType)
    returns (r: Result<Evolution<string>>)
    requires ValidOffsets(offsets, |data|)
    ensures NewValues(Slices(data, offsets), existing) == [] ==> r == Ok(Evolution(false, existing))
    ensures NewValues(Slices(data, offsets), existing) != [] && !IsIndexType(indexType) ==>
      r == Err(InvalidIndexType)
    ensures NewValues(Slices(data, offsets), existing) != [] && IsIndexType(indexType) ==>
      var added := NewValues(Slices(data, offsets), existing);
      var free := WrapU64(MaxCapacity(indexType).value - |existing|);
      && (free < |added| ==> r == Err(CapacityExceeded))
      && (free >= |added| ==> r == Ok(Evolution(true, existing + added)))
  {
    var incoming := ValuesFromOffsets(data, offsets);
    r := ExtendAndEvolveSchema(incoming, existing, indexType);
  }

  // ---------------------------------------------------------------------
  // Index remapping
  // ---------------------------------------------------------------------

  /** `values[indexes[k]]` for every `k`. */
  function Gather<T>(values: seq<T>, indexes: seq<int>): (r: seq<T>)
    requires forall k :: 0 <= k < |indexes| ==> 0 <= indexes[k] < |values|
    ensures |r| == |indexes|
  {
    seq(|indexes|, k requires 0 <= k < |indexes| => values[indexes[k]])
  }

  /** Position of the first occurrence of `v`. */
  function IndexOf<V(==)>(s: seq<V>, v: V): (i: nat)
    requires v in s
    ensures i < |s| && s[i] == v
    ensures forall j :: 0 <= j < i ==> s[j] != v
  {
    if s[0] == v then 0 else 1 + IndexOf(s[1..], v)
  }

  /** The remapping the extension asks for: each index into the write's own
      dictionary becomes the index of the same value in the enumeration. */
  function RemapIndexes<V(==)>(enumeration: seq<V>, dictionary: seq<V>, indexes: seq<int>): (r: seq<int>)
    requires forall k :: 0 <= k < |indexes| ==> 0 <= indexes[k] < |dictionary|
    requires forall i :: 0 <= i < |dictionary| ==> dictionary[i] in enumeration
    ensures |r| == |indexes|
    ensures forall k :: 0 <= k < |r| ==> 0 <= r[k] < |enumeration|
    ensures Gather(enumeration, r) == Gather(dictionary, indexes)
  {
    var r := seq(|indexes|, k requires 0 <= k < |indexes| => IndexOf(enumeration, dictionary[indexes[k]]) as int);
    assert forall k :: 0 <= k < |r| ==> 0 <= r[k] < |enumeration| && enumeration[r[k]] == dictionary[indexes[k]];
    r
  }

  /** The example of the source: on disk `[A, B, C]`, written values `[B, C]`
      with indexes `[0, 1]`; after remapping they are `[1, 2]`. */
  lemma RemapExample()
    ensures RemapIndexes(["A", "B", "C"], ["B", "C"], [0, 1]) == [1, 2]
  {
    var e := ["A", "B", "C"];
    assert IndexOf(e, "B") == 1 by {
      assert e[0] != "B" && e[1] == "B";
      assert e[1..][0] == "B";
    }
    assert IndexOf(e, "C") == 2 by {
      assert e[0] != "C" && e[1] != "C" && e[2] == "C";
      assert e[1..][0] != "C" && e[1..][1..][0] == "C";
    }
  }

  /** After an extension every written value can be remapped into the new
      enumeration. */
  lemma ExtensionAllowsRemap<V>(incoming: seq<V>, existing: seq<V>, indexes: seq<int>)
    requires forall k :: 0 <= k < |indexes| ==> 0 <= indexes[k] < |incoming|
    ensures var e := existing + NewValues(incoming, existing);
      Gather(e, RemapIndexes(e, incoming, indexes)) == Gather(incoming, indexes)
  {
    ExtensionCoversIncoming(incoming, existing);
  }

  // ---------------------------------------------------------------------
  // Dictionary promotion
  // ---------------------------------------------------------------------

  /** `_cast_dictionary_values` for fixed-width values: the column written
      holds `values[indexes[k]]` at position `k`. */
  method CastDictionaryValues<T>(values: seq<T>, indexes: seq<int>) returns (indexToValue: seq<T>)
    requires forall k :: 0 <= k < |indexes| ==> 0 <= indexes[k] < |values|
    ensures |indexToValue| == |indexes|
    ensures forall k :: 0 <= k < |indexes| ==> indexToValue[k] == values[indexes[k]]
  {
    indexToValue := [];
    var k := 0;
    while k < |indexes|
      invariant 0 <= k <= |indexes|
      invariant |indexToValue| == k
      invariant forall j :: 0 <= j < k ==> indexToValue[j] == values[indexes[j]]
    {
      indexToValue := indexToValue + [values[indexes[k]]];
      k := k + 1;
    }
  }

  /** `_cast_dictionary_values<std::string>`: the dictionary is cut out of the
      character buffer at its offsets; the column written is the
      concatenation of the gathered strings with their running-sum offsets. */
  method CastDictionaryStrings(data: string, offsets: seq<nat>, indexes: seq<int>)
    returns (indexToValue: string, valueOffsets: seq<nat>)
    requires ValidOffsets(offsets, |data|)
    requires forall k :: 0 <= k < |indexes| ==> 0 <= indexes[k] < |offsets| - 1
    ensures indexToValue == Concat(Gather(Slices(data, offsets), indexes))
    ensures valueOffsets == ArrowOffsets(Gather(Slices(data, offsets), indexes))
    ensures |valueOffsets| - 1 == |indexes|
  {
    var values := ValuesFromOffsets(data, offsets);
    ghost var gathered := Gather(values, indexes);
    var offsetSum := 0;
    valueOffsets := [0];
    indexToValue := "";
    var k := 0;
    while k < |indexes|
      invariant 0 <= k <= |indexes|
      invariant indexToValue == Concat(gathered[..k])
      invariant offsetSum == |indexToValue|
      invariant valueOffsets == ArrowOffsets(gathered[..k])
    {
      var value := values[indexes[k]];
      assert gathered[..k + 1] == gathered[..k] + [value];
      ConcatAppend(gathered[..k], [value]);
      assert Concat([value]) == value by {
        assert [value][..0] == [];
      }
      ArrowOffsetsSnoc(gathered[..k], value);
      offsetSum := offsetSum + |value|;
      indexToValue := indexToValue + value;
      valueOffsets := valueOffsets + [offsetSum];
      k := k + 1;
    }
    assert gathered[..k] == gathered;
  }

  /** The promoted string column decodes back to the gathered values. */
  lemma CastDictionaryStringsRoundTrip(values: seq<string>, indexes: seq<int>)
    requires forall k :: 0 <= k < |indexes| ==> 0 <= indexes[k] < |values|
    ensures ValidOffsets(ArrowOffsets(Gather(values, indexes)), |Concat(Gather(values, indexes))|)
    ensures Slices(Concat(Gather(values, indexes)), ArrowOffsets(Gather(values, indexes))) == Gather(values, indexes)
  {
    VarlenRoundTrip(Gather(values, indexes));
  }

  /** `_cast_dictionary_values<bool>`: the dictionary's bits are unpacked to
      bytes first, then gathered. */
  method CastDictionaryBools(format: string, dictionary: ArrowColumn, indexes: seq<int>)
    returns (r: Result<seq<byte>>)
    requires format == "b" ==> |dictionary.buffers| >= 2 && ByteCount(dictionary.length) <= |DataBuffer(dictionary)|
    requires forall k :: 0 <= k < |indexes| ==> 0 <= indexes[k] < dictionary.length
    ensures format != "b" ==> r == Err(UnexpectedFormat(format))
    ensures format == "b" ==> r.Ok? && |r.value| == |indexes|
    ensures r.Ok? ==> forall k :: 0 <= k < |indexes| ==>
      r.value[k] == Bit(DataBuffer(dictionary)[indexes[k] / 8], indexes[k] % 8)
  {
    var casted :- CastBitToUint8(format, dictionary);
    var values := CastDictionaryValues(casted, indexes);
    return Ok(values);
  }
}
