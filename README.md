# TileDB-SOMA array core, modelled in Dafny

This project models the decision logic at the core of `libtiledbsoma`'s `SOMAArray`, and the helpers around it. The storage engine is replaced by plain data: fragment records, dimension domains, current-domain rectangles, enumeration value lists and metadata maps. The model covers:

- **Nnz** (`nnz.dfy`): the fast-path selector of `SOMAArray::nnz`. It filters fragments by the read timestamp range, sums their cell counts in `uint64_t`, sorts their dim-0 non-empty ranges lexicographically, and scans adjacent ranges for overlap. The result is a summed count, or `ExactCount`, which stands for the opaque count of `_nnz_slow`.
- **Domain** (`domain.dfy`): `shape`, `maxshape`, `_tiledb_domain` and `_tiledb_current_domain`; the advisory `(bool, reason)` checks `_can_set_shape_helper`, `_can_set_shape_domainish_subhelper` and `_can_set_soma_joinid_shape_helper`; and the rectangle builders `_set_shape_helper` and `_set_soma_joinid_shape_helper`. The int64 arithmetic (`hi + 1`, `hi - lo + 1`, `newshape - 1`) is given two's-complement wrap-around.
- **Enumeration** (`enumeration.dfy`): `_get_max_capacity`, the new-value filter and capacity test of `_extend_and_evolve_schema` (generic and string versions), the index remapping its comment describes, and the dictionary promotion `_cast_dictionary_values` (fixed-width, string and boolean).
- **SomaArrayState** (`soma_array.dfy`): the `SOMAArray` fields that change between calls. These are the metadata cache with its two protected keys, the result order and layout set by `reset`, and the `first_read_next_` flag of `read_next`.
- **Util** (`util.dfy`): `to_varlen_buffers`, `cast_bit_to_uint8`, `is_tiledb_uri` and `rstrip_uri`.
- **Buffers** (`array_buffers.dfy`): `ArrayBuffers::at` and `ArrayBuffers::emplace` over an insertion-ordered name list and a name-to-buffer map.

`Types` holds the engine's datatype tags and the int64/uint64 wrap-around. `Base` holds `Option`, `Result`, `Outcome` and the error tags; every `throw` of the source becomes an `Err` or a `Fail`.

Two facts about the source shape the model:

- `_tiledb_domain` reports `hi - lo + 1` per dimension.
- `_set_shape_helper` builds a fresh rectangle `[0, newshape[i] - 1]` on every dimension, for upgrade and resize alike. It copies neither the max domain nor the old current domain.

## Model

| member | source | states |
|---|---|---|
| Nnz.Relevant | libtiledbsoma/src/soma/soma_array.cc:1307-1329 | the kept fragments are exactly those not fully outside the read timestamp range, in order |
| Nnz.RelevantSingleton | libtiledbsoma/src/soma/soma_array.cc:1309-1329 | a single fragment is kept iff it is not fully outside the read range |
| Nnz.RelevantAppend | libtiledbsoma/src/soma/soma_array.cc:1309-1329 | the filter distributes over concatenation: the kept fragments appear once each, in input order |
| Nnz.RelevantWithoutRange | libtiledbsoma/src/soma/soma_array.cc:1309-1329 | without a read timestamp range every fragment is relevant |
| Nnz.FilterFragments | libtiledbsoma/src/soma/soma_array.cc:1305-1335 | the loop stops with "exact count" iff some fragment straddles the read range, or (duplicates disallowed) a kept fragment has start ≠ end; otherwise it yields the relevant fragments |
| Nnz.SumFragments | libtiledbsoma/src/soma/soma_array.cc:1372-1386 | the total is the sum of the cell counts mod 2^64, and the ranges are the fragments' dim-0 ranges in order |
| Nnz.SortRanges | libtiledbsoma/src/soma/soma_array.cc:1389 | the result is lexicographically sorted and a permutation (same multiset) of the input |
| Nnz.ScanOverlap | libtiledbsoma/src/soma/soma_array.cc:1393-1403 | reports overlap iff some range's end is ≥ the next range's start |
| Nnz.SortedScanIffDisjoint | libtiledbsoma/src/soma/soma_array.cc:1388-1403 | on sorted well-formed ranges, no adjacent overlap iff every pair is disjoint |
| Nnz.SortPreservesDisjoint | libtiledbsoma/src/soma/soma_array.cc:1389 | sorting does not change pairwise disjointness |
| Nnz.OverlapTestIffNotDisjoint | libtiledbsoma/src/soma/soma_array.cc:1388-1410 | sort-then-scan finds no overlap iff the ranges are pairwise disjoint, whatever the fragment order |
| Nnz.ComputeNnz | libtiledbsoma/src/soma/soma_array.cc:1289-1411 | dense gives an error; a forcing fragment gives the exact count; otherwise the result is the fast-path decision on the relevant fragments |
| Nnz.FastPath | libtiledbsoma/src/soma/soma_array.cc:1337-1410 | 0 fragments give 0 and 1 fragment gives its count; with ≥2, a non-eligible dim 0 gives the exact count, and a summed result is the uint64 sum |
| Nnz.FastPathSumsIffDisjoint | libtiledbsoma/src/soma/soma_array.cc:1359-1410 | with ≥2 fragments the sum is used iff dim 0 is int64 `soma_joinid`/`soma_dim_0` and the ranges are pairwise disjoint |
| Nnz.NnzValue | libtiledbsoma/src/soma/soma_array.cc:1289-1411 | a summed result returns its count; otherwise `_nnz_slow`'s |
| Domain.TiledbDomain | libtiledbsoma/src/soma/soma_array.cc:2100-2113 | fails iff some dim is not int64; otherwise one size per dim, `hi - lo + 1` when that fits in int64 |
| Domain.CurrentSizes | libtiledbsoma/src/soma/soma_array.cc:2092-2096 | succeeds iff every dim has a range; sizes are `hi + 1` (int64); otherwise the error names the first dim whose range is not set |
| Domain.TiledbCurrentDomain | libtiledbsoma/src/soma/soma_array.cc:2070-2098 | non-int64 dims, then an empty current domain, are errors; otherwise the current sizes |
| Domain.Shape | libtiledbsoma/src/soma/soma_array.cc:1436-1445 | equals `maxshape` when there is no current domain, else the current-domain sizes |
| Domain.MaxShape | libtiledbsoma/src/soma/soma_array.cc:1447-1449 | always the max-domain sizes |
| Domain.WidestDimensionShape | libtiledbsoma/test/unit_soma_array.cc:226-228 | a dimension `[0, INT64_MAX-1]` without a current domain has shape `[INT64_MAX]` |
| Domain.DimOutcome | libtiledbsoma/src/soma/soma_array.cc:1536-1585 | a dim passes iff it is int64 and its size is ≤ max `hi+1` (max check), or its range is set and the size is ≥ current `hi+1` (current check); a non-int64 dim, or on the current check a missing range, is an error; any other dim is answered `Ok` (never thrown), with its reason |
| Domain.DomainishCheck | libtiledbsoma/src/soma/soma_array.cc:1530-1588 | feasible iff every dim passes; otherwise the outcome of the first dim that fails |
| Domain.CanSetShapeHelper | libtiledbsoma/src/soma/soma_array.cc:1453-1525 | ndim mismatch first, then resize-without-shape / upgrade-with-shape; with the state right the result is the first failing step's outcome (max check, then current check on resize), else feasible |
| Domain.CanSetShapeIffWithinBounds | libtiledbsoma/src/soma/soma_array.cc:1453-1588 | on int64 arrays: feasible iff the shape state fits the operation, every size is ≤ max `hi+1`, and on resize ≥ current `hi+1` |
| Domain.CanSetJoinidShapeAsWritten | libtiledbsoma/src/soma/soma_array.cc:1590-1650 | shape-state refusals (`Infeasible`) first; an array without `soma_joinid` is feasible; otherwise a non-int64 dim or a missing range is an error, an int64 dim with its range is always answered `Ok` (never thrown), and the request is feasible iff (on resize) `newshape >= ` current `hi` and `newshape <= ` max `hi`, as written; the reason names the failing comparison |
| Domain.CanSetJoinidShape | libtiledbsoma/src/soma/soma_array.cc:1590-1650 | the same check, answered `Ok` on an int64 dim with its range, feasible iff (on resize) `newshape >= ` current `hi + 1` and `newshape <= ` max `hi + 1` |
| Domain.JoinidCheckAgreesWithShapeCheck | libtiledbsoma/src/soma/soma_array.cc:1536-1650 | on any array with `soma_joinid`, the corrected check is feasible iff that dimension passes the generic per-dimension max test and, on resize, the current test; on a `soma_joinid`-only array it accepts exactly what `_can_set_shape_helper` accepts |
| Domain.JoinidChecksDifferOnlyAtBoundaries | libtiledbsoma/src/soma/soma_array.cc:1622-1646 | the as-written and corrected checks disagree only on a resize to exactly the current `hi`, or a request of exactly the max `hi + 1` |
| Domain.JoinidResizeAcceptsDownsize | libtiledbsoma/src/soma/soma_array.cc:1622-1634 | current `[0,99]` (shape 100): as written a resize to 99 is feasible; the corrected check refuses it |
| Domain.JoinidUpgradeRejectsMaxShape | libtiledbsoma/src/soma/soma_array.cc:1636-1646 | max `[0,99]` (maxshape 100): as written an upgrade to 100 is refused; the corrected check accepts it |
| Domain.SetShapeHelper | libtiledbsoma/src/soma/soma_array.cc:1652-1706 | errors in source order (mode, shape state, int64 dims, ndim); else one range per dim name, `[0, newshape[i]-1]`, and the resulting shape is `newshape` |
| Domain.BuildRect | libtiledbsoma/src/soma/soma_array.cc:1698-1701 | the rectangle's keys are the dim names; with distinct names each holds `[0, newshape[i]-1]` |
| Domain.RectShapeRoundTrip | libtiledbsoma/src/soma/soma_array.cc:1698-1701 | the rectangle `[0, newshape[i]-1]` reports shape `newshape`, even where int64 wraps |
| Domain.SetSomaJoinidShapeHelper | libtiledbsoma/src/soma/soma_array.cc:1708-1885 | upgrade builds a rectangle holding only `soma_joinid = [0, newshape-1]` (an error if that dim is not int64); resize replaces that range in the old rectangle |
| Domain.JoinidResizeSetsShape | libtiledbsoma/src/soma/soma_array.cc:1865-1881 | after a resize `soma_joinid` reports `newshape`, and every other dim keeps its shape |
| Domain.JoinidUpgradeLeavesOtherDimsUnset | libtiledbsoma/src/soma/soma_array.cc:1743-1757 | the rectangle the upgrade builds has no range for any other dimension, so it reports no shape |
| Domain.JoinidUpgradeRect | libtiledbsoma/src/soma/soma_array.cc:1740-1859 | the intended upgrade rectangle: one range per dim name, `[0, newshape-1]` on `soma_joinid` and the max domain elsewhere |
| Domain.JoinidUpgradeRectShape | libtiledbsoma/src/soma/soma_array.cc:1740-1859 | with the intended rectangle `soma_joinid` reports `newshape` and every other dim `hi + 1`, its maxshape when its domain starts at 0 |
| Enumeration.MaxCapacity | libtiledbsoma/src/soma/soma_array.cc:307-330 | succeeds exactly on the eight integer index types, with a value that fits `uint64_t`; every other type, bool included, is refused |
| Enumeration.MaxCapacityIsTypeMax | libtiledbsoma/src/soma/soma_array.cc:307-330 | the capacity is the type's maximum, `2^(w-1) - 1` signed or `2^w - 1` unsigned, for width w |
| Enumeration.NewValues | libtiledbsoma/src/soma/soma_array.cc:870-877 | the result holds exactly the incoming values absent from the existing enumeration |
| Enumeration.NewValuesSingleton | libtiledbsoma/src/soma/soma_array.cc:872-877 | a single incoming value is new iff it is not in the enumeration |
| Enumeration.NewValuesAppend | libtiledbsoma/src/soma/soma_array.cc:872-877 | the filter distributes over concatenation: new values keep incoming order, and a repeated missing value is kept each time |
| Enumeration.NewValuesDistinct | libtiledbsoma/src/soma/soma_array.cc:872-877 | distinct incoming values give distinct new values |
| Enumeration.ExtensionKeepsDistinct | libtiledbsoma/src/soma/soma_array.cc:870-896 | a distinct enumeration extended with distinct incoming values stays distinct |
| Enumeration.ExtendAndEvolveSchema | libtiledbsoma/src/soma/soma_array.cc:833-926 | no new values leaves the enumeration and gives false; otherwise non-integer index type and uint64 free capacity < #new are errors, else true with existing ++ new |
| Enumeration.CapacityTestExact | libtiledbsoma/src/soma/soma_array.cc:886-891 | while the enumeration fits, the uint64 test fails iff existing + new > max capacity |
| Enumeration.CapacityTestWrapsWhenOverfull | libtiledbsoma/src/soma/soma_array.cc:887-888 | an enumeration already over capacity makes the subtraction wrap, and every extension passes |
| Enumeration.ExtensionCoversIncoming | libtiledbsoma/src/soma/soma_array.cc:893-896 | after extension every incoming value is present, and existing values keep their positions |
| Enumeration.ExtensionIdempotent | libtiledbsoma/src/soma/soma_array.cc:870-896 | extending again with the same values finds nothing new |
| Enumeration.IncomingBools | libtiledbsoma/src/soma/soma_array.cc:847-852 | boolean write values are the first `length` unpacked bits |
| Enumeration.ExtendAndEvolveStrings | libtiledbsoma/src/soma/soma_array.cc:928-1006 | the values are the slices between offsets; no new values gives false; otherwise a non-integer index type and uint64 free capacity < #new are errors, else true with existing ++ new |
| Enumeration.RemapIndexes | libtiledbsoma/src/soma/soma_array.cc:898-910 | remapped indexes select the same values from the enumeration as the old indexes did from the dictionary |
| Enumeration.RemapExample | libtiledbsoma/src/soma/soma_array.cc:898-902 | on disk `[A,B,C]` and written `[B,C]` with indexes `[0,1]`, the remap gives `[1,2]` |
| Enumeration.ExtensionAllowsRemap | libtiledbsoma/src/soma/soma_array.cc:895-909 | after extension every written value can be remapped into the extended enumeration |
| Enumeration.CastDictionaryValues | libtiledbsoma/src/soma/soma_array.cc:537-569 | output position k holds `values[indexes[k]]` |
| Enumeration.CastDictionaryStrings | libtiledbsoma/src/soma/soma_array.cc:571-625 | the data is the concatenation of the gathered strings, and the offsets are their running sums (one more than the index count) |
| Enumeration.CastDictionaryStringsRoundTrip | libtiledbsoma/src/soma/soma_array.cc:609-616 | slicing the promoted column at its offsets gives back the gathered strings |
| Enumeration.CastDictionaryBools | libtiledbsoma/src/soma/soma_array.cc:627-651 | a format other than "b" is an error; otherwise position k is bit `indexes[k]` of the dictionary's bit buffer |
| SomaArrayState.LayoutFor | libtiledbsoma/src/soma/soma_array.cc:255-273 | automatic gives unordered (sparse) or row-major (dense); row- and column-major map to themselves; anything else is `invalid_argument` |
| SomaArrayState.SomaArray.constructor | libtiledbsoma/src/soma/soma_array.cc:163-176 | batch size "auto", automatic order with its layout, cursor armed, cache equal to the stored metadata |
| SomaArrayState.SomaArray.Reset | libtiledbsoma/src/soma/soma_array.cc:244-278 | an unnamed order fails and changes nothing; otherwise the layout follows the order, and the cursor is re-armed with nothing submitted |
| SomaArrayState.SomaArray.ReadNext | libtiledbsoma/src/soma/soma_array.cc:280-305 | a complete query gives none; an empty query gives one empty batch after a reset and none after; otherwise a submitted batch |
| SomaArrayState.SomaArray.SetMetadata | libtiledbsoma/src/soma/soma_array.cc:1084-1101 | a protected key without force fails and leaves the cache unchanged; otherwise it is inserted only if absent (`std::map::insert`) |
| SomaArrayState.SomaArray.DeleteMetadata | libtiledbsoma/src/soma/soma_array.cc:1103-1114 | a protected key without force fails and leaves the cache unchanged; otherwise the key is erased |
| SomaArrayState.SomaArray.GetMetadata | libtiledbsoma/src/soma/soma_array.cc:1116-1122 | none iff the key is not cached; otherwise the cached entry |
| SomaArrayState.SomaArray.HasMetadata | libtiledbsoma/src/soma/soma_array.cc:1128-1130 | agrees with `get_metadata` returning a value |
| SomaArrayState.SomaArray.MetadataNum | libtiledbsoma/src/soma/soma_array.cc:1132-1134 | the number of cached keys |
| SomaArrayState.SomaArray.Close | libtiledbsoma/src/soma/soma_array.cc:234-242 | the cache is emptied and the cursor state is kept |
| SomaArrayState.EmptyQueryReadsOnce | libtiledbsoma/src/soma/soma_array.cc:286-296 | after a reset an empty query yields one empty batch, then none |
| SomaArrayState.ResultOrderSequence | libtiledbsoma/test/unit_soma_array.cc:477-491 | row-major, then column-major are set; order 3 is refused and column-major stays |
| SomaArrayState.MetadataSequence | libtiledbsoma/test/unit_soma_array.cc:380-420 | a scenario built on the unit test: adding `md` gives 3 keys; deleting a protected key is refused; deleting `md` gives 2 keys |
| Util.ToVarlenBuffers | libtiledbsoma/src/utils/util.cc:40-64 | the data is the concatenation; offsets are the n+1 prefix sizes with `arrow`, else the first n |
| Util.ArrowOffsetsShape | libtiledbsoma/src/utils/util.cc:47-56 | offsets start at 0, are non-decreasing, and end at the total byte count |
| Util.VarlenRoundTrip | libtiledbsoma/src/utils/util.cc:51-56 | slicing the concatenation at its offsets gives back the elements |
| Util.ValuesFromOffsets | libtiledbsoma/src/soma/soma_array.cc:952-957 | the values are the slices between consecutive offsets |
| Util.CastBitToUint8 | libtiledbsoma/src/utils/util.cc:77-99 | a format other than "b" is an error; data comes from buffer 2 of 3, else buffer 1; output is `8*ceil(length/8)` bytes, and byte 8i+j is bit j of byte i |
| Util.UnpackBitsAt | libtiledbsoma/src/utils/util.cc:91-97 | unpacked element k is bit `k % 8` (LSB first) of byte `k / 8` |
| Util.UnpackBitsAreBooleans | libtiledbsoma/src/utils/util.cc:95 | every unpacked element is 0 or 1 |
| Util.PackUnpack | libtiledbsoma/src/utils/util.cc:91-97 | packing the unpacked bits gives back the bytes (nothing is lost) |
| Util.ByteCount | libtiledbsoma/src/utils/util.cc:92 | the outer loop's byte count is the ceiling of `length / 8` |
| Util.FindFrom | libtiledbsoma/src/utils/util.cc:70 | the first position at or after `from` where the pattern occurs, or none |
| Util.IsTiledbUri | libtiledbsoma/src/utils/util.cc:69-71 | `is_tiledb_uri(u)` (find at position 0) iff `u` starts with `tiledb://` |
| Util.RstripUri | libtiledbsoma/src/utils/util.cc:73-75 | the result is a prefix, does not end in '/', and only '/' was removed |
| Util.RstripUriIdempotent | libtiledbsoma/src/utils/util.cc:73-75 | stripping twice equals stripping once |
| Util.RstripUriKeepsUnslashed | libtiledbsoma/src/utils/util.cc:73-75 | the result is the unique prefix with those properties |
| Buffers.ArrayBuffers.At | libtiledbsoma/src/soma/array_buffers.cc:42-48 | an unknown name is an error; otherwise the buffer stored under the name |
| Buffers.ArrayBuffers.Emplace | libtiledbsoma/src/soma/array_buffers.cc:50-58 | a known name fails and changes nothing; otherwise the name is appended and mapped to the buffer; keeps the no-duplicate, names-equal-keys invariant; old entries are unchanged |
| Buffers.EmplaceTwice | libtiledbsoma/src/soma/array_buffers.cc:50-58 | two emplaces give names in insertion order and `at` returns their buffers; a repeated name is refused |

## Left out

- Storage-engine I/O is not modelled:
  - opening, creating, validating and reopening arrays;
  - `FragmentInfo::load`, `array_evolve`, `put_metadata`/`delete_metadata` on the array;
  - managed-query setup, submit and results, and `load_all_enumerations`.
  What these calls return becomes an input. Their side effects on disk are not represented.
- `_nnz_slow` is an opaque exact count (`Nnz.ExactCount`, with the value supplied to `Nnz.NnzValue`).
- `consolidate_and_vacuum`, `create` and `validate` are engine plumbing.
- `fill_metadata_cache` and its separate read handle for write mode are not modelled. The constructor takes the stored metadata as a map. `get_metadata()` with no key is the `metadata` field itself.
- Column selection in `reset`, and the managed-query reset, are not modelled. `Reset` takes no column list.
- Nnz.ComputeNnz: the `assert(frag_ts.first <= frag_ts.second)` on fragment timestamps is not modelled. Dim-0 ranges are taken as the unsigned values the source reads into `uint64_t`.
- Nnz.FastPathSumsIffDisjoint: stated only for ranges well formed in the `uint64_t` view (`lo <= hi`). That holds when no fragment's int64 dim-0 range straddles 0, and the `soma_joinid`/`soma_dim_0` domains start at 0. An int64 range such as `[-5, 3]` read into `uint64_t` has `lo > hi`. The sort-and-scan then misses its overlap with `[1, 2]`, a case the lemma does not cover.
- Domain.SetShapeHelper: the shape-is-newshape round trip is stated for distinct dimension names only, as the engine requires.
- Domain.SetSomaJoinidShapeHelper: on resize, the engine's own type check of `set_range<int64_t>` is not modelled. The unreachable per-type switch after the `continue` is not modelled.
- Domain.CurrentSizes: `NDRectangle::range` and `_core_current_domain_slot` are not part of this model. A dimension with no range in the rectangle is taken to be a reported error (`RangeNotSet`). `Domain.DimOutcome`, `Domain.TiledbCurrentDomain`, `Domain.Shape` and `Domain.JoinidUpgradeLeavesOtherDimsUnset` inherit this assumption.
- Domain.DimOutcome: the missing-range error is the same assumption as for `Domain.CurrentSizes`.
- Domain.TiledbCurrentDomain: the check that the current domain's type is an NDRectangle is not modelled. `CurrentDomain` has no other non-empty form.
- C++ signed overflow (`hi + 1` at `INT64_MAX`, `newshape - 1` at `INT64_MIN`) is undefined behaviour. The model chooses two's-complement wrap (`Types.WrapI64`) for it.
- Domain.JoinidUpgradeRect: the corrected upgrade rectangle stands on its own. `Domain.SetSomaJoinidShapeHelper` keeps the code's behaviour, so the findings row below can show it.
- Domain.CanSetJoinidShapeAsWritten: the engine slot lookups `_core_domain_slot` and `_core_current_domain_slot` are not part of this model. On a non-int64 `soma_joinid` they are taken to fail, and on a missing range to fail with the range not set.
- `can_upgrade_domain`, `_can_set_dataframe_domainish_subhelper` and `_get_core_domainish` are not part of this model. Neither is the Arrow pointer work in `_cast_column` and `_cast_column_aux`.
- Float and double columns and domains are floating point and out of scope. `Types.DType` lists them only as tags.
- `_remap_indexes` is not part of this model. `Enumeration.RemapIndexes` specifies the remapping that the comment at lines 898-902 of `soma_array.cc` describes: each value goes to the index of its first occurrence.
- The engine's `Enumeration::extend` is modelled as appending the new values.
- The 32-bit and 64-bit Arrow offset widths are both modelled as `nat` offsets.
- A Dafny `string` stands for a C++ byte string. Offsets count elements of the sequence, as `size()` counts bytes at line 54 of `util.cc`. There is no character encoding.
- Enumeration.ExtendAndEvolveSchema: the choice between buffer 2 and buffer 1 according to `n_buffers` (lines 856-860 of `soma_array.cc`) is not modelled. The incoming values arrive as a sequence.
- Enumeration.ExtendAndEvolveSchema: an incoming dictionary that repeats a new value would have it appended twice (`Enumeration.NewValuesAppend`). The engine's rejection of duplicate enumeration values is not modelled. `Enumeration.ExtensionKeepsDistinct` states that distinct inputs keep the enumeration distinct.
- Enumeration.CastDictionaryValues: the choice between buffer 2 and buffer 1 according to `n_buffers` (lines 549-553 of `soma_array.cc`) is not modelled. The dictionary arrives as the value sequence already taken from the right buffer.
- Nnz.SumFragments: fragment cell counts and dim-0 range ends are `nat` rather than `uint64_t`. The sum is reduced mod 2^64; the inputs are not bounded.
- Validity (null) buffers are not modelled.
- The computation of `nbytes` in `to_varlen_buffers` is never used, so it is not modelled.
- `ArrayBuffers::contains` is modelled as membership in the buffer map. Its definition is not part of this model.
- `libtiledbsoma/src/soma.cc` (a locked, I/O-driven traversal of groups) and the Python modules `_query.py` and `io/conversions.py` are not part of this model.

## Findings

| source | as written | input that shows it | evidently intended | confidence | as-written member | corrected member |
|---|---|---|---|---|---|---|
| libtiledbsoma/src/soma/soma_array.cc:1622-1634 | a resize is refused only when `newshape < hi` of the current `soma_joinid` range | current domain `[0, 99]` (shape 100), resize to 99: accepted, which is a downsize | refuse `newshape < hi + 1`, the existing shape the message prints and the generic check uses | medium; not executed | Domain.CanSetJoinidShapeAsWritten, Domain.JoinidResizeAcceptsDownsize | Domain.CanSetJoinidShape, Domain.JoinidCheckAgreesWithShapeCheck, Domain.JoinidChecksDifferOnlyAtBoundaries |
| libtiledbsoma/src/soma/soma_array.cc:1636-1646 | the request is refused when `newshape > hi` of the max `soma_joinid` domain | max domain `[0, 99]` (maxshape 100), upgrade to 100: refused, although it equals `maxshape` | refuse `newshape > hi + 1`, the maxshape the message prints and the generic check uses | medium; not executed | Domain.CanSetJoinidShapeAsWritten, Domain.JoinidUpgradeRejectsMaxShape | Domain.CanSetJoinidShape, Domain.JoinidCheckAgreesWithShapeCheck, Domain.JoinidChecksDifferOnlyAtBoundaries |
| libtiledbsoma/src/soma/soma_array.cc:1740-1759 | on upgrade, only `soma_joinid` gets a range: the per-type copy of the max domain sits after the `continue` inside the `soma_joinid` branch and never runs | dims `soma_joinid` `[0, 999]` and `x` `[0, 9]`, no current domain, upgrade to 100: the rectangle has no range for `x` | copy every other dimension's max domain, as the comment at lines 1740-1741 says | low; not executed | Domain.SetSomaJoinidShapeHelper, Domain.JoinidUpgradeLeavesOtherDimsUnset | Domain.JoinidUpgradeRect, Domain.JoinidUpgradeRectShape |
