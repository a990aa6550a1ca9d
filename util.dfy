/** Buffer and URI helpers of `libtiledbsoma/src/utils/util.cc`. */
module Util {
  import opened Base

  type byte = bv8

  // ---------------------------------------------------------------------
  // Variable-length buffers: concatenation plus an offsets array.
  // ---------------------------------------------------------------------

  /** The in-order concatenation of the elements. */
  function Concat(data: seq<string>): string
  {
    if data == [] then "" else Concat(data[..|data| - 1]) + data[|data| - 1]
  }

  /** Offsets in the Arrow convention: one per element plus a final one; entry
      `i` is the byte count of the first `i` elements. */
  function ArrowOffsets(data: seq<string>): (r: seq<nat>)
    ensures |r| == |data| + 1
  {
    seq(|data| + 1, i requires 0 <= i <= |data| => |Concat(data[..i])|)
  }

  /** Offsets are well formed for a data buffer of `size` bytes: at least one
      entry, non-decreasing, and the last within the buffer. */
  predicate ValidOffsets(offsets: seq<nat>, size: nat)
  {
    && |offsets| >= 1
    && (forall i, j :: 0 <= i <= j < |offsets| ==> offsets[i] <= offsets[j])
    && offsets[|offsets| - 1] <= size
  }

  /** The values a variable-length buffer holds: element `i` is the bytes
      between offsets `i` and `i + 1`. */
  function Slices(data: string, offsets: seq<nat>): (r: seq<string>)
    requires ValidOffsets(offsets, |data|)
    ensures |r| == |offsets| - 1
  {
    seq(|offsets| - 1, i requires 0 <= i < |offsets| - 1 => data[offsets[i]..offsets[i + 1]])
  }

  lemma {:induction false} ConcatAppend(a: seq<string>, b: seq<string>)
    ensures Concat(a + b) == Concat(a) + Concat(b)
  {
    if b == [] {
      assert a + b == a;
    } else {
      var b' := b[..|b| - 1];
      assert (a + b)[..|a + b| - 1] == a + b';
      ConcatAppend(a, b');
    }
  }

  /** Appending an element appends its end offset. */
  lemma ArrowOffsetsSnoc(data: seq<string>, x: string)
    ensures ArrowOffsets(data + [x]) == ArrowOffsets(data) + [|Concat(data) + x|]
  {
    var d := data + [x];
    assert d[..|d| - 1] == data;
    forall i | 0 <= i <= |data|
      ensures d[..i] == data[..i]
    {
    }
    assert d[..|d|] == d;
  }

  /** `to_varlen_buffers`: the string is the concatenation of the elements and
      offset `i` is the total size of the first `i` elements. With `arrow` the
      n+1 offsets are kept; otherwise the last one is dropped. */
  method ToVarlenBuffers(data: seq<string>, arrow: bool) returns (result: string, offsets: seq<nat>)
    ensures result == Concat(data)
    ensures offsets == if arrow then ArrowOffsets(data) else ArrowOffsets(data)[..|data|]
  {
    var buf := new nat[|data| + 1];
    result := "";
    var offset: nat := 0;
    var idx := 0;
    while idx < |data|
      invariant 0 <= idx <= |data|
      invariant result == Concat(data[..idx])
      invariant offset == |result|
      invariant forall k :: 0 <= k < idx ==> buf[k] == |Concat(data[..k])|
    {
      assert data[..idx + 1][..idx] == data[..idx];
      result := result + data[idx];
      buf[idx] := offset;
      offset := offset + |data[idx]|;
      idx := idx + 1;
    }
    buf[idx] := offset;
    assert data[..idx] == data;
    offsets := buf[..];
    assert offsets == ArrowOffsets(data);
    if !arrow {
      offsets := offsets[..|offsets| - 1];
    }
  }

  /** Offsets start at 0, never decrease, and end at the total byte count. */
  lemma {:induction false} ArrowOffsetsShape(data: seq<string>)
    ensures ArrowOffsets(data)[0] == 0
    ensures ArrowOffsets(data)[|data|] == |Concat(data)|
    ensures forall i, j :: 0 <= i <= j <= |data| ==> ArrowOffsets(data)[i] <= ArrowOffsets(data)[j]
    ensures ValidOffsets(ArrowOffsets(data), |Concat(data)|)
  {
    assert data[..0] == [];
    assert data[..|data|] == data;
    forall i, j | 0 <= i <= j <= |data|
      ensures ArrowOffsets(data)[i] <= ArrowOffsets(data)[j]
    {
      assert data[..j] == data[..i] + data[i..j];
      ConcatAppend(data[..i], data[i..j]);
    }
  }

  /** Splitting the buffers back by their offsets gives the elements again. */
  lemma {:induction false} VarlenRoundTrip(data: seq<string>)
    ensures ValidOffsets(ArrowOffsets(data), |Concat(data)|)
    ensures Slices(Concat(data), ArrowOffsets(data)) == data
  {
    ArrowOffsetsShape(data);
    var s := Slices(Concat(data), ArrowOffsets(data));
    forall i | 0 <= i < |data|
      ensures s[i] == data[i]
    {
      assert data == data[..i] + [data[i]] + data[i + 1..];
      ConcatAppend(data[..i] + [data[i]], data[i + 1..]);
      ConcatAppend(data[..i], [data[i]]);
      assert data[..i + 1] == data[..i] + [data[i]];
      assert Concat([data[i]]) == data[i] by {
        assert [data[i]][..0] == [];
      }
    }
  }

  /** The loop of the string specialisations that reads one value per pair of
      adjacent offsets (`substr(beg, end - beg)`). */
  method ValuesFromOffsets(data: string, offsets: seq<nat>) returns (values: seq<string>)
    requires ValidOffsets(offsets, |data|)
    ensures values == Slices(data, offsets)
  {
    values := [];
    var i := 0;
    while i < |offsets| - 1
      invariant 0 <= i <= |offsets| - 1
      invariant |values| == i
      invariant forall k :: 0 <= k < i ==> values[k] == data[offsets[k]..offsets[k + 1]]
    {
      var beg := offsets[i];
      var sz := offsets[i + 1] - beg;
      values := values + [data[beg..beg + sz]];
      i := i + 1;
    }
  }

  // ---------------------------------------------------------------------
  // Bit-packed booleans.
  // ---------------------------------------------------------------------

  /** The eight bits of a byte, least significant first, each as the byte 0 or 1. */
  function ByteBits(b: byte): (r: seq<byte>)
    ensures |r| == 8
  {
    [b & 1, (b >> 1) & 1, (b >> 2) & 1, (b >> 3) & 1, (b >> 4) & 1, (b >> 5) & 1, (b >> 6) & 1, (b >> 7) & 1]
  }

  /** Bit `j` (least significant first) of a byte, as the byte 0 or 1. */
  function Bit(b: byte, j: nat): (r: byte)
    requires j < 8
    ensures r == 0 || r == 1
  {
    ByteBits(b)[j]
  }

  /** Unpacking of a bit-packed buffer, byte by byte. */
  function UnpackBits(bytes: seq<byte>): seq<byte>
  {
    if bytes == [] then [] else UnpackBits(bytes[..|bytes| - 1]) + ByteBits(bytes[|bytes| - 1])
  }

  /** Arrow's boolean layout: eight values per byte, value `j` in bit `j`. */
  function PackBits(bits: seq<byte>): (r: seq<byte>)
    requires |bits| % 8 == 0
    ensures |r| == |bits| / 8
  {
    if bits == [] then []
    else
      var n := |bits|;
      var b := bits[n - 8..];
      PackBits(bits[..n - 8]) + [PackByte(b)]
  }

  /** Eight values packed into one byte, value `j` into bit `j`. */
  function PackByte(b: seq<byte>): byte
    requires |b| == 8
  {
    (b[0] & 1) | ((b[1] & 1) << 1) | ((b[2] & 1) << 2) | ((b[3] & 1) << 3)
      | ((b[4] & 1) << 4) | ((b[5] & 1) << 5) | ((b[6] & 1) << 6) | ((b[7] & 1) << 7)
  }

  lemma PackByteBits(x: byte)
    ensures PackByte(ByteBits(x)) == x
  {
  }

  lemma {:induction false} UnpackBitsAt(bytes: seq<byte>, k: nat)
    requires k < 8 * |bytes|
    ensures |UnpackBits(bytes)| == 8 * |bytes|
    ensures UnpackBits(bytes)[k] == Bit(bytes[k / 8], k % 8)
  {
    var n := |bytes|;
    var init := bytes[..n - 1];
    var u := UnpackBits(init);
    var last := ByteBits(bytes[n - 1]);
    UnpackBitsLength(init);
    assert UnpackBits(bytes) == u + last;
    if k < 8 * (n - 1) {
      UnpackBitsAt(init, k);
      assert init[k / 8] == bytes[k / 8];
      assert (u + last)[k] == u[k];
    } else {
      DivMod8(k, n - 1);
      assert (u + last)[k] == last[k - 8 * (n - 1)];
    }
  }

  lemma DivMod8(k: nat, q: nat)
    requires 8 * q <= k < 8 * q + 8
    ensures k / 8 == q && k % 8 == k - 8 * q
  {
  }

  lemma {:induction false} UnpackBitsLength(bytes: seq<byte>)
    ensures |UnpackBits(bytes)| == 8 * |bytes|
  {
    if bytes != [] {
      UnpackBitsLength(bytes[..|bytes| - 1]);
    }
  }

  /** Every unpacked element is 0 or 1. */
  lemma UnpackBitsAreBooleans(bytes: seq<byte>)
    ensures forall k :: 0 <= k < |UnpackBits(bytes)| ==> UnpackBits(bytes)[k] == 0 || UnpackBits(bytes)[k] == 1
  {
    UnpackBitsLength(bytes);
    forall k | 0 <= k < |UnpackBits(bytes)|
      ensures UnpackBits(bytes)[k] == 0 || UnpackBits(bytes)[k] == 1
    {
      UnpackBitsAt(bytes, k);
    }
  }

  /** Re-packing the unpacked bits restores the bytes. */
  lemma PackBitsSnoc(a: seq<byte>, b: seq<byte>)
    requires |a| % 8 == 0 && |b| == 8
    ensures PackBits(a + b) == PackBits(a) + [PackByte(b)]
  {
    var u := a + b;
    assert u[..|u| - 8] == a;
    assert u[|u| - 8..] == b;
  }

  lemma {:induction false} PackUnpack(bytes: seq<byte>)
    ensures |UnpackBits(bytes)| % 8 == 0
    ensures PackBits(UnpackBits(bytes)) == bytes
  {
    UnpackBitsLength(bytes);
    if bytes != [] {
      var n := |bytes|;
      var init := bytes[..n - 1];
      var x := bytes[n - 1];
      UnpackBitsLength(init);
      PackUnpack(init);
      PackBitsSnoc(UnpackBits(init), ByteBits(x));
      PackByteBits(x);
      assert bytes == init + [x];
    }
  }

  /** An Arrow array as the modelled code sees it: its length and its buffers. */
  datatype ArrowColumn = ArrowColumn(length: nat, buffers: seq<seq<byte>>)

  /** The data buffer: the third one when there are three, else the second. */
  function DataBuffer(col: ArrowColumn): seq<byte>
    requires |col.buffers| >= 2
  {
    if |col.buffers| == 3 then col.buffers[2] else col.buffers[1]
  }

  /** The number of bytes `i` with `i * 8 < length`. */
  function ByteCount(length: nat): (r: nat)
    ensures r * 8 >= length && (r == 0 || (r - 1) * 8 < length)
  {
    (length + 7) / 8
  }

  /** `cast_bit_to_uint8`: an Arrow boolean column ("b") expanded to one byte
      per bit, reading whole bytes, so the output length is rounded up to a
      multiple of 8. */
  method CastBitToUint8(format: string, col: ArrowColumn) returns (r: Result<seq<byte>>)
    requires format == "b" ==> |col.buffers| >= 2 && ByteCount(col.length) <= |DataBuffer(col)|
    ensures format != "b" ==> r == Err(UnexpectedFormat(format))
    ensures format == "b" ==> r.Ok?
    ensures r.Ok? ==> r.value == UnpackBits(DataBuffer(col)[..ByteCount(col.length)])
    ensures r.Ok? ==> |r.value| == 8 * ByteCount(col.length)
    ensures r.Ok? ==> forall k :: 0 <= k < |r.value| ==> r.value[k] == Bit(DataBuffer(col)[k / 8], k % 8)
  {
    if format != "b" {
      return Err(UnexpectedFormat(format));
    }
    var data := DataBuffer(col);
    ghost var nbytes := ByteCount(col.length);
    var casted: seq<byte> := [];
    var i := 0;
    while i * 8 < col.length
      invariant 0 <= i <= nbytes
      invariant casted == UnpackBits(data[..i])
    {
      var b := data[i];
      var j := 0;
      while j < 8
        invariant 0 <= j <= 8
        invariant casted == UnpackBits(data[..i]) + ByteBits(b)[..j]
      {
        casted := casted + [Bit(b, j)];
        j := j + 1;
      }
      assert data[..i + 1][..i] == data[..i];
      i := i + 1;
    }
    assert i == nbytes;
    UnpackBitsLength(data[..i]);
    forall k | 0 <= k < |casted|
      ensures casted[k] == Bit(data[k / 8], k % 8)
    {
      UnpackBitsAt(data[..i], k);
    }
    r := Ok(casted);
  }

  // ---------------------------------------------------------------------
  // URIs.
  // ---------------------------------------------------------------------

  predicate StartsWith(s: string, prefix: string)
  {
    |prefix| <= |s| && s[..|prefix|] == prefix
  }

  /** `std::string_view::find`: the first position at or after `from` where
      `pat` occurs, or none. */
  function FindFrom(s: string, pat: string, from: nat): (r: Option<nat>)
    requires from <= |s|
    ensures r.Some? ==> from <= r.value <= |s| && StartsWith(s[r.value..], pat)
    ensures r.Some? ==> forall p :: from <= p < r.value ==> !StartsWith(s[p..], pat)
    ensures r.None? ==> forall p :: from <= p <= |s| ==> !StartsWith(s[p..], pat)
    decreases |s| - from
  {
    if StartsWith(s[from..], pat) then Some(from)
    else if from == |s| then None
    else FindFrom(s, pat, from + 1)
  }

  const TILEDB_SCHEME: string := "tiledb://"

  /** `is_tiledb_uri`: the first occurrence of "tiledb://" is at position 0,
      which holds exactly for the URIs that start with it. */
  predicate IsTiledbUri(uri: string): (r: bool)
    ensures r <==> StartsWith(uri, TILEDB_SCHEME)
  {
    assert uri[0..] == uri;
    FindFrom(uri, TILEDB_SCHEME, 0) == Some(0)
  }

  /** `rstrip_uri`: the regular expression "/+$" replaced by nothing, that is,
      the trailing run of '/' removed. */
  function RstripUri(uri: string): (r: string)
    ensures StartsWith(uri, r)
    ensures r == [] || r[|r| - 1] != '/'
    ensures forall k :: |r| <= k < |uri| ==> uri[k] == '/'
  {
    if |uri| > 0 && uri[|uri| - 1] == '/' then RstripUri(uri[..|uri| - 1]) else uri
  }

  /** Stripping twice is the same as stripping once. */
  lemma RstripUriIdempotent(uri: string)
    ensures RstripUri(RstripUri(uri)) == RstripUri(uri)
  {
  }

  /** Nothing but the trailing slashes is removed: a URI that does not end in
      '/' is left as it is, and one that does loses exactly its last '/'-run. */
  lemma RstripUriKeepsUnslashed(uri: string, rest: string)
    requires rest == [] || rest[|rest| - 1] != '/'
    requires forall k :: |rest| <= k < |uri| ==> uri[k] == '/'
    requires StartsWith(uri, rest)
    ensures RstripUri(uri) == rest
  {
    var r := RstripUri(uri);
    assert uri[..|r|] == r;
    assert uri[..|rest|] == rest;
  }
}
