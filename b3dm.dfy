/** The Batched 3D Model (b3dm) tile reader of OGC 3D Tiles 1.0: the fixed 28-byte
    little-endian header and the slice that holds the embedded glTF binary (GLB).
    The repository carries two variants: a lenient one that never rejects the offset
    (extract_shibuya_scramble.py, extract_b3dm_to_glb.py) and a strict one that
    rejects an offset at or past the end of the data (g2h.py). */
module B3dm {
  import opened Wrappers
  import opened Bytes

  const HeaderLength: nat := 28

  /** The ASCII codes of "b3dm". */
  const Magic: seq<Byte> := [98, 51, 100, 109]

  /** The ValueErrors the readers raise. */
  datatype ParseError =
    | TooSmall          // fewer than 28 bytes
    | NotB3dm           // the first four bytes do not decode to "b3dm"
    | OffsetBeyondEnd   // the GLB offset is at or past the end of the data (g2h.py only)

  /** The six u32 fields after the magic. */
  datatype Header = Header(
    version: nat,
    byteLength: nat,
    featureTableJsonLength: nat,
    featureTableBinaryLength: nat,
    batchTableJsonLength: nat,
    batchTableBinaryLength: nat)
  {
    /** Every field fits in a u32. */
    predicate Valid() {
      && version < U32Limit && byteLength < U32Limit
      && featureTableJsonLength < U32Limit && featureTableBinaryLength < U32Limit
      && batchTableJsonLength < U32Limit && batchTableBinaryLength < U32Limit
    }

    /** Where the GLB starts: after the header, the feature table and the batch table. */
    function GlbOffset(): nat {
      HeaderLength + featureTableJsonLength + featureTableBinaryLength
        + batchTableJsonLength + batchTableBinaryLength
    }
  }

  /** The magic test as the source writes it: data[0:4].decode('ascii', errors='ignore') == 'b3dm'. */
  predicate HasMagic(data: seq<Byte>)
    requires |data| >= 4
  {
    AsciiDecodeIgnore(data[..4]) == "b3dm"
  }

  /** Dropping non-ASCII bytes cannot make four bytes decode to "b3dm" unless they are
      exactly the bytes of "b3dm". */
  lemma HasMagicExact(data: seq<Byte>)
    requires |data| >= 4
    ensures HasMagic(data) <==> data[..4] == Magic
  {
    AsciiDecodeIgnoreMatches(data[..4], "b3dm");
    if forall i :: 0 <= i < 4 ==> data[..4][i] == "b3dm"[i] as int {
      assert data[..4] == Magic;
    }
  }

  /** The 28 bytes that a header is stored as. */
  function EncodeHeader(h: Header): (bs: seq<Byte>)
    requires h.Valid()
    ensures |bs| == HeaderLength
    ensures bs[..4] == Magic
  {
    Magic + U32Bytes(h.version) + U32Bytes(h.byteLength)
      + U32Bytes(h.featureTableJsonLength) + U32Bytes(h.featureTableBinaryLength)
      + U32Bytes(h.batchTableJsonLength) + U32Bytes(h.batchTableBinaryLength)
  }

  /** The six u32 fields at offsets 4, 8, ..., 24. */
  function HeaderAt(data: seq<Byte>): (h: Header)
    requires |data| >= HeaderLength
    ensures h.Valid()
  {
    Header(U32At(data, 4), U32At(data, 8), U32At(data, 12),
           U32At(data, 16), U32At(data, 20), U32At(data, 24))
  }

  /** The header checks shared by every reader: length first, then the magic, then the
      six u32 fields. */
  function ReadHeader(data: seq<Byte>): (r: Result<Header, ParseError>)
    ensures r == Err(TooSmall) <==> |data| < HeaderLength
    ensures r == Err(NotB3dm) <==> |data| >= HeaderLength && data[..4] != Magic
    ensures r.Err? ==> r.error != OffsetBeyondEnd
    ensures r.Ok? ==> r.value == HeaderAt(data)
  {
    if |data| < HeaderLength then Err(TooSmall)
    else if !HasMagic(data) then
      HasMagicExact(data);
      Err(NotB3dm)
    else
      HasMagicExact(data);
      Ok(HeaderAt(data))
  }

  /** An accepted header is exactly what the first 28 bytes store. */
  lemma ReadHeaderEncodes(data: seq<Byte>)
    requires ReadHeader(data).Ok?
    ensures EncodeHeader(ReadHeader(data).value) == data[..HeaderLength]
  {
    var h := HeaderAt(data);
    U32BytesOfU32At(data, 4);
    U32BytesOfU32At(data, 8);
    U32BytesOfU32At(data, 12);
    U32BytesOfU32At(data, 16);
    U32BytesOfU32At(data, 20);
    U32BytesOfU32At(data, 24);
    assert data[..HeaderLength] == data[..4] + data[4..8] + data[8..12] + data[12..16]
      + data[16..20] + data[20..24] + data[24..28];
  }

  /** Reading back an encoded header, whatever follows it, gives the header. */
  lemma {:induction false} ReadEncodedHeader(h: Header, rest: seq<Byte>)
    requires h.Valid()
    ensures ReadHeader(EncodeHeader(h) + rest) == Ok(h)
  {
    var e := EncodeHeader(h);
    var data := e + rest;
    assert data[..4] == Magic by {
      assert data[..4] == e[..4];
    }
    var tail := U32Bytes(h.batchTableBinaryLength);
    assert e == (Magic + U32Bytes(h.version) + U32Bytes(h.byteLength)
      + U32Bytes(h.featureTableJsonLength) + U32Bytes(h.featureTableBinaryLength)
      + U32Bytes(h.batchTableJsonLength)) + tail;
    assert e[24..28] == tail;
    EncodedField(e, rest, 4, h.version);
    EncodedField(e, rest, 8, h.byteLength);
    EncodedField(e, rest, 12, h.featureTableJsonLength);
    EncodedField(e, rest, 16, h.featureTableBinaryLength);
    EncodedField(e, rest, 20, h.batchTableJsonLength);
    EncodedField(e, rest, 24, h.batchTableBinaryLength);
  }

  /** The u32 at offset k of an encoded header, followed by anything, is the field the
      encoder put there. */
  lemma EncodedField(e: seq<Byte>, rest: seq<Byte>, k: nat, v: nat)
    requires k + 4 <= |e| && v < U32Limit && e[k..k + 4] == U32Bytes(v)
    ensures U32At(e + rest, k) == v
  {
    var data := e + rest;
    var bs := U32Bytes(v);
    assert data[k] == bs[0] && data[k + 1] == bs[1] && data[k + 2] == bs[2] && data[k + 3] == bs[3] by {
      assert e[k..k + 4][0] == e[k] && e[k..k + 4][1] == e[k + 1];
      assert e[k..k + 4][2] == e[k + 2] && e[k..k + 4][3] == e[k + 3];
    }
  }

  /** The end of the payload in the lenient readers: the declared byteLength when it lies
      after the GLB offset and within the data, otherwise the end of the data. */
  function LenientEnd(h: Header, dataLength: nat): nat {
    if h.byteLength <= dataLength && h.byteLength > h.GlbOffset() then h.byteLength else dataLength
  }

  /** extract_b3dm_to_glb_bytes (the lenient reader): the header checks, then
      data[glb_offset:end] with no check of the offset. */
  function ExtractGlbBytes(data: seq<Byte>): (r: Result<seq<Byte>, ParseError>)
    ensures r.Err? <==> |data| < HeaderLength || data[..4] != Magic
    ensures r.Err? ==> r.error != OffsetBeyondEnd
    ensures r.Ok? ==> var o := ReadHeader(data).value.GlbOffset();
      && |r.value| <= |data| - HeaderLength
      && (forall i :: 0 <= i < |r.value| ==> o + i < |data| && r.value[i] == data[o + i])
      && (r.value == [] <==> o >= |data|)
  {
    match ReadHeader(data)
    case Err(e) => Err(e)
    case Ok(h) => Ok(PySlice(data, h.GlbOffset(), LenientEnd(h, |data|)))
  }

  /** The payload found by the lenient reader ends at the declared byteLength exactly when
      that lies after the GLB offset and within the data; otherwise at the end of the data. */
  lemma LenientPayloadEnd(data: seq<Byte>)
    requires ExtractGlbBytes(data).Ok?
    ensures var h := ReadHeader(data).value; var r := ExtractGlbBytes(data).value;
      h.GlbOffset() < |data| ==>
        h.GlbOffset() + |r| == (if h.GlbOffset() < h.byteLength <= |data| then h.byteLength else |data|)
  {
  }

  /** extract_b3dm_glb in g2h.py (the strict reader): the header checks, a ValueError when
      the GLB offset is at or past the end, then data[glb_offset:byteLength] when
      byteLength <= len(data), else data[glb_offset:]. */
  function ExtractB3dmGlb(data: seq<Byte>): (r: Result<seq<Byte>, ParseError>)
    ensures r == Err(TooSmall) <==> |data| < HeaderLength
    ensures r == Err(NotB3dm) <==> |data| >= HeaderLength && data[..4] != Magic
    ensures r == Err(OffsetBeyondEnd) <==>
      ReadHeader(data).Ok? && ReadHeader(data).value.GlbOffset() >= |data|
    ensures r.Ok? ==> var h := ReadHeader(data).value;
      && h.GlbOffset() < |data|
      && (forall i :: 0 <= i < |r.value| ==> h.GlbOffset() + i < |data| && r.value[i] == data[h.GlbOffset() + i])
      && (r.value == [] <==> h.byteLength <= h.GlbOffset())
      && (h.byteLength <= |data| ==> h.GlbOffset() + |r.value| == Max(h.byteLength, h.GlbOffset()))
      && (h.byteLength > |data| ==> h.GlbOffset() + |r.value| == |data|)
  {
    match ReadHeader(data)
    case Err(e) => Err(e)
    case Ok(h) =>
      var o := h.GlbOffset();
      if o >= |data| then Err(OffsetBeyondEnd)
      else if h.byteLength <= |data| then Ok(PySlice(data, o, h.byteLength))
      else Ok(PySlice(data, o, |data|))
  }

  function Max(a: int, b: int): int { if a >= b then a else b }

  /** A well-formed container, header + feature table + batch table + GLB (+ anything
      after the declared length), gives back exactly the GLB: from the lenient reader
      whenever the GLB is non-empty or nothing follows it, and from the strict reader
      whenever there is at least one byte after the tables. */
  lemma {:induction false} ContainerRoundTrip(h: Header, tables: seq<Byte>, glb: seq<Byte>, trailing: seq<Byte>)
    requires h.Valid()
    requires |tables| == h.GlbOffset() - HeaderLength
    requires h.byteLength == h.GlbOffset() + |glb|
    ensures var data := EncodeHeader(h) + tables + glb + trailing;
      && (glb != [] || trailing == [] ==> ExtractGlbBytes(data) == Ok(glb))
      && (glb + trailing != [] ==> ExtractB3dmGlb(data) == Ok(glb))
  {
    var data := EncodeHeader(h) + tables + glb + trailing;
    ReadEncodedHeader(h, tables + glb + trailing);
    assert EncodeHeader(h) + (tables + glb + trailing) == data;
    var o := h.GlbOffset();
    assert data[o..o + |glb|] == glb;
    if glb == [] && trailing == [] {
      assert o == |data|;
    }
  }

  /** The version field (bytes 4..8) is read by two copies but validated by none: no
      reader's result depends on it. */
  lemma {:induction false} VersionIgnored(data: seq<Byte>, version: seq<Byte>)
    requires |data| >= HeaderLength && |version| == 4
    ensures var data' := data[..4] + version + data[8..];
      && ExtractGlbBytes(data') == ExtractGlbBytes(data)
      && ExtractB3dmGlb(data') == ExtractB3dmGlb(data)
  {
    var data' := data[..4] + version + data[8..];
    assert data'[..4] == data[..4];
    assert forall i :: 8 <= i < |data| ==> data'[i] == data[i];
    if data[..4] == Magic {
      SameFieldsAfterVersion(data, data');
      var h, h' := HeaderAt(data), HeaderAt(data');
      var o := h.GlbOffset();
      assert PySlice(data', o, LenientEnd(h', |data'|)) == PySlice(data, o, LenientEnd(h, |data|)) by {
        SameSliceAfterVersion(data, data', o, LenientEnd(h, |data|));
      }
      if o < |data| {
        var e := if h.byteLength <= |data| then h.byteLength else |data|;
        SameSliceAfterVersion(data, data', o, e);
      }
    }
  }

  lemma SameFieldsAfterVersion(data: seq<Byte>, data': seq<Byte>)
    requires |data| >= HeaderLength && |data'| == |data|
    requires forall i :: 8 <= i < |data| ==> data'[i] == data[i]
    ensures var h, h' := HeaderAt(data), HeaderAt(data');
      h'.byteLength == h.byteLength && h'.GlbOffset() == h.GlbOffset()
  {
    U32AtAfterVersion(data, data', 8);
    U32AtAfterVersion(data, data', 12);
    U32AtAfterVersion(data, data', 16);
    U32AtAfterVersion(data, data', 20);
    U32AtAfterVersion(data, data', 24);
  }

  lemma U32AtAfterVersion(data: seq<Byte>, data': seq<Byte>, off: nat)
    requires |data| >= HeaderLength && |data'| == |data| && 8 <= off <= 24
    requires forall i :: 8 <= i < |data| ==> data'[i] == data[i]
    ensures U32At(data', off) == U32At(data, off)
  {
    assert data'[off] == data[off] && data'[off + 1] == data[off + 1];
    assert data'[off + 2] == data[off + 2] && data'[off + 3] == data[off + 3];
  }

  lemma SameSliceAfterVersion(data: seq<Byte>, data': seq<Byte>, lo: nat, hi: nat)
    requires |data'| == |data| && 8 <= lo
    requires forall i :: 8 <= i < |data| ==> data'[i] == data[i]
    ensures PySlice(data', lo, hi) == PySlice(data, lo, hi)
  {
    var r, r' := PySlice(data, lo, hi), PySlice(data', lo, hi);
    assert |r| == |r'|;
    forall i | 0 <= i < |r| ensures r'[i] == r[i] {
      assert r'[i] == data'[lo + i] && r[i] == data[lo + i];
    }
  }

  /** Where the strict reader accepts, the two readers agree except when the declared
      byteLength is at or before the GLB offset: then the strict one yields nothing and the
      lenient one everything from the offset on. Where the strict one rejects the offset,
      the lenient one yields an empty payload. */
  lemma StrictAgreesWithLenient(data: seq<Byte>)
    ensures ExtractB3dmGlb(data).Ok? ==>
      && ExtractGlbBytes(data).Ok?
      && (ExtractB3dmGlb(data) == ExtractGlbBytes(data) <==>
          ReadHeader(data).value.byteLength > ReadHeader(data).value.GlbOffset())
    ensures ExtractB3dmGlb(data) == Err(OffsetBeyondEnd) ==> ExtractGlbBytes(data) == Ok([])
    ensures ExtractB3dmGlb(data).Err? && ExtractB3dmGlb(data).error != OffsetBeyondEnd ==>
      ExtractGlbBytes(data) == ExtractB3dmGlb(data)
  {
    if ExtractB3dmGlb(data).Ok? {
      var h := ReadHeader(data).value;
      if h.byteLength <= h.GlbOffset() {
        assert |ExtractGlbBytes(data).value| > 0;
      }
    }
  }
}
