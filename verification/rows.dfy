/** The two count-prefixed decoders: DataRow ('D'), a row of nullable column
    values, and RowDescription ('T'), the descriptors of a row's columns.
    These are `dataRow` and `rowDescription` of lib/message_parser.js. */
module Rows {
  import opened Results
  import opened Bytes
  import opened Messages

  /** The number of entries an Int16 count announces; a negative count runs
      the parser's loop zero times. */
  function Count(n: int): nat {
    if n < 0 then 0 else n
  }

  // ---------------------------------------------------------------- DataRow

  /** The value bytes of one column; a null column has none. */
  function ValueBytes(v: Option<bytes>): bytes {
    match v
    case None => []
    case Some(x) => x
  }

  /** One column: an Int32 length L, then L value bytes when L >= 0, or no
      bytes and a null value when L is negative. Returns the value and the
      bytes after it. */
  function DecodeColumn(s: bytes): (r: Result<(Option<bytes>, bytes)>)
    ensures r.Err? ==> r.error == Malformed
    ensures r.Ok? ==> 4 <= |s| && s == s[..4] + ValueBytes(r.value.0) + r.value.1
    ensures r.Ok? ==> (r.value.0.None? <==> Int32(s, 0) < 0)
    ensures r.Ok? && r.value.0.Some? ==> |r.value.0.value| == Int32(s, 0)
    ensures r.Err? <==> |s| < 4 || |s| - 4 < Int32(s, 0)
  {
    if |s| < 4 then Err(Malformed)
    else
      var len := Int32(s, 0);
      if len >= 0 then
        if |s| - 4 < len then Err(Malformed)
        else
          assert s == s[..4] + s[4 .. 4 + len] + s[4 + len..];
          Ok((Some(s[4 .. 4 + len]), s[4 + len..]))
      else
        assert s == s[..4] + [] + s[4..];
        Ok((None, s[4..]))
  }

  /** `count` columns in wire order. */
  function DecodeColumns(s: bytes, count: nat): (r: Result<seq<Option<bytes>>>)
    ensures r.Err? ==> r.error == Malformed
    ensures r.Ok? ==> |r.value| == count
    decreases count
  {
    if count == 0 then Ok([])
    else
      var (v, rest) :- DecodeColumn(s);
      var vs :- DecodeColumns(rest, count - 1);
      Ok([v] + vs)
  }

  /** DataRow ('D'): an Int16 column count, then that many columns. */
  function DecodeDataRow(d: bytes): (r: Result<Message>)
    ensures r.Err? ==> r.error == Malformed
    ensures |d| < 2 ==> r == Err(Malformed)
    ensures r.Ok? ==> r.value.DataRow? && |r.value.rowValue| == Count(Int16(d, 0))
  {
    if |d| < 2 then Err(Malformed)
    else
      var values :- DecodeColumns(d[2..], Count(Int16(d, 0)));
      Ok(DataRow(values))
  }

  /** The wire form of one column; null is sent as length -1. */
  function EncodeColumn(v: Option<bytes>): bytes {
    match v
    case None => BE32(-1)
    case Some(x) => BE32(|x|) + x
  }

  function EncodeColumns(vs: seq<Option<bytes>>): bytes {
    if |vs| == 0 then [] else EncodeColumn(vs[0]) + EncodeColumns(vs[1..])
  }

  /** The payload of a DataRow holding `vs`. */
  function EncodeDataRow(vs: seq<Option<bytes>>): bytes {
    BE16(|vs|) + EncodeColumns(vs)
  }

  /** A row whose column count and value lengths fit their wire fields. */
  predicate EncodableRow(vs: seq<Option<bytes>>) {
    && |vs| < TWO_15
    && forall i :: 0 <= i < |vs| && vs[i].Some? ==> |vs[i].value| < TWO_31
  }

  /** One encoded column is read back, and the walk continues right after
      its value bytes. */
  lemma ColumnRoundTrip(v: Option<bytes>, rest: bytes)
    requires v.Some? ==> |v.value| < TWO_31
    ensures DecodeColumn(EncodeColumn(v) + rest) == Ok((v, rest))
  {
    match v
    case None =>
      Int32OfBE32(-1, rest);
    case Some(x) =>
      Int32OfBE32(|x|, x + rest);
      var s := EncodeColumn(v) + rest;
      assert s == BE32(|x|) + (x + rest);
      assert s[4 .. 4 + |x|] == x;
      assert s[4 + |x|..] == rest;
  }

  lemma {:induction false} ColumnsRoundTrip(vs: seq<Option<bytes>>, rest: bytes)
    requires forall i :: 0 <= i < |vs| && vs[i].Some? ==> |vs[i].value| < TWO_31
    ensures DecodeColumns(EncodeColumns(vs) + rest, |vs|) == Ok(vs)
    decreases |vs|
  {
    if |vs| > 0 {
      var tail := EncodeColumns(vs[1..]) + rest;
      assert EncodeColumns(vs) + rest == EncodeColumn(vs[0]) + tail;
      ColumnRoundTrip(vs[0], tail);
      ColumnsRoundTrip(vs[1..], rest);
      assert [vs[0]] + vs[1..] == vs;
    }
  }

  /** Encoding a row and decoding the payload gives the row back: the same
      number of columns, in wire order, each value or null exactly. Bytes
      after the last column are not read. */
  lemma DataRowRoundTrip(vs: seq<Option<bytes>>, rest: bytes)
    requires EncodableRow(vs)
    ensures DecodeDataRow(EncodeDataRow(vs) + rest) == Ok(DataRow(vs))
  {
    var d := EncodeDataRow(vs) + rest;
    Int16OfBE16(|vs|, EncodeColumns(vs) + rest);
    assert d == BE16(|vs|) + (EncodeColumns(vs) + rest);
    assert d[2..] == EncodeColumns(vs) + rest;
    ColumnsRoundTrip(vs, rest);
  }

  /** Every negative length, not only -1, reads as null and consumes no value
      bytes. */
  lemma NegativeLengthIsNull(len: int, s: bytes, count: nat)
    requires IsInt32(len) && len < 0
    ensures DecodeColumns(BE32(len) + s, count + 1)
         == match DecodeColumns(s, count)
            case Ok(vs) => Ok([None] + vs)
            case Err(e) => Err(e)
  {
    Int32OfBE32(len, s);
    assert (BE32(len) + s)[4..] == s;
  }

  /** The row ["a", null, "bcd"] survives encoding and decoding. */
  lemma DataRowExample()
    ensures DecodeDataRow(EncodeDataRow([Some([0x61]), None, Some([0x62, 0x63, 0x64])]))
         == Ok(DataRow([Some([0x61]), None, Some([0x62, 0x63, 0x64])]))
  {
    var vs: seq<Option<bytes>> := [Some([0x61]), None, Some([0x62, 0x63, 0x64])];
    DataRowRoundTrip(vs, []);
    assert EncodeDataRow(vs) + [] == EncodeDataRow(vs);
  }

  // --------------------------------------------------------- RowDescription

  /** Bytes taken by one descriptor after its name's NUL: three Int32 and
      three Int16 fields. */
  const DESCRIPTOR_FIXED_SIZE: nat := 18

  /** A descriptor whose name has no NUL and whose numbers fit their signed
      wire widths. */
  predicate WellFormedDescriptor(f: FieldDescriptor) {
    && NulFree(f.fieldName)
    && IsInt32(f.parentTableObjectId)
    && IsInt16(f.attributeNumber)
    && IsInt32(f.dataTypeObjectId)
    && IsInt16(f.dataTypeSize)
    && IsInt32(f.typeModifier)
    && IsInt16(f.formatCode)
  }

  /** The six numbers of a descriptor as they follow its name. */
  function FixedFields(f: FieldDescriptor): (r: bytes)
    ensures |r| == DESCRIPTOR_FIXED_SIZE
  {
    BE32(f.parentTableObjectId) + (BE16(f.attributeNumber)
      + (BE32(f.dataTypeObjectId) + (BE16(f.dataTypeSize)
      + (BE32(f.typeModifier) + BE16(f.formatCode)))))
  }

  /** The wire form of one descriptor. */
  function EncodeDescriptor(f: FieldDescriptor): (r: bytes)
    ensures |r| == |f.fieldName| + 1 + DESCRIPTOR_FIXED_SIZE
  {
    f.fieldName + [0] + FixedFields(f)
  }

  /** One descriptor: the name runs to the first NUL, then the six numbers
      follow it directly. A name without a NUL, or numbers running past the
      payload, is Malformed. The descriptor read is exactly the wire form of
      the bytes it consumed: |name| + 19 of them. */
  function DecodeDescriptor(s: bytes): (r: Result<(FieldDescriptor, bytes)>)
    ensures r.Err? ==> r.error == Malformed
    ensures r.Ok? ==> WellFormedDescriptor(r.value.0)
    ensures r.Ok? ==> s == EncodeDescriptor(r.value.0) + r.value.1
    ensures NulFree(s) ==> r == Err(Malformed)
  {
    FindNulSpec(s, 0);
    match FindNul(s, 0)
    case None => Err(Malformed)
    case Some(j) =>
      if |s| < j + 1 + DESCRIPTOR_FIXED_SIZE then Err(Malformed)
      else
        var f := FieldDescriptor(
          s[..j],
          Int32(s, j + 1), Int16(s, j + 5),
          Int32(s, j + 7), Int16(s, j + 11),
          Int32(s, j + 13), Int16(s, j + 17));
        DescriptorBytes(s, j);
        Ok((f, s[j + 1 + DESCRIPTOR_FIXED_SIZE..]))
  }

  /** The bytes of a descriptor whose name ends at j are the wire form of
      what is read from them. */
  lemma DescriptorBytes(s: bytes, j: nat)
    requires j + 1 + DESCRIPTOR_FIXED_SIZE <= |s| && s[j] == 0
    requires forall k :: 0 <= k < j ==> s[k] != 0
    ensures
      var f := FieldDescriptor(
        s[..j],
        Int32(s, j + 1), Int16(s, j + 5),
        Int32(s, j + 7), Int16(s, j + 11),
        Int32(s, j + 13), Int16(s, j + 17));
      s == EncodeDescriptor(f) + s[j + 1 + DESCRIPTOR_FIXED_SIZE..]
  {
    BE32OfInt32(s, j + 1);
    BE16OfInt16(s, j + 5);
    BE32OfInt32(s, j + 7);
    BE16OfInt16(s, j + 11);
    BE32OfInt32(s, j + 13);
    BE16OfInt16(s, j + 17);
    assert s == s[..j] + [0]
      + (s[j + 1 .. j + 5] + (s[j + 5 .. j + 7]
      + (s[j + 7 .. j + 11] + (s[j + 11 .. j + 13]
      + (s[j + 13 .. j + 17] + s[j + 17 .. j + 19])))))
      + s[j + 19..];
  }

  /** `count` descriptors in wire order. */
  function DecodeDescriptors(s: bytes, count: nat): (r: Result<seq<FieldDescriptor>>)
    ensures r.Err? ==> r.error == Malformed
    ensures r.Ok? ==> |r.value| == count
    decreases count
  {
    if count == 0 then Ok([])
    else
      var (f, rest) :- DecodeDescriptor(s);
      var fs :- DecodeDescriptors(rest, count - 1);
      Ok([f] + fs)
  }

  /** RowDescription ('T'): an Int16 field count, then that many
      descriptors. */
  function DecodeRowDescription(d: bytes): (r: Result<Message>)
    ensures r.Err? ==> r.error == Malformed
    ensures |d| < 2 ==> r == Err(Malformed)
    ensures r.Ok? ==> r.value.RowDescription? && |r.value.rowDescription| == Count(Int16(d, 0))
  {
    if |d| < 2 then Err(Malformed)
    else
      var fields :- DecodeDescriptors(d[2..], Count(Int16(d, 0)));
      Ok(RowDescription(fields))
  }

  function EncodeDescriptors(fs: seq<FieldDescriptor>): bytes {
    if |fs| == 0 then [] else EncodeDescriptor(fs[0]) + EncodeDescriptors(fs[1..])
  }

  /** The payload of a RowDescription holding `fs`. */
  function EncodeRowDescription(fs: seq<FieldDescriptor>): bytes {
    BE16(|fs|) + EncodeDescriptors(fs)
  }

  /** The six numbers are read back from their wire form at their offsets
      after the name's NUL. */
  lemma FixedFieldsRoundTrip(f: FieldDescriptor, rest: bytes)
    requires WellFormedDescriptor(f)
    ensures
      var t := FixedFields(f) + rest;
      && Int32(t, 0) == f.parentTableObjectId
      && Int16(t, 4) == f.attributeNumber
      && Int32(t, 6) == f.dataTypeObjectId
      && Int16(t, 10) == f.dataTypeSize
      && Int32(t, 12) == f.typeModifier
      && Int16(t, 16) == f.formatCode
  {
    var t5 := BE16(f.formatCode) + rest;
    var t4 := BE32(f.typeModifier) + t5;
    var t3 := BE16(f.dataTypeSize) + t4;
    var t2 := BE32(f.dataTypeObjectId) + t3;
    var t1 := BE16(f.attributeNumber) + t2;
    var t := BE32(f.parentTableObjectId) + t1;
    assert t == FixedFields(f) + rest;
    Int16OfBE16(f.formatCode, rest);
    Int32OfBE32(f.typeModifier, t5);
    Int16Shift(BE32(f.typeModifier), t5, 0);
    Int16OfBE16(f.dataTypeSize, t4);
    Int32Shift(BE16(f.dataTypeSize), t4, 0);
    Int16Shift(BE16(f.dataTypeSize), t4, 4);
    Int32OfBE32(f.dataTypeObjectId, t3);
    Int16Shift(BE32(f.dataTypeObjectId), t3, 0);
    Int32Shift(BE32(f.dataTypeObjectId), t3, 2);
    Int16Shift(BE32(f.dataTypeObjectId), t3, 6);
    Int16OfBE16(f.attributeNumber, t2);
    Int32Shift(BE16(f.attributeNumber), t2, 0);
    Int16Shift(BE16(f.attributeNumber), t2, 4);
    Int32Shift(BE16(f.attributeNumber), t2, 6);
    Int16Shift(BE16(f.attributeNumber), t2, 10);
    Int32OfBE32(f.parentTableObjectId, t1);
    Int16Shift(BE32(f.parentTableObjectId), t1, 0);
    Int32Shift(BE32(f.parentTableObjectId), t1, 2);
    Int16Shift(BE32(f.parentTableObjectId), t1, 6);
    Int32Shift(BE32(f.parentTableObjectId), t1, 8);
    Int16Shift(BE32(f.parentTableObjectId), t1, 12);
  }

  /** One encoded descriptor is read back, with every number at its signed
      width, and the walk continues right after it. */
  lemma DescriptorRoundTrip(f: FieldDescriptor, rest: bytes)
    requires WellFormedDescriptor(f)
    ensures DecodeDescriptor(EncodeDescriptor(f) + rest) == Ok((f, rest))
  {
    var n := |f.fieldName|;
    var p := f.fieldName + [0];
    var t := FixedFields(f) + rest;
    var s := p + t;
    assert s == EncodeDescriptor(f) + rest;
    FindNulOfTerminated(f.fieldName, t);
    assert s[..n] == f.fieldName;
    assert s[n + 1 + DESCRIPTOR_FIXED_SIZE..] == rest;
    FixedFieldsRoundTrip(f, rest);
    Int32Shift(p, t, 0);
    Int16Shift(p, t, 4);
    Int32Shift(p, t, 6);
    Int16Shift(p, t, 10);
    Int32Shift(p, t, 12);
    Int16Shift(p, t, 16);
  }

  lemma {:induction false} DescriptorsRoundTrip(fs: seq<FieldDescriptor>, rest: bytes)
    requires forall i :: 0 <= i < |fs| ==> WellFormedDescriptor(fs[i])
    ensures DecodeDescriptors(EncodeDescriptors(fs) + rest, |fs|) == Ok(fs)
    decreases |fs|
  {
    if |fs| > 0 {
      var tail := EncodeDescriptors(fs[1..]) + rest;
      assert EncodeDescriptors(fs) + rest == EncodeDescriptor(fs[0]) + tail;
      DescriptorRoundTrip(fs[0], tail);
      DescriptorsRoundTrip(fs[1..], rest);
      assert [fs[0]] + fs[1..] == fs;
    }
  }

  /** Encoding descriptors and decoding the payload gives them back, in
      order, with every name and number verbatim. */
  lemma RowDescriptionRoundTrip(fs: seq<FieldDescriptor>, rest: bytes)
    requires |fs| < TWO_15
    requires forall i :: 0 <= i < |fs| ==> WellFormedDescriptor(fs[i])
    ensures DecodeRowDescription(EncodeRowDescription(fs) + rest) == Ok(RowDescription(fs))
  {
    var d := EncodeRowDescription(fs) + rest;
    Int16OfBE16(|fs|, EncodeDescriptors(fs) + rest);
    assert d == BE16(|fs|) + (EncodeDescriptors(fs) + rest);
    assert d[2..] == EncodeDescriptors(fs) + rest;
    DescriptorsRoundTrip(fs, rest);
  }
}
