/** One record from the client's cache to the server's memory and back: the row that packing yields,
    the request that carries it, and what the table dump decodes of it. */
module Pipeline {
  import opened Arith
  import opened Bytes
  import opened SeriUtils
  import opened Schema
  import opened SeHeap
  import opened Record

  // ---- The server unpacks a request ----

  // The record length the request claims lies within the request.
  predicate Unpackable(msg: seq<byte>) {
    12 <= |msg| && 12 + FromLE32(msg[8..12]) <= |msg|
  }

  function Payload(msg: seq<byte>): (s: seq<byte>)
    requires Unpackable(msg)
  {
    msg[12..12 + FromLE32(msg[8..12])]
  }

  // The insert case of RtSRInitExecCtxByOpCode; insertData is the block the allocator answers.
  method RtSRInitInsert(usrMsg: array<byte>)
    returns (dbId: uint32, labelId: uint32, totalFldSize: uint32, insertData: array<byte>)
    requires Unpackable(usrMsg[..])
    ensures fresh(insertData) && insertData[..] == Payload(usrMsg[..]) && totalFldSize == insertData.Length
    ensures (dbId, labelId) == (FromLE32(usrMsg[..][0..4]), FromLE32(usrMsg[..][4..8]))
  {
    assert usrMsg[8..12] == usrMsg[..][8..12];
    assert usrMsg[0..4] == usrMsg[..][0..4] && usrMsg[4..8] == usrMsg[..][4..8];
    var bufCursor;
    dbId, bufCursor := DeseriUint32M(usrMsg, 0);
    labelId, bufCursor := DeseriUint32M(usrMsg, bufCursor);
    totalFldSize, bufCursor := DeseriUint32M(usrMsg, bufCursor);
    insertData := new byte[totalFldSize](_ => 0);
    bufCursor := DeseriFixedStringM(usrMsg, bufCursor, insertData, totalFldSize);
    assert usrMsg[12..12 + totalFldSize] == usrMsg[..][12..12 + totalFldSize];
  }

  // ---- The dump reads a row ----

  // The value of a field can be read at this place: four bytes, or a string that ends in memory.
  predicate ValueReadable(page: seq<byte>, at: nat, fieldType: uint32) {
    && (fieldType == TYPE_INT32 ==> at + 4 <= |page|)
    && (fieldType == TYPE_STRING ==> at <= |page| && StrLen(page[at..]) < |page| - at)
  }

  function ValueAt(page: seq<byte>, at: nat, fieldType: uint32): (v: Value)
    requires Supported(fieldType) && ValueReadable(page, at, fieldType)
  {
    if fieldType == TYPE_INT32 then IntValue(FromLE32(page[at..at + 4])) else StrValue(CStr(page[at..]))
  }

  predicate RowReadable(page: seq<byte>, at: nat, properties: seq<SrProperty>) {
    forall j :: 0 <= j < |properties| ==> ValueReadable(page, at + properties[j].fldOffset, properties[j].fieldType)
  }

  // The cell printed for field i, if any; other types print nothing.
  function DumpedCell(page: seq<byte>, at: nat, properties: seq<SrProperty>, i: nat): (cell: seq<Value>)
    requires i < |properties| && RowReadable(page, at, properties)
  {
    var p := properties[i];
    if Supported(p.fieldType) then [ValueAt(page, at + p.fldOffset, p.fieldType)] else []
  }

  // The cells printed for the first n fields of the row at this place.
  function DumpedRow(page: seq<byte>, at: nat, properties: seq<SrProperty>, n: nat): (row: seq<Value>)
    requires n <= |properties| && RowReadable(page, at, properties)
  {
    if n == 0 then [] else DumpedRow(page, at, properties, n - 1) + DumpedCell(page, at, properties, n - 1)
  }

  // The fields it prints, in order: those of type 0 and 1.
  function PrintedFields(properties: seq<SrProperty>, n: nat): (fields: seq<nat>)
    requires n <= |properties|
    ensures forall j :: 0 <= j < |fields| ==> fields[j] < n
  {
    if n == 0 then []
    else if properties[n - 1].fieldType <= 1 then PrintedFields(properties, n - 1) + [n - 1]
    else PrintedFields(properties, n - 1)
  }

  // The cell for a field: an integer for type 0, a string for type 1, read at the field's offset.
  predicate CellIs(page: seq<byte>, at: nat, p: SrProperty, v: Value) {
    match p.fieldType
    case 0 => at + 4 <= |page| && v == IntValue(FromLE32(page[at..at + 4]))
    case 1 => at <= |page| && v == StrValue(CStr(page[at..]))
    case _ => false
  }

  // These cells are those of these fields.
  predicate CellsOf(page: seq<byte>, at: nat, properties: seq<SrProperty>, fields: seq<nat>, row: seq<Value>) {
    && |row| == |fields| && (forall j :: 0 <= j < |fields| ==> fields[j] < |properties|)
    && forall j :: 0 <= j < |row| ==> CellIs(page, at + properties[fields[j]].fldOffset, properties[fields[j]], row[j])
  }

  lemma CellsAppend(page: seq<byte>, at: nat, properties: seq<SrProperty>, fields: seq<nat>, row: seq<Value>, i: nat,
                    v: Value)
    requires CellsOf(page, at, properties, fields, row) && i < |properties|
    requires CellIs(page, at + properties[i].fldOffset, properties[i], v)
    ensures CellsOf(page, at, properties, fields + [i], row + [v])
  {
    hide CellIs;
  }

  // One cell for each of them.
  lemma {:induction false} OneCellEach(page: seq<byte>, at: nat, properties: seq<SrProperty>, n: nat)
    requires n <= |properties| && RowReadable(page, at, properties)
    ensures CellsOf(page, at, properties, PrintedFields(properties, n), DumpedRow(page, at, properties, n))
  {
    assert CellsOf(page, at, properties, [], []);
    hide CellsOf, DumpedCell, RowReadable;
    if n > 0 {
      OneCellEach(page, at, properties, n - 1);
      OneCellMore(page, at, properties, n - 1, PrintedFields(properties, n - 1),
                  DumpedRow(page, at, properties, n - 1));
    }
  }

  lemma OneCellMore(page: seq<byte>, at: nat, properties: seq<SrProperty>, i: nat, fields: seq<nat>, row: seq<Value>)
    requires i < |properties| && RowReadable(page, at, properties) && CellsOf(page, at, properties, fields, row)
    ensures CellsOf(page, at, properties, if properties[i].fieldType <= 1 then fields + [i] else fields,
                    row + DumpedCell(page, at, properties, i))
  {
    hide CellIs, DumpedCell, RowReadable;
    CellOf(page, at, properties, i);
    var cell := DumpedCell(page, at, properties, i);
    if properties[i].fieldType <= 1 {
      assert cell == [cell[0]];
      CellsAppend(page, at, properties, fields, row, i, cell[0]);
    } else {
      assert row + cell == row;
    }
  }

  lemma CellOf(page: seq<byte>, at: nat, properties: seq<SrProperty>, i: nat)
    requires i < |properties| && RowReadable(page, at, properties)
    ensures var p, cell := properties[i], DumpedCell(page, at, properties, i);
            if p.fieldType <= 1 then |cell| == 1 && CellIs(page, at + p.fldOffset, p, cell[0]) else cell == []
  {
    assert ValueReadable(page, at + properties[i].fldOffset, properties[i].fieldType);
  }

  method DmTraceRow(page: array<byte>, traceCursor: nat, properties: array<SrProperty>) returns (row: seq<Value>)
    requires RowReadable(page[..], traceCursor, properties[..])
    ensures row == DumpedRow(page[..], traceCursor, properties[..], properties.Length)
  {
    hide DumpedCell, RowReadable;
    row := [];
    for j := 0 to properties.Length
      invariant row == DumpedRow(page[..], traceCursor, properties[..], j)
    {
      var cell := DmTraceField(page, traceCursor, properties, j);
      row := row + cell;
    }
  }

  // What the loop prints for one field.
  method DmTraceField(page: array<byte>, traceCursor: nat, properties: array<SrProperty>, j: nat)
    returns (cell: seq<Value>)
    requires j < properties.Length && RowReadable(page[..], traceCursor, properties[..])
    ensures cell == DumpedCell(page[..], traceCursor, properties[..], j)
  {
    hide FromLE32, CStr;
    var p := properties[j];
    assert p == properties[..][j];
    var at := traceCursor + p.fldOffset;
    assert ValueReadable(page[..], at, p.fieldType);
    cell := [];
    if p.fieldType == TYPE_INT32 {
      assert page[at..at + 4] == page[..][at..at + 4];
      cell := [IntValue(FromLE32(page[at..at + 4]))];
    } else if p.fieldType == TYPE_STRING {
      assert page[at..] == page[..][at..];
      cell := [StrValue(CStr(page[at..]))];
    }
  }

  // The decoding walk of DmTraceTableRow over all rows.
  method DmTraceTableRow(heap: FixedHeap, properties: array<SrProperty>) returns (table: seq<seq<Value>>)
    requires HeapInv(heap.View())
    requires forall k :: 0 <= k < heap.rowCnt ==> RowReadable(heap.pageBegin[..], k * heap.rowSize, properties[..])
    ensures |table| == heap.rowCnt
    ensures forall k :: 0 <= k < |table| ==>
              table[k] == DumpedRow(heap.pageBegin[..], k * heap.rowSize, properties[..], properties.Length)
  {
    hide DumpedRow, RowReadable, HeapInv;
    table := [];
    var traceCursor := 0;
    for i := 0 to heap.rowCnt
      invariant |table| == i && traceCursor == i * heap.rowSize
      invariant forall k :: 0 <= k < i ==>
                  table[k] == DumpedRow(heap.pageBegin[..], k * heap.rowSize, properties[..], properties.Length)
    {
      var row := DmTraceRow(heap.pageBegin, traceCursor, properties);
      table := table + [row];
      MulStep(i, heap.rowSize);
      traceCursor := traceCursor + heap.rowSize;
    }
  }

  // ---- The row a record becomes ----

  // The client takes the argument for the field.  A string may be longer than its field, and an integer
  // field shorter than an integer.
  predicate Takes(f: Field, v: Value) {
    Admissible(f.fieldType, v)
  }

  predicate AllTaken(fields: seq<Field>, values: seq<Value>) {
    |fields| == |values| && forall j :: 0 <= j < |fields| ==> Takes(fields[j], values[j])
  }

  // The image of argument j covers byte b of the record.
  predicate Covers(fields: seq<Field>, values: seq<Value>, j: nat, b: nat)
    requires j < |fields| == |values|
  {
    Offset(fields, j) <= b < Offset(fields, j) + |Image(values[j])|
  }

  // Byte b after the first n arguments are copied in order into cleared memory: a byte of the last image
  // that covers it.
  function PackedByte(fields: seq<Field>, values: seq<Value>, n: nat, b: nat): (x: byte)
    requires n <= |fields| == |values|
  {
    if n == 0 then 0
    else if Covers(fields, values, n - 1, b) then Image(values[n - 1])[b - Offset(fields, n - 1)]
    else PackedByte(fields, values, n - 1, b)
  }

  ghost function RowBytes(fields: seq<Field>, values: seq<Value>): (s: seq<byte>)
    requires |fields| == |values|
    ensures |s| == Total(fields)
    ensures forall b :: 0 <= b < |s| ==> s[b] == PackedByte(fields, values, |fields|, b)
  {
    seq(Total(fields), b requires 0 <= b => PackedByte(fields, values, |fields|, b))
  }

  // ---- Records whose arguments fit their fields ----

  // At least four bytes for an integer, and a string no longer than its field.
  predicate Holds(f: Field, v: Value) {
    Takes(f, v) && (if v.IntValue? then 4 <= f.fieldSize else |v.s| <= f.fieldSize)
  }

  predicate AllHold(fields: seq<Field>, values: seq<Value>) {
    |fields| == |values| && forall j :: 0 <= j < |fields| ==> Holds(fields[j], values[j])
  }

  // The image of the argument, padded with zeros to the field's size.
  function FieldRow(f: Field, v: Value): (s: seq<byte>)
    requires Holds(f, v)
    ensures |s| == f.fieldSize
    ensures forall b :: 0 <= b < |s| ==> s[b] == if b < |Image(v)| then Image(v)[b] else 0
  {
    Image(v) + Zeros(f.fieldSize - |Image(v)|)
  }

  // Images that fit cover nothing behind their fields.
  lemma {:induction false} PackedByteBehind(fields: seq<Field>, values: seq<Value>, n: nat, b: nat)
    requires AllHold(fields, values) && n <= |fields| && Offset(fields, n) <= b
    ensures PackedByte(fields, values, n, b) == 0
  {
    if n > 0 {
      OffsetStep(fields, n - 1);
      ImageFits(fields[n - 1], values[n - 1]);
      PackedByteBehind(fields, values, n - 1, b);
    }
  }

  lemma ImageFits(f: Field, v: Value)
    requires Holds(f, v)
    ensures |Image(v)| <= f.fieldSize
  {
  }

  lemma {:induction false} PackedByteIn(fields: seq<Field>, values: seq<Value>, n: nat, i: nat, b: nat)
    requires AllHold(fields, values) && i < n <= |fields| && b < fields[i].fieldSize
    ensures PackedByte(fields, values, n, Offset(fields, i) + b) == FieldRow(fields[i], values[i])[b]
    decreases n
  {
    hide Holds, FieldRow;
    if i < n - 1 {
      OffsetsGrow(fields, i, n - 1);
      PackedByteIn(fields, values, n - 1, i, b);
    } else if |Image(values[i])| <= b {
      PackedByteBehind(fields, values, i, Offset(fields, i) + b);
    }
  }

  // Field i of the row is the image of its argument, padded with zeros.
  lemma {:induction false} RowFieldAt(fields: seq<Field>, values: seq<Value>, i: nat)
    requires AllHold(fields, values) && i < |fields|
    ensures Offset(fields, i) + fields[i].fieldSize <= Total(fields)
    ensures RowBytes(fields, values)[Offset(fields, i)..Offset(fields, i) + fields[i].fieldSize]
            == FieldRow(fields[i], values[i])
  {
    hide FieldRow, PackedByte, Holds;
    RowFieldEnds(fields, i + 1);
    OffsetStep(fields, i);
    var row, at := RowBytes(fields, values), Offset(fields, i);
    forall b | 0 <= b < fields[i].fieldSize
      ensures row[at..at + fields[i].fieldSize][b] == FieldRow(fields[i], values[i])[b]
    {
      PackedByteIn(fields, values, |fields|, i, b);
    }
  }

  // ---- Packing yields that row ----

  // The client's record of a field agrees with the server's.
  predicate Agrees(f: Field, p: CliProperty) {
    p.fldType == f.fieldType && p.fldSize == f.fieldSize && CacheOk(p)
  }

  ghost predicate SchemaAgrees(fields: seq<Field>, props: seq<CliProperty>) {
    |fields| == |props| && forall j :: 0 <= j < |fields| ==> Agrees(fields[j], props[j])
  }

  // The client's cursor displacement before each field is the server's offset of that field, and the
  // lengths they derive for a whole record are equal.
  lemma {:induction false} LayoutsAgree(fields: seq<Field>, props: seq<CliProperty>, n: nat)
    requires SchemaAgrees(fields, props) && n <= |fields|
    ensures Displacement(props, n) == Offset(fields, n)
  {
    if n == 0 {
      assert fields[..0] == [];
    } else {
      LayoutsAgree(fields, props, n - 1);
      OffsetStep(fields, n - 1);
      assert Agrees(fields[n - 1], props[n - 1]);
    }
  }

  // The server's 32-bit offset of a field is where the client's cursor put it exactly when the
  // fields before it take less than 4 GB.
  lemma {:induction false} OffsetsAgreeIff(fields: seq<Field>, props: seq<CliProperty>, i: nat)
    requires SchemaAgrees(fields, props) && i < |fields|
    ensures Displacement(props, i) == PropertyAt(fields, i).fldOffset <==> Total(fields[..i]) < TWO_TO_THE_32
    ensures Displacement(props, |props|) % TWO_TO_THE_32 == Total(fields) % TWO_TO_THE_32
  {
    LayoutsAgree(fields, props, i);
    LayoutsAgree(fields, props, |fields|);
    OffsetEnd(fields);
    WrapsIff(Offset(fields, i));
  }

  // The images of the values are what is cached.
  ghost predicate Cache(props: seq<CliProperty>, values: seq<Value>) {
    |props| == |values| && forall j :: 0 <= j < |props| ==> CStr(props[j].value) == Image(values[j])
  }

  // The image of argument j ends within the request buffer.
  predicate ImageInRequest(fields: seq<Field>, values: seq<Value>, j: nat)
    requires j < |fields| == |values|
  {
    12 + Offset(fields, j) + |Image(values[j])| <= 1024
  }

  // The client takes the record, and copying it does not leave the request buffer.
  predicate RowFits(fields: seq<Field>, values: seq<Value>) {
    && AllTaken(fields, values)
    && 12 + Total(fields) <= 1024
    && forall j :: 0 <= j < |fields| ==> ImageInRequest(fields, values, j)
  }

  // As is so when every argument fits its field and the record fits the buffer.
  lemma {:induction false} HoldingRowFits(fields: seq<Field>, values: seq<Value>)
    requires AllHold(fields, values) && 12 + Total(fields) <= 1024
    ensures RowFits(fields, values)
  {
    forall j | 0 <= j < |fields|
      ensures Takes(fields[j], values[j]) && ImageInRequest(fields, values, j)
    {
      ImageFits(fields[j], values[j]);
      OffsetStep(fields, j);
      RowFieldEnds(fields, j + 1);
    }
  }

  lemma {:induction false} RowHasRoom(fields: seq<Field>, props: seq<CliProperty>, values: seq<Value>)
    requires RowFits(fields, values) && SchemaAgrees(fields, props) && Cache(props, values)
    ensures Room(BUF_SIZE, 12, props, |props|)
  {
    forall j | 0 <= j < |props|
      ensures RoomAt(BUF_SIZE, 12, props, j)
    {
      LayoutsAgree(fields, props, j);
      assert CStr(props[j].value) == Image(values[j]) && ImageInRequest(fields, values, j);
    }
  }

  // What is copied leaves the bytes before the record alone.
  lemma {:induction false} PackedBefore(buf: seq<byte>, at: nat, props: seq<CliProperty>, n: nat)
    requires n <= |props| && at <= |buf| && Room(|buf|, at, props, n)
    ensures Packed(buf, at, props, n)[..at] == buf[..at]
  {
    if n > 0 {
      assert RoomAt(|buf|, at, props, n - 1);
      PackedBefore(buf, at, props, n - 1);
      SliceBefore(Packed(buf, at, props, n - 1), at + Displacement(props, n - 1), CStr(props[n - 1].value), 0, at);
    }
  }

  lemma {:induction false} PackedBytes(buf: seq<byte>, at: nat, fields: seq<Field>, props: seq<CliProperty>,
                                       values: seq<Value>, n: nat, b: nat)
    requires |fields| == |values| && SchemaAgrees(fields, props) && Cache(props, values) && n <= |fields|
    requires Room(|buf|, at, props, n) && at + b < |buf| && buf[at + b] == 0
    ensures Packed(buf, at, props, n)[at + b] == PackedByte(fields, values, n, b)
    decreases n
  {
    if n > 0 {
      var i := n - 1;
      assert RoomAt(|buf|, at, props, i) && CStr(props[i].value) == Image(values[i]);
      LayoutsAgree(fields, props, i);
      PackedBytes(buf, at, fields, props, values, i, b);
      CopiedByte(Packed(buf, at, props, i), at, fields, values, i, b);
    }
  }

  lemma {:induction false} CopiedByte(buf: seq<byte>, at: nat, fields: seq<Field>, values: seq<Value>, i: nat, b: nat)
    requires i < |fields| == |values| && at + Offset(fields, i) + |Image(values[i])| <= |buf| && at + b < |buf|
    requires buf[at + b] == PackedByte(fields, values, i, b)
    ensures Splice(buf, at + Offset(fields, i), Image(values[i]))[at + b] == PackedByte(fields, values, i + 1, b)
  {
    hide Image, Splice, Offset;
  }

  predicate Cleared(buf: seq<byte>, from: nat, end: nat)
    requires end <= |buf|
  {
    forall k :: from <= k < end ==> buf[k] == 0
  }

  // Copying the cached values through strlen into cleared memory yields the row.
  lemma {:induction false} PackedIsRow(buf: seq<byte>, at: nat, fields: seq<Field>, props: seq<CliProperty>,
                                       values: seq<Value>)
    requires |fields| == |values| && SchemaAgrees(fields, props) && Cache(props, values)
    requires Room(|buf|, at, props, |props|) && at + Total(fields) <= |buf| && Cleared(buf, at, at + Total(fields))
    ensures Packed(buf, at, props, |props|)[at..at + Total(fields)] == RowBytes(fields, values)
    ensures Packed(buf, at, props, |props|)[..at] == buf[..at]
  {
    hide Packed, PackedByte, Room, Cache;
    PackedBefore(buf, at, props, |props|);
    var packed := Packed(buf, at, props, |props|);
    forall b | 0 <= b < Total(fields)
      ensures packed[at..at + Total(fields)][b] == RowBytes(fields, values)[b]
    {
      PackedBytes(buf, at, fields, props, values, |fields|, b);
    }
  }

  lemma {:induction false} RowFieldEnds(fields: seq<Field>, n: nat)
    requires n <= |fields|
    ensures Offset(fields, n) <= Total(fields)
  {
    OffsetEnd(fields);
    if n < |fields| {
      OffsetsGrow(fields, n, |fields|);
    }
  }

  // ---- The request the server receives ----

  // What the client sends is what the server needs: the ids, a length equal to the row size, and the row.
  lemma {:induction false} MessageCarriesRow(dbId: uint32, labelId: uint32, fields: seq<Field>, props: seq<CliProperty>,
                                             values: seq<Value>)
    requires RowFits(fields, values) && SchemaAgrees(fields, props) && Cache(props, values)
    ensures Room(BUF_SIZE, 12, props, |props|)
    ensures var msg := Message(dbId, labelId, props);
            && Unpackable(msg)
            && FromLE32(msg[0..4]) == dbId && FromLE32(msg[4..8]) == labelId && FromLE32(msg[8..12]) == Total(fields)
            && Payload(msg) == RowBytes(fields, values)
  {
    assert |fields| == |props| == |values|;
    hide Room, RowBytes, Packed, SchemaAgrees, Cache, FromLE32, LE32, Header;
    RowHasRoom(fields, props, values);
    LayoutsAgree(fields, props, |fields|);
    OffsetEnd(fields);
    WrapsIff(Total(fields));
    var header := Header(dbId, labelId, Total(fields));
    var start := Splice(Zeros(BUF_SIZE), 0, header);
    var msg := Message(dbId, labelId, props);
    assert msg == Packed(start, 12, props, |props|);
    PackedIsRow(start, 12, fields, props, values);
    assert start[..12] == header;
    HeaderReads(msg, dbId, labelId, Total(fields));
  }

  // Reading a header off the start of a message.
  lemma HeaderReads(msg: seq<byte>, dbId: uint32, labelId: uint32, totalLen: uint32)
    requires 12 <= |msg| && msg[..12] == Header(dbId, labelId, totalLen)
    ensures FromLE32(msg[0..4]) == dbId && FromLE32(msg[4..8]) == labelId && FromLE32(msg[8..12]) == totalLen
  {
    hide FromLE32, LE32;
    var a, b, c := LE32(dbId), LE32(labelId), LE32(totalLen);
    SplitSlice(msg, 0, a + b, c);
    SplitSlice(msg, 0, a, b);
    LE32RoundTrip(dbId);
    LE32RoundTrip(labelId);
    LE32RoundTrip(totalLen);
  }

  // ---- Decoding ----

  // What the dump shows for a value: integers lose everything from their first zero byte on.
  function Shown(v: Value): (r: Value) {
    match v
    case IntValue(n) => IntValue(Surviving(n))
    case StrValue(_) => v
  }

  function ShownRow(values: seq<Value>): (r: seq<Value>)
    ensures |r| == |values|
  {
    seq(|values|, j requires 0 <= j < |values| => Shown(values[j]))
  }

  predicate DenseValue(v: Value) {
    v.IntValue? ==> Dense(v.v)
  }

  predicate AllDense(values: seq<Value>) {
    forall j :: 0 <= j < |values| ==> DenseValue(values[j])
  }

  // A string that fills its field has a NUL right behind the field.
  predicate Ends(page: seq<byte>, at: nat, f: Field, v: Value) {
    v.StrValue? && |v.s| == f.fieldSize ==> at + f.fieldSize < |page| && page[at + f.fieldSize] == 0
  }

  // Decoding a field of this type here gives v.
  predicate Reads(page: seq<byte>, at: nat, fieldType: uint32, v: Value) {
    Supported(fieldType) && ValueReadable(page, at, fieldType) && ValueAt(page, at, fieldType) == v
  }

  // Reading a C string gives back the one stored in n bytes if and only if a NUL follows it.
  lemma StringReadsIff(page: seq<byte>, at: nat, n: nat, t: CString)
    requires |t| <= n && at + n <= |page| && page[at..at + n] == t + Zeros(n - |t|)
    ensures StrLen(page[at..]) < |page| - at && CStr(page[at..]) == t
            <==> (|t| == n ==> at + n < |page| && page[at + n] == 0)
  {
    var u := page[at..];
    forall k | 0 <= k < n
      ensures u[k] == (t + Zeros(n - |t|))[k]
    {
      assert page[at..at + n][k] == u[k];
    }
    assert u[..|t|] == t;
    if |t| < n || (at + n < |page| && page[at + n] == 0) {
      StrLenIs(u, |t|);
    } else if StrLen(u) < |u| {
      assert |CStr(u)| == StrLen(u);
    }
  }

  // A field shows its value, integers cut at their first zero byte, if and only if it ends; it shows
  // exactly what was inserted if and only if, besides, an integer has no zero byte below a nonzero one.
  lemma FieldReadsIff(page: seq<byte>, at: nat, f: Field, v: Value)
    requires Holds(f, v) && at + f.fieldSize <= |page|
    requires page[at..at + f.fieldSize] == FieldRow(f, v)
    ensures Reads(page, at, f.fieldType, Shown(v)) <==> Ends(page, at, f, v)
    ensures Reads(page, at, f.fieldType, v) <==> Ends(page, at, f, v) && DenseValue(v)
  {
    match v {
      case IntValue(n) =>
        hide CStr, LE32, FromLE32;
        SliceOfSlice(page, at, FieldRow(f, v), 0, 4);
        IntegerStart(f, n);
        SurvivingBytes(n);
        SurvivesIffDense(n);
      case StrValue(t) =>
        StringReadsIff(page, at, f.fieldSize, t);
    }
  }

  // The first four bytes of an integer's field.
  lemma IntegerStart(f: Field, n: uint32)
    requires Holds(f, IntValue(n))
    ensures FieldRow(f, IntValue(n))[0..4] == CStr(LE32(n)) + Zeros(4 - NonzeroRun(n))
  {
  }

  ghost function Properties(fields: seq<Field>): (properties: seq<SrProperty>)
    ensures |properties| == |fields|
  {
    seq(|fields|, i requires 0 <= i < |fields| => PropertyAt(fields, i))
  }

  // Every field of the row at this place decodes to its entry of xs.
  predicate RowReads(page: seq<byte>, at: nat, fields: seq<Field>, xs: seq<Value>) {
    |xs| == |fields|
    && forall j :: 0 <= j < |fields| ==> Reads(page, at + Offset(fields, j), fields[j].fieldType, xs[j])
  }

  predicate RowEnds(page: seq<byte>, at: nat, fields: seq<Field>, values: seq<Value>)
    requires |values| == |fields|
  {
    forall j :: 0 <= j < |fields| ==> Ends(page, at + Offset(fields, j), fields[j], values[j])
  }

  lemma {:induction false} FieldOfRowReadsIff(page: seq<byte>, at: nat, fields: seq<Field>, values: seq<Value>, j: nat)
    requires AllHold(fields, values) && at + Total(fields) <= |page| && j < |fields|
    requires page[at..at + Total(fields)] == RowBytes(fields, values)
    ensures var here := at + Offset(fields, j);
            && (Reads(page, here, fields[j].fieldType, Shown(values[j])) <==> Ends(page, here, fields[j], values[j]))
            && (Reads(page, here, fields[j].fieldType, values[j])
                <==> Ends(page, here, fields[j], values[j]) && DenseValue(values[j]))
  {
    hide FieldRow, RowBytes, Shown, Reads, Ends, Dense, Holds;
    RowFieldAt(fields, values, j);
    SliceOfSlice(page, at, RowBytes(fields, values), Offset(fields, j), Offset(fields, j) + fields[j].fieldSize);
    FieldReadsIff(page, at + Offset(fields, j), fields[j], values[j]);
  }

  // The same for a whole row.
  lemma {:induction false} RowReadsIff(page: seq<byte>, at: nat, fields: seq<Field>, values: seq<Value>)
    requires AllHold(fields, values) && at + Total(fields) <= |page|
    requires page[at..at + Total(fields)] == RowBytes(fields, values)
    ensures RowReads(page, at, fields, ShownRow(values)) <==> RowEnds(page, at, fields, values)
    ensures RowReads(page, at, fields, values) <==> RowEnds(page, at, fields, values) && AllDense(values)
  {
    hide RowBytes, Reads, Ends, Shown, DenseValue;
    forall j | 0 <= j < |fields|
      ensures var here := at + Offset(fields, j);
              && (Reads(page, here, fields[j].fieldType, ShownRow(values)[j])
                  <==> Ends(page, here, fields[j], values[j]))
              && (Reads(page, here, fields[j].fieldType, values[j])
                  <==> Ends(page, here, fields[j], values[j]) && DenseValue(values[j]))
    {
      FieldOfRowReadsIff(page, at, fields, values, j);
    }
  }

  // What the fields of a record from the i-th on start with: a NUL, a character, or nothing because all
  // of them have size zero.
  datatype Lead = Nul | Character | Nothing

  function Leads(fields: seq<Field>, values: seq<Value>, i: nat): (lead: Lead)
    requires i <= |fields| == |values|
    decreases |fields| - i
  {
    if i == |fields| then Nothing
    else if fields[i].fieldSize == 0 then Leads(fields, values, i + 1)
    else if Image(values[i]) == [] then Nul
    else Character
  }

  lemma {:induction false} LeadsIs(fields: seq<Field>, values: seq<Value>, i: nat)
    requires AllHold(fields, values) && i <= |fields|
    ensures Leads(fields, values, i) == Nothing <==> Offset(fields, i) == Total(fields)
    ensures Leads(fields, values, i) != Nothing ==>
              && Offset(fields, i) < Total(fields)
              && (RowBytes(fields, values)[Offset(fields, i)] == 0 <==> Leads(fields, values, i) == Nul)
    decreases |fields| - i
  {
    hide RowBytes, Holds;
    OffsetEnd(fields);
    if i < |fields| {
      OffsetStep(fields, i);
      if fields[i].fieldSize == 0 {
        LeadsIs(fields, values, i + 1);
      } else {
        RowFieldAt(fields, values, i);
        var at := Offset(fields, i);
        assert RowBytes(fields, values)[at..at + fields[i].fieldSize][0] == RowBytes(fields, values)[at];
        FieldStart(fields[i], values[i]);
      }
    }
  }

  lemma FieldStart(f: Field, v: Value)
    requires Holds(f, v) && 1 <= f.fieldSize
    ensures FieldRow(f, v)[0] == 0 <==> Image(v) == []
  {
    assert Image(v) != [] ==> FieldRow(f, v)[0] == Image(v)[0];
  }

  // A string that fills its field, with bytes of its own row behind it, ends if and only if the next
  // field of nonzero size gets an empty image: an empty string, or an integer whose lowest byte is zero.
  lemma {:induction false} FullStringEndsIff(page: seq<byte>, at: nat, fields: seq<Field>, values: seq<Value>, j: nat)
    requires AllHold(fields, values) && at + Total(fields) <= |page| && j < |fields|
    requires page[at..at + Total(fields)] == RowBytes(fields, values)
    requires values[j].StrValue? && |values[j].s| == fields[j].fieldSize && Leads(fields, values, j + 1) != Nothing
    ensures Ends(page, at + Offset(fields, j), fields[j], values[j]) <==> Leads(fields, values, j + 1) == Nul
  {
    hide RowBytes, Holds, Leads;
    OffsetStep(fields, j);
    LeadsIs(fields, values, j + 1);
    assert page[at..at + Total(fields)][Offset(fields, j + 1)] == page[at + Offset(fields, j + 1)];
  }

  // ---- The dump of a row ----

  // The dump can read the row at this place and prints these values.
  ghost predicate Dumps(page: seq<byte>, at: nat, fields: seq<Field>, xs: seq<Value>) {
    RowReadable(page, at, Properties(fields)) && DumpedRow(page, at, Properties(fields), |fields|) == xs
  }

  // The dump finds the fields where they are: offsets below 4 GB are recorded as they are.
  lemma {:induction false} PropertyOffset(fields: seq<Field>, j: nat)
    requires j < |fields| && Total(fields) < TWO_TO_THE_32
    ensures Properties(fields)[j].fldOffset == Offset(fields, j)
    ensures Properties(fields)[j].fieldType == fields[j].fieldType
  {
    RowFieldEnds(fields, j);
    WrapsIff(Offset(fields, j));
  }

  lemma {:induction false} DumpedRowAt(page: seq<byte>, at: nat, properties: seq<SrProperty>, n: nat)
    requires n <= |properties| && RowReadable(page, at, properties)
    requires forall j :: 0 <= j < |properties| ==> Supported(properties[j].fieldType)
    ensures |DumpedRow(page, at, properties, n)| == n
    ensures forall j :: 0 <= j < n ==>
              Reads(page, at + properties[j].fldOffset, properties[j].fieldType, DumpedRow(page, at, properties, n)[j])
  {
    hide Reads, DumpedCell, RowReadable, Supported;
    if n > 0 {
      DumpedRowAt(page, at, properties, n - 1);
      assert Supported(properties[n - 1].fieldType);
      CellReads(page, at, properties, n - 1);
    }
  }

  lemma CellReads(page: seq<byte>, at: nat, properties: seq<SrProperty>, i: nat)
    requires i < |properties| && RowReadable(page, at, properties) && Supported(properties[i].fieldType)
    ensures |DumpedCell(page, at, properties, i)| == 1
    ensures Reads(page, at + properties[i].fldOffset, properties[i].fieldType, DumpedCell(page, at, properties, i)[0])
  {
    assert ValueReadable(page, at + properties[i].fldOffset, properties[i].fieldType);
  }

  // Reading gives one value.
  lemma ReadsOne(page: seq<byte>, at: nat, fieldType: uint32, v: Value, w: Value)
    requires Reads(page, at, fieldType, v) && Reads(page, at, fieldType, w)
    ensures v == w
  {
  }

  lemma {:induction false} DumpsIff(page: seq<byte>, at: nat, fields: seq<Field>, xs: seq<Value>)
    requires Total(fields) < TWO_TO_THE_32 && |xs| == |fields|
    requires forall j :: 0 <= j < |fields| ==> Supported(fields[j].fieldType)
    ensures Dumps(page, at, fields, xs) <==> RowReads(page, at, fields, xs)
  {
    hide Reads, DumpedRow, Supported, ValueReadable, Offset;
    var properties := Properties(fields);
    forall j | 0 <= j < |fields|
      ensures properties[j].fldOffset == Offset(fields, j) && properties[j].fieldType == fields[j].fieldType
    {
      PropertyOffset(fields, j);
    }
    if RowReads(page, at, fields, xs) {
      ReadRowReadable(page, at, properties, xs);
    }
    if RowReadable(page, at, properties) {
      DumpedRowAt(page, at, properties, |fields|);
      var row := DumpedRow(page, at, properties, |fields|);
      if RowReads(page, at, fields, xs) {
        forall j | 0 <= j < |fields|
          ensures row[j] == xs[j]
        {
          ReadsOne(page, at + Offset(fields, j), fields[j].fieldType, row[j], xs[j]);
        }
      }
    }
  }

  lemma ReadRowReadable(page: seq<byte>, at: nat, properties: seq<SrProperty>, xs: seq<Value>)
    requires |properties| == |xs|
    requires forall j :: 0 <= j < |xs| ==> Reads(page, at + properties[j].fldOffset, properties[j].fieldType, xs[j])
    ensures RowReadable(page, at, properties)
  {
    forall j | 0 <= j < |properties|
      ensures ValueReadable(page, at + properties[j].fldOffset, properties[j].fieldType)
    {
      assert Reads(page, at + properties[j].fldOffset, properties[j].fieldType, xs[j]);
    }
  }

  // What the dump shows of a row wherever it lies: the values, integers cut at their first zero byte, if
  // and only if strings that fill their fields end; exactly what was inserted if and only if, besides, no
  // integer has a zero byte below a nonzero one.
  lemma {:induction false} RowReadsBack(page: seq<byte>, at: nat, fields: seq<Field>, values: seq<Value>)
    requires AllHold(fields, values) && Total(fields) < TWO_TO_THE_32 && at + Total(fields) <= |page|
    requires page[at..at + Total(fields)] == RowBytes(fields, values)
    ensures Dumps(page, at, fields, ShownRow(values)) <==> RowEnds(page, at, fields, values)
    ensures Dumps(page, at, fields, values) <==> RowEnds(page, at, fields, values) && AllDense(values)
  {
    hide RowBytes, Dumps, RowReads, RowEnds, AllDense, Shown;
    assert forall j :: 0 <= j < |fields| ==> Holds(fields[j], values[j]) && Supported(fields[j].fieldType);
    RowReadsIff(page, at, fields, values);
    DumpsIff(page, at, fields, ShownRow(values));
    DumpsIff(page, at, fields, values);
  }
}
