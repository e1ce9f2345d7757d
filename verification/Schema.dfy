/** How a table's fields are laid out by the server, described on the wire, and rebuilt by the
    client. */
module Schema {
  import opened Bytes
  import opened SeriUtils

  const BUF_SIZE: nat := 1024
  const SR_LABEL_MAX_FILED_CNT: nat := 30
  const SR_FIELD_NAME_MAX_LENGTH: nat := 64
  const SR_FIELD_VALUE_MAX_LENGTH: nat := 64

  // FiledTypeT: signed and unsigned integers share one code.
  const TYPE_INT32: uint32 := 0
  const TYPE_UINT32: uint32 := 0
  const TYPE_STRING: uint32 := 1

  // A field of a create-table request, after parsing.
  datatype Field = Field(name: CString, fieldType: uint32, fieldSize: uint32)

  // The server's record of a field.
  datatype SrProperty = SrProperty(fieldName: CString, fieldType: uint32, fieldSize: uint32, fldOffset: uint32)

  // The client's record of a field, with the buffer that caches its value between inserts.
  datatype CliProperty = CliProperty(fldType: uint32, fldSize: uint32, value: seq<byte>, fldName: seq<byte>)

  // ---- Layout ----

  // Bytes taken by the fields, as a mathematical sum.
  function Total(fields: seq<Field>): (n: nat) {
    if fields == [] then 0 else Total(fields[..|fields| - 1]) + fields[|fields| - 1].fieldSize
  }

  // Start of field i in a row.
  function Offset(fields: seq<Field>, i: nat): (n: nat)
    requires i <= |fields|
  {
    Total(fields[..i])
  }

  lemma OffsetStep(fields: seq<Field>, i: nat)
    requires i < |fields|
    ensures Offset(fields, i + 1) == Offset(fields, i) + fields[i].fieldSize
  {
    assert fields[..i + 1][..i] == fields[..i];
  }

  lemma {:induction false} OffsetsGrow(fields: seq<Field>, i: nat, j: nat)
    requires i < j <= |fields|
    ensures Offset(fields, i) + fields[i].fieldSize <= Offset(fields, j)
    decreases j
  {
    OffsetStep(fields, j - 1);
    if i < j - 1 {
      OffsetsGrow(fields, i, j - 1);
    }
  }

  // Offset of the whole list is its total.
  lemma {:induction false} OffsetEnd(fields: seq<Field>)
    ensures Offset(fields, |fields|) == Total(fields)
  {
    assert fields[..|fields|] == fields;
  }

  // The field that holds byte b of a row.
  lemma {:induction false} ByteHasField(fields: seq<Field>, n: nat, b: nat) returns (i: nat)
    requires n <= |fields| && b < Offset(fields, n)
    ensures i < n && Offset(fields, i) <= b < Offset(fields, i) + fields[i].fieldSize
    decreases n
  {
    OffsetStep(fields, n - 1);
    if b < Offset(fields, n - 1) {
      i := ByteHasField(fields, n - 1, b);
    } else {
      i := n - 1;
    }
  }

  predicate InField(fields: seq<Field>, i: nat, b: nat) {
    i < |fields| && Offset(fields, i) <= b < Offset(fields, i) + fields[i].fieldSize
  }

  // The field intervals tile [0, Total): every byte of a row lies in exactly one, no other byte in any.
  lemma {:induction false} FieldsTileRow(fields: seq<Field>, b: nat)
    ensures b < Total(fields) <==> exists i :: InField(fields, i, b)
    ensures forall i, j :: InField(fields, i, b) && InField(fields, j, b) ==> i == j
  {
    OffsetEnd(fields);
    if b < Total(fields) {
      var i := ByteHasField(fields, |fields|, b);
      assert InField(fields, i, b);
    }
    forall i, j | InField(fields, i, b) && InField(fields, j, b)
      ensures i == j && b < Total(fields)
    {
      if i < j {
        OffsetsGrow(fields, i, j);
      } else if j < i {
        OffsetsGrow(fields, j, i);
      }
      OffsetsGrow(fields, i, |fields|);
    }
  }

  // The server's record of field i: offsets are 32-bit sums.
  function PropertyAt(fields: seq<Field>, i: nat): (p: SrProperty)
    requires i < |fields|
  {
    SrProperty(fields[i].name, fields[i].fieldType, fields[i].fieldSize, Offset(fields, i) % TWO_TO_THE_32)
  }

  // The layout part of DMSrCreateTable.
  method LayOutFields(fields: seq<Field>) returns (properties: array<SrProperty>, rowSize: uint32)
    ensures fresh(properties) && properties.Length == |fields|
    ensures forall i :: 0 <= i < |fields| ==> properties[i] == PropertyAt(fields, i)
    ensures rowSize == Total(fields) % TWO_TO_THE_32
  {
    properties := new SrProperty[|fields|](_ => SrProperty([], 0, 0, 0));
    var fldOffset: uint32 := 0;
    for i := 0 to |fields|
      invariant fldOffset == Offset(fields, i) % TWO_TO_THE_32
      invariant forall j :: 0 <= j < i ==> properties[j] == PropertyAt(fields, j)
    {
      properties[i] := SrProperty(fields[i].name, fields[i].fieldType, fields[i].fieldSize, fldOffset);
      OffsetStep(fields, i);
      fldOffset := (fldOffset as int + fields[i].fieldSize) % TWO_TO_THE_32;
    }
    OffsetEnd(fields);
    rowSize := fldOffset;
  }

  // ---- Description on the wire ----

  ghost predicate Named(fields: seq<Field>) {
    forall i :: 0 <= i < |fields| ==> |fields[i].name| < TWO_TO_THE_32
  }

  function FieldBytes(f: Field): (s: seq<byte>)
    requires |f.name| < TWO_TO_THE_32
    ensures |s| == 12 + |f.name|
  {
    StringBytes(f.name) + LE32(f.fieldType) + LE32(f.fieldSize)
  }

  // On the wire a field is the length of its name, the name without its NUL, type and size.
  lemma FieldOnWire(f: Field)
    requires |f.name| < TWO_TO_THE_32
    ensures var b, n := FieldBytes(f), |f.name|;
            && FromLE32(b[0..4]) == n && b[4..4 + n] == f.name
            && FromLE32(b[4 + n..8 + n]) == f.fieldType && FromLE32(b[8 + n..12 + n]) == f.fieldSize
  {
    hide LE32, FromLE32, FieldBytes;
    FieldBytesParts(f);
    LE32RoundTrip(|f.name|);
    LE32RoundTrip(f.fieldType);
    LE32RoundTrip(f.fieldSize);
  }

  ghost function FieldPieces(fields: seq<Field>): (pieces: seq<seq<byte>>)
    requires Named(fields)
    ensures |pieces| == |fields| && forall i :: 0 <= i < |fields| ==> pieces[i] == FieldBytes(fields[i])
  {
    seq(|fields|, i requires 0 <= i < |fields| => FieldBytes(fields[i]))
  }

  ghost function FieldsBytes(fields: seq<Field>): (s: seq<byte>)
    requires Named(fields)
  {
    Join(FieldPieces(fields))
  }

  lemma FieldPiecesFront(fields: seq<Field>, n: nat)
    requires Named(fields) && n <= |fields|
    ensures FieldPieces(fields)[..n] == FieldPieces(fields[..n])
  {
  }

  // A description ends with that of the last field.
  lemma FieldsBytesStep(fields: seq<Field>, n: nat)
    requires Named(fields) && |fields| == n + 1
    ensures FieldsBytes(fields) == FieldsBytes(fields[..n]) + FieldBytes(fields[n])
  {
    FieldPiecesFront(fields, n);
  }

  // The description of a table: field count, then each field's name, type and size.
  ghost function TableBytes(fields: seq<Field>): (s: seq<byte>)
    requires Named(fields) && |fields| < TWO_TO_THE_32
  {
    LE32(|fields|) + FieldsBytes(fields)
  }

  function NameTotal(fields: seq<Field>): (n: nat) {
    if fields == [] then 0 else NameTotal(fields[..|fields| - 1]) + |fields[|fields| - 1].name|
  }

  lemma {:induction false} FieldsBytesLength(fields: seq<Field>)
    requires Named(fields)
    ensures |FieldsBytes(fields)| == 12 * |fields| + NameTotal(fields)
  {
    if fields != [] {
      var n := |fields| - 1;
      FieldsBytesLength(fields[..n]);
      FieldsBytesStep(fields, n);
    }
  }

  lemma {:induction false} NameTotalBound(fields: seq<Field>, m: nat)
    requires forall i :: 0 <= i < |fields| ==> |fields[i].name| <= m
    ensures NameTotal(fields) <= |fields| * m
  {
    if fields != [] {
      NameTotalBound(fields[..|fields| - 1], m);
      assert |fields| * m == (|fields| - 1) * m + m;
    }
  }

  // Any table of at most 30 fields whose names have at most 22 bytes fits the reply.
  lemma DescriptionFits(fields: seq<Field>)
    requires |fields| <= 30
    requires forall i :: 0 <= i < |fields| ==> |fields[i].name| <= 22
    ensures Named(fields) && |TableBytes(fields)| <= 1024
  {
    FieldsBytesLength(fields);
    NameTotalBound(fields, 22);
  }

  // 22 is the largest such bound: a table of 30 fields with 23-byte names does not fit.
  lemma {:induction false} NameTotalExact(fields: seq<Field>, m: nat)
    requires forall i :: 0 <= i < |fields| ==> |fields[i].name| == m
    ensures NameTotal(fields) == |fields| * m
  {
    if fields != [] {
      NameTotalExact(fields[..|fields| - 1], m);
      assert |fields| * m == (|fields| - 1) * m + m;
    }
  }

  lemma LongerNamesOverflow(m: nat)
    requires 22 < m <= 62
    ensures exists fields: seq<Field> ::
              && |fields| == 30 && Named(fields)
              && (forall i :: 0 <= i < |fields| ==> |fields[i].name| == m)
              && 1024 < |TableBytes(fields)|
  {
    var name: CString := seq(m, _ => 1);
    var fields := seq(SR_LABEL_MAX_FILED_CNT, _ => Field(name, TYPE_INT32, 4));
    FieldsBytesLength(fields);
    NameTotalExact(fields, m);
    assert |TableBytes(fields)| == 4 + 12 * 30 + 30 * m;
  }

  function Described(properties: seq<SrProperty>): (fields: seq<Field>)
    ensures |fields| == |properties|
    ensures forall i :: 0 <= i < |fields| ==>
              fields[i] == Field(properties[i].fieldName, properties[i].fieldType, properties[i].fieldSize)
  {
    seq(|properties|, i requires 0 <= i < |properties| =>
      Field(properties[i].fieldName, properties[i].fieldType, properties[i].fieldSize))
  }

  // Name, type and size of one field.
  method SeriField(buf: array<byte>, bufCursor: nat, property: SrProperty) returns (next: nat)
    requires |property.fieldName| < TWO_TO_THE_32 && bufCursor + 12 + |property.fieldName| <= buf.Length
    modifies buf
    ensures buf[..] == Splice(old(buf[..]), bufCursor,
                              FieldBytes(Field(property.fieldName, property.fieldType, property.fieldSize)))
    ensures next == bufCursor + 12 + |property.fieldName|
  {
    ghost var start := buf[..];
    var name := StringBytes(property.fieldName);
    next := SeriStringM(buf, bufCursor, property.fieldName);
    next := SeriUint32M(buf, next, property.fieldType);
    SpliceTwice(start, bufCursor, name, LE32(property.fieldType));
    next := SeriUint32M(buf, next, property.fieldSize);
    SpliceTwice(start, bufCursor, name + LE32(property.fieldType), LE32(property.fieldSize));
  }

  method RtSeriTable(buf: array<byte>, bufCursor: nat, properties: array<SrProperty>, currLabelFldCnt: uint32)
    returns (next: nat)
    requires currLabelFldCnt == properties.Length && Named(Described(properties[..]))
    requires bufCursor + |TableBytes(Described(properties[..]))| <= buf.Length
    modifies buf
    ensures buf[..] == Splice(old(buf[..]), bufCursor, TableBytes(Described(properties[..])))
    ensures next == bufCursor + |TableBytes(Described(properties[..]))|
  {
    ghost var fields := Described(properties[..]);
    ghost var start := old(buf[..]);
    next := SeriUint32M(buf, bufCursor, currLabelFldCnt);
    WireUpToEnds(fields);
    for i := 0 to currLabelFldCnt
      invariant next == bufCursor + |WireUpTo(fields, i)| <= buf.Length
      invariant buf[..] == Splice(start, bufCursor, WireUpTo(fields, i))
    {
      WireUpToStep(fields, i);
      assert fields[i] == Field(properties[i].fieldName, properties[i].fieldType, properties[i].fieldSize);
      next := SeriField(buf, next, properties[i]);
      SpliceTwice(start, bufCursor, WireUpTo(fields, i), FieldBytes(fields[i]));
    }
  }

  // The description up to field i.
  ghost function WireUpTo(fields: seq<Field>, i: nat): (s: seq<byte>)
    requires Named(fields) && i <= |fields| < TWO_TO_THE_32
  {
    LE32(|fields|) + FieldsBytes(fields[..i])
  }

  lemma WireUpToEnds(fields: seq<Field>)
    requires Named(fields) && |fields| < TWO_TO_THE_32
    ensures WireUpTo(fields, 0) == LE32(|fields|) && WireUpTo(fields, |fields|) == TableBytes(fields)
  {
    assert fields[..0] == [];
    assert fields[..|fields|] == fields;
  }

  lemma WireUpToStep(fields: seq<Field>, i: nat)
    requires Named(fields) && i < |fields| < TWO_TO_THE_32
    ensures WireUpTo(fields, i + 1) == WireUpTo(fields, i) + FieldBytes(fields[i])
    ensures |WireUpTo(fields, i + 1)| <= |TableBytes(fields)|
  {
    PrefixFits(fields, i);
  }

  // One more field extends the description by its own bytes and stays within the whole.
  lemma PrefixFits(fields: seq<Field>, i: nat)
    requires Named(fields) && i < |fields|
    ensures FieldsBytes(fields[..i + 1]) == FieldsBytes(fields[..i]) + FieldBytes(fields[i])
    ensures |FieldsBytes(fields[..i])| + 12 + |fields[i].name| <= |FieldsBytes(fields)|
  {
    assert fields[..i + 1][..i] == fields[..i];
    FieldsBytesStep(fields[..i + 1], i);
    FieldPiecesFront(fields, i);
    JoinAt(FieldPieces(fields), i, FieldsBytes(fields[..i]), FieldBytes(fields[i]), FieldsBytes(fields));
  }

  // ---- The client's half ----

  // A field description can be read at this cursor without leaving the buffers involved.
  predicate FieldReadable(buf: seq<byte>, cur: nat) {
    && cur + 4 <= |buf|
    && var n := FromLE32(buf[cur..cur + 4]);
       n <= SR_FIELD_NAME_MAX_LENGTH && cur + 12 + n <= |buf|
  }

  // The client's record of the field described at cur, and the cursor after it.
  function FieldAt(buf: seq<byte>, cur: nat): (r: (CliProperty, nat))
    requires FieldReadable(buf, cur)
  {
    var n := FromLE32(buf[cur..cur + 4]);
    (CliProperty(FromLE32(buf[cur + 4 + n..cur + 8 + n]), FromLE32(buf[cur + 8 + n..cur + 12 + n]),
                 Zeros(SR_FIELD_VALUE_MAX_LENGTH),
                 Splice(Zeros(SR_FIELD_NAME_MAX_LENGTH), 0, buf[cur + 4..cur + 4 + n])),
     cur + 12 + n)
  }

  // The first n field descriptions from cur on can be read.
  ghost predicate Readable(buf: seq<byte>, cur: nat, n: nat)
    decreases n, 0
  {
    n == 0 || (Readable(buf, cur, n - 1) && FieldReadable(buf, ReadFields(buf, cur, n - 1).1))
  }

  ghost function ReadFields(buf: seq<byte>, cur: nat, n: nat): (r: (seq<CliProperty>, nat))
    requires Readable(buf, cur, n)
    ensures |r.0| == n
    decreases n, 1
  {
    if n == 0 then ([], cur)
    else
      var (properties, at) := ReadFields(buf, cur, n - 1);
      var (property, next) := FieldAt(buf, at);
      (properties + [property], next)
  }

  // The client's cached schema; the property array is part of the C struct.
  class CliTableSchema {
    var dbId: uint32
    var labelId: uint32
    var propertyCnt: uint32
    const properties: array<CliProperty>

    constructor (dbId: uint32, labelId: uint32, propertyCnt: uint32)
      ensures this.dbId == dbId && this.labelId == labelId && this.propertyCnt == propertyCnt
      ensures fresh(properties) && properties.Length == SR_LABEL_MAX_FILED_CNT
    {
      this.dbId, this.labelId, this.propertyCnt := dbId, labelId, propertyCnt;
      var cleared := CliProperty(0, 0, Zeros(SR_FIELD_VALUE_MAX_LENGTH), Zeros(SR_FIELD_NAME_MAX_LENGTH));
      properties := new CliProperty[SR_LABEL_MAX_FILED_CNT](_ => cleared);
    }
  }

  method SrParseField(buf: array<byte>, bufCursor: nat, properties: array<CliProperty>, i: nat) returns (next: nat)
    requires FieldReadable(buf[..], bufCursor) && i < properties.Length
    modifies properties
    ensures properties[..] == old(properties[..])[i := FieldAt(buf[..], bufCursor).0]
    ensures next == FieldAt(buf[..], bufCursor).1
  {
    ghost var bytes := buf[..];
    assert buf[bufCursor..bufCursor + 4] == bytes[bufCursor..bufCursor + 4];
    var fldName, kind, size;
    fldName, next := DeseriStringM(buf, bufCursor, Zeros(SR_FIELD_NAME_MAX_LENGTH));
    assert buf[bufCursor + 4..next] == bytes[bufCursor + 4..next];
    assert buf[next..next + 4] == bytes[next..next + 4];
    kind, next := DeseriUint32M(buf, next);
    assert buf[next..next + 4] == bytes[next..next + 4];
    size, next := DeseriUint32M(buf, next);
    properties[i] := CliProperty(kind, size, Zeros(SR_FIELD_VALUE_MAX_LENGTH), fldName);
  }

  method SrParseTable(dbId: uint32, labelId: uint32, buf: array<byte>, bufCursor: nat)
    returns (tblSchema: CliTableSchema, next: nat)
    requires bufCursor + 4 <= buf.Length
    requires var fldNum := FromLE32(buf[bufCursor..bufCursor + 4]);
             0 < fldNum <= SR_LABEL_MAX_FILED_CNT && Readable(buf[..], bufCursor + 4, fldNum)
    ensures fresh(tblSchema) && fresh(tblSchema.properties) && tblSchema.properties.Length == SR_LABEL_MAX_FILED_CNT
    ensures tblSchema.dbId == dbId && tblSchema.labelId == labelId
    ensures tblSchema.propertyCnt == FromLE32(buf[bufCursor..bufCursor + 4]) <= SR_LABEL_MAX_FILED_CNT
    ensures (tblSchema.properties[..tblSchema.propertyCnt], next)
            == ReadFields(buf[..], bufCursor + 4, tblSchema.propertyCnt)
  {
    var fldNum, cur := DeseriUint32M(buf, bufCursor);
    tblSchema := new CliTableSchema(dbId, labelId, fldNum);
    next := SrParseFields(buf, cur, fldNum, tblSchema.properties);
  }

  // The loop of SrParseTable.
  method SrParseFields(buf: array<byte>, bufCursor: nat, fldNum: uint32, properties: array<CliProperty>)
    returns (next: nat)
    requires fldNum <= properties.Length && Readable(buf[..], bufCursor, fldNum)
    modifies properties
    ensures (properties[..fldNum], next) == ReadFields(buf[..], bufCursor, fldNum)
  {
    hide FieldReadable, FieldAt, FromLE32, Readable;
    ghost var parsed := ReadFields(buf[..], bufCursor, fldNum).0;
    ghost var cursors := ReadTrace(buf[..], bufCursor, fldNum);
    next := bufCursor;
    for i := 0 to fldNum
      invariant next == cursors[i]
      invariant forall j :: 0 <= j < i ==> properties[j] == parsed[j]
    {
      assert ReadsAt(buf[..], cursors, parsed, i);
      next := SrParseField(buf, next, properties, i);
    }
    assert properties[..fldNum] == parsed;
  }

  // The i-th field is read at cursor i and leaves the cursor at position i + 1 of the list.
  ghost predicate ReadsAt(buf: seq<byte>, cursors: seq<nat>, parsed: seq<CliProperty>, i: nat) {
    && i < |parsed| && i + 1 < |cursors| && FieldReadable(buf, cursors[i])
    && FieldAt(buf, cursors[i]) == (parsed[i], cursors[i + 1])
  }

  // The cursors at which the fields are read.
  lemma {:induction false} ReadTrace(buf: seq<byte>, cur: nat, n: nat) returns (cursors: seq<nat>)
    requires Readable(buf, cur, n)
    ensures |cursors| == n + 1 && cursors[0] == cur && cursors[n] == ReadFields(buf, cur, n).1
    ensures forall i :: 0 <= i < n ==> ReadsAt(buf, cursors, ReadFields(buf, cur, n).0, i)
    decreases n
  {
    if n == 0 {
      cursors := [cur];
    } else {
      var before := ReadTrace(buf, cur, n - 1);
      var (front, at) := ReadFields(buf, cur, n - 1);
      var (parsed, next) := ReadFields(buf, cur, n);
      cursors := before + [next];
      assert parsed == front + [FieldAt(buf, at).0];
      forall i | 0 <= i < n
        ensures ReadsAt(buf, cursors, parsed, i)
      {
        if i < n - 1 {
          assert ReadsAt(buf, before, front, i);
        }
      }
    }
  }

  // ---- Round trip ----

  ghost predicate ShortNames(fields: seq<Field>) {
    forall i :: 0 <= i < |fields| ==> |fields[i].name| <= 64
  }

  // What the client should have cached for a field it has not inserted into yet.
  function ClientView(f: Field): (p: CliProperty)
    requires |f.name| <= SR_FIELD_NAME_MAX_LENGTH
    ensures |p.fldName| == |p.value| == 64 && p.fldName[..|f.name|] == f.name
    ensures (forall k :: |f.name| <= k < 64 ==> p.fldName[k] == 0) && forall k :: 0 <= k < 64 ==> p.value[k] == 0
  {
    CliProperty(f.fieldType, f.fieldSize, Zeros(SR_FIELD_VALUE_MAX_LENGTH),
                f.name + Zeros(SR_FIELD_NAME_MAX_LENGTH - |f.name|))
  }

  // The parts of a field's description.
  lemma FieldBytesParts(f: Field)
    requires |f.name| < TWO_TO_THE_32
    ensures var n, s := |f.name|, FieldBytes(f);
            && s[0..4] == LE32(n) && s[4..4 + n] == f.name
            && s[4 + n..8 + n] == LE32(f.fieldType) && s[8 + n..12 + n] == LE32(f.fieldSize)
  {
  }

  // What is read where those parts stand.
  lemma PartsRead(buf: seq<byte>, cur: nat, f: Field)
    requires |f.name| <= SR_FIELD_NAME_MAX_LENGTH && cur + 12 + |f.name| <= |buf|
    requires buf[cur..cur + 4] == LE32(|f.name|) && buf[cur + 4..cur + 4 + |f.name|] == f.name
    requires buf[cur + 4 + |f.name|..cur + 8 + |f.name|] == LE32(f.fieldType)
    requires buf[cur + 8 + |f.name|..cur + 12 + |f.name|] == LE32(f.fieldSize)
    ensures FieldReadable(buf, cur) && FieldAt(buf, cur) == (ClientView(f), cur + 12 + |f.name|)
  {
    LE32RoundTrip(|f.name|);
    LE32RoundTrip(f.fieldType);
    LE32RoundTrip(f.fieldSize);
    assert Splice(Zeros(SR_FIELD_NAME_MAX_LENGTH), 0, f.name) == f.name + Zeros(SR_FIELD_NAME_MAX_LENGTH - |f.name|);
  }

  lemma FieldAtReadsFieldBytes(buf: seq<byte>, cur: nat, f: Field)
    requires |f.name| <= SR_FIELD_NAME_MAX_LENGTH && cur + 12 + |f.name| <= |buf|
    requires buf[cur..cur + 12 + |f.name|] == FieldBytes(f)
    ensures FieldReadable(buf, cur) && FieldAt(buf, cur) == (ClientView(f), cur + 12 + |f.name|)
  {
    var n, s := |f.name|, FieldBytes(f);
    FieldBytesParts(f);
    SliceOfSlice(buf, cur, s, 0, 4);
    SliceOfSlice(buf, cur, s, 4, 4 + n);
    SliceOfSlice(buf, cur, s, 4 + n, 8 + n);
    SliceOfSlice(buf, cur, s, 8 + n, 12 + n);
    PartsRead(buf, cur, f);
  }

  ghost function ClientViews(fields: seq<Field>): (properties: seq<CliProperty>)
    requires ShortNames(fields)
    ensures |properties| == |fields|
    ensures forall i :: 0 <= i < |fields| ==> properties[i] == ClientView(fields[i])
  {
    seq(|fields|, i requires 0 <= i < |fields| => ClientView(fields[i]))
  }

  lemma ReadOneMore(buf: seq<byte>, cur: nat, n: nat, front: seq<CliProperty>, at: nat, p: CliProperty, next: nat)
    requires Readable(buf, cur, n) && ReadFields(buf, cur, n) == (front, at)
    requires FieldReadable(buf, at) && FieldAt(buf, at) == (p, next)
    ensures Readable(buf, cur, n + 1) && ReadFields(buf, cur, n + 1) == (front + [p], next)
  {
  }

  lemma ClientViewsStep(fields: seq<Field>, n: nat)
    requires ShortNames(fields) && |fields| == n + 1
    ensures ClientViews(fields) == ClientViews(fields[..n]) + [ClientView(fields[n])]
  {
  }

  // Parsing a description gives back the described fields, in order, and stops where it ends.
  lemma {:induction false} ReadFieldsInvertsFieldsBytes(buf: seq<byte>, cur: nat, fields: seq<Field>)
    requires ShortNames(fields) && cur + |FieldsBytes(fields)| <= |buf|
    requires buf[cur..cur + |FieldsBytes(fields)|] == FieldsBytes(fields)
    ensures Readable(buf, cur, |fields|)
    ensures ReadFields(buf, cur, |fields|) == (ClientViews(fields), cur + |FieldsBytes(fields)|)
  {
    hide FieldReadable, FieldAt, FieldBytes, ClientView, ClientViews;
    if fields != [] {
      var n := |fields| - 1;
      var s, t := FieldsBytes(fields[..n]), FieldBytes(fields[n]);
      FieldsBytesStep(fields, n);
      SplitSlice(buf, cur, s, t);
      ReadFieldsInvertsFieldsBytes(buf, cur, fields[..n]);
      FieldAtReadsFieldBytes(buf, cur + |s|, fields[n]);
      ReadOneMore(buf, cur, n, ClientViews(fields[..n]), cur + |s|, ClientView(fields[n]), cur + |s| + |t|);
      ClientViewsStep(fields, n);
    }
  }

  // Reading a description that stands at cur.
  lemma TableRead(wire: seq<byte>, cur: nat, fields: seq<Field>)
    requires |fields| <= 30 && ShortNames(fields)
    requires cur + 4 + |FieldsBytes(fields)| <= |wire| && wire[cur..cur + 4] == LE32(|fields|)
    requires wire[cur + 4..cur + 4 + |FieldsBytes(fields)|] == FieldsBytes(fields)
    ensures FromLE32(wire[cur..cur + 4]) == |fields|
    ensures Readable(wire, cur + 4, |fields|)
    ensures ReadFields(wire, cur + 4, |fields|) == (ClientViews(fields), cur + |TableBytes(fields)|)
  {
    hide LE32, FromLE32, Readable, ReadFields, FieldsBytes, ClientViews;
    LE32RoundTrip(|fields|);
    ReadFieldsInvertsFieldsBytes(wire, cur + 4, fields);
  }

  // The client rebuilds exactly the table the server described, whatever surrounds the description,
  // and both cursors stop at the same byte.
  lemma {:induction false} SchemaRoundTrip(buf: seq<byte>, cur: nat, fields: seq<Field>)
    requires |fields| <= 30 && ShortNames(fields)
    requires cur + |TableBytes(fields)| <= |buf|
    ensures var wire := Splice(buf, cur, TableBytes(fields));
            && FromLE32(wire[cur..cur + 4]) == |fields|
            && Readable(wire, cur + 4, |fields|)
            && ReadFields(wire, cur + 4, |fields|) == (ClientViews(fields), cur + |TableBytes(fields)|)
    ensures |TableBytes(fields)| == 4 + 12 * |fields| + NameTotal(fields)
  {
    SpliceWordAnd(buf, cur, LE32(|fields|), FieldsBytes(fields));
    TableRead(Splice(buf, cur, TableBytes(fields)), cur, fields);
    FieldsBytesLength(fields);
  }
}
