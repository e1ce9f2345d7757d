/** One record from the client's argument list to the server's heap page and back: packing,
    unpacking and the decoding walk of the table dump. */
module Record {
  import opened Bytes
  import opened SeriUtils
  import opened Schema

  datatype Option<T> = None | Some(value: T)

  // An argument of an insert; the two integer types carry the same 32 bits.
  datatype Value = IntValue(v: uint32) | StrValue(s: CString)

  // ---- Caching the arguments ----

  // The argument has the C type its field asks for.
  predicate KindMatches(fieldType: uint32, v: Value) {
    (fieldType == TYPE_INT32 ==> v.IntValue?) && (fieldType == TYPE_STRING ==> v.StrValue?)
  }

  // What the client promises to take, with the numbers written out: an integer for an integer field, of
  // type 0, and a string of at most 63 characters for a string field, of type 1.
  predicate Admissible(fieldType: uint32, v: Value) {
    match v
    case IntValue(_) => fieldType == 0
    case StrValue(s) => fieldType == 1 && |s| <= 63
  }

  // Storing the argument succeeds: a supported type, and no string too long for the value buffer.
  predicate Accepts(p: CliProperty, v: Value) {
    || (p.fldType == TYPE_INT32 && v.IntValue?)
    || (p.fldType == TYPE_STRING && v.StrValue? && |v.s| + 1 <= SR_FIELD_VALUE_MAX_LENGTH)
  }

  // The bytes an argument puts at the start of its value buffer.
  function Stored(v: Value): (s: seq<byte>) {
    match v
    case IntValue(n) => LE32(n)
    case StrValue(s) => s + [0]
  }

  function Put(p: CliProperty, v: Value): (p': CliProperty)
    requires |p.value| == SR_FIELD_VALUE_MAX_LENGTH && Accepts(p, v)
  {
    p.(value := Splice(p.value, 0, Stored(v)))
  }

  // Index of the first refused argument from i on; the number of fields if there is none.
  function FirstRefused(props: seq<CliProperty>, values: seq<Value>, i: nat): (n: nat)
    requires |props| == |values| && i <= |props|
    ensures i <= n <= |props|
    ensures forall j :: i <= j < n ==> Accepts(props[j], values[j])
    ensures n < |props| ==> !Accepts(props[n], values[n])
    decreases |props| - i
  {
    if i == |props| || !Accepts(props[i], values[i]) then i else FirstRefused(props, values, i + 1)
  }

  predicate AllAccepted(props: seq<CliProperty>, values: seq<Value>) {
    |props| == |values| && forall j :: 0 <= j < |props| ==> Accepts(props[j], values[j])
  }

  // The call caches all arguments exactly when each is admissible.
  lemma AcceptsIff(props: seq<CliProperty>, values: seq<Value>)
    requires |props| == |values|
    ensures AllAccepted(props, values) <==> forall j :: 0 <= j < |props| ==> Admissible(props[j].fldType, values[j])
  {
    forall j | 0 <= j < |props|
      ensures Accepts(props[j], values[j]) <==> Admissible(props[j].fldType, values[j])
    {
    }
  }

  predicate HasNul(s: seq<byte>) {
    StrLen(s) < |s|
  }

  // What an insert leaves cached between calls: full-length buffers that always hold a NUL, and in
  // integer fields nothing but zeros past the fourth byte.
  predicate CacheOk(p: CliProperty) {
    && |p.value| == SR_FIELD_VALUE_MAX_LENGTH
    && HasNul(p.value)
    && (p.fldType == TYPE_INT32 ==> forall k :: 4 <= k < SR_FIELD_VALUE_MAX_LENGTH ==> p.value[k] == 0)
  }

  // The cache after an insert call, which stops at the first argument it refuses.
  function Cached(props: seq<CliProperty>, values: seq<Value>): (r: seq<CliProperty>)
    requires |props| == |values| && forall j :: 0 <= j < |props| ==> CacheOk(props[j])
    ensures |r| == |props|
  {
    seq(|props|, j requires 0 <= j < |props| =>
      assert CacheOk(props[j]);
      if j < FirstRefused(props, values, 0) then Put(props[j], values[j]) else props[j])
  }

  // The bytes of an argument that strlen lets through.
  function Image(v: Value): (s: CString) {
    match v
    case IntValue(n) => CStr(LE32(n))
    case StrValue(s) => s
  }

  // Whatever the buffer held before, what is copied from it afterwards is the image of the argument.
  lemma PutForgetsEarlierValue(p: CliProperty, v: Value)
    requires CacheOk(p) && Accepts(p, v)
    ensures CacheOk(Put(p, v)) && CStr(Put(p, v).value) == Image(v)
  {
    var buf := Put(p, v).value;
    match v {
      case IntValue(n) =>
        var k := NonzeroRun(n);
        assert forall i :: 0 <= i < 4 ==> buf[i] == LE32(n)[i];
        assert buf[..k] == LE32(n)[..k];
        StrLenIs(buf, k);
      case StrValue(s) =>
        assert buf[|s|] == 0 && buf[..|s|] == s;
        StrLenIs(buf, |s|);
    }
  }

  // Storing an argument writes four bytes, or the characters and a NUL; the rest of the buffer stays.
  lemma PutWritesOnly(p: CliProperty, v: Value, k: nat)
    requires CacheOk(p) && Accepts(p, v) && k < 64
    ensures |Put(p, v).value| == 64 && Put(p, v).fldName == p.fldName
    ensures v.IntValue? && k >= 4 ==> Put(p, v).value[k] == p.value[k]
    ensures v.StrValue? && k > |v.s| ==> Put(p, v).value[k] == p.value[k]
  {
  }

  // Reusing a statement: every buffer stays fit for the next insert, refused or not, and after an
  // accepted one the bytes that will be copied depend on the new arguments alone.
  lemma {:induction false} ReuseCarriesNothing(props: seq<CliProperty>, values: seq<Value>)
    requires |props| == |values| && forall j :: 0 <= j < |props| ==> CacheOk(props[j])
    ensures forall j :: 0 <= j < |props| ==> CacheOk(Cached(props, values)[j])
    ensures FirstRefused(props, values, 0) == |props| <==> AllAccepted(props, values)
    ensures AllAccepted(props, values) ==>
              forall j :: 0 <= j < |props| ==> CStr(Cached(props, values)[j].value) == Image(values[j])
  {
    forall j | 0 <= j < |props|
      ensures CacheOk(Cached(props, values)[j])
      ensures j < FirstRefused(props, values, 0) ==> CStr(Cached(props, values)[j].value) == Image(values[j])
    {
      if j < FirstRefused(props, values, 0) {
        PutForgetsEarlierValue(props[j], values[j]);
      }
    }
  }

  // ---- Packing ----

  // How far the client's cursor has moved before field i.
  function Displacement(props: seq<CliProperty>, i: nat): (n: nat)
    requires i <= |props|
  {
    if i == 0 then 0 else Displacement(props, i - 1) + props[i - 1].fldSize
  }

  // The 32-bit length the client claims.
  method GetRecordTotalLen(tableSchema: CliTableSchema) returns (totalLen: uint32)
    requires tableSchema.propertyCnt <= tableSchema.properties.Length
    ensures totalLen
            == Displacement(tableSchema.properties[..tableSchema.propertyCnt], tableSchema.propertyCnt) % TWO_TO_THE_32
  {
    totalLen := 0;
    ghost var props := tableSchema.properties[..tableSchema.propertyCnt];
    for i := 0 to tableSchema.propertyCnt
      invariant totalLen == Displacement(props, i) % TWO_TO_THE_32
    {
      totalLen := (totalLen as int + tableSchema.properties[i].fldSize) % TWO_TO_THE_32;
    }
  }

  function Supported(fieldType: uint32): (r: bool) {
    fieldType == TYPE_INT32 || fieldType == TYPE_STRING
  }

  // Fields before the first of an unsupported type.
  function SupportedFrom(props: seq<CliProperty>, i: nat): (n: nat)
    requires i <= |props|
    ensures i <= n <= |props|
    ensures forall j :: i <= j < n ==> Supported(props[j].fldType)
    ensures n < |props| ==> !Supported(props[n].fldType)
    decreases |props| - i
  {
    if i == |props| || !Supported(props[i].fldType) then i else SupportedFrom(props, i + 1)
  }

  // The value of field j can be copied without leaving the buffer.
  predicate RoomAt(bufLen: nat, at: nat, props: seq<CliProperty>, j: nat)
    requires j < |props|
  {
    at + Displacement(props, j) + |CStr(props[j].value)| <= bufLen
  }

  predicate Room(bufLen: nat, at: nat, props: seq<CliProperty>, n: nat)
    requires n <= |props|
  {
    forall j :: 0 <= j < n ==> RoomAt(bufLen, at, props, j)
  }

  // buf after the first n cached values were copied to their places, in order: a value longer than
  // its field runs into the next one, which is then written over it.
  function Packed(buf: seq<byte>, at: nat, props: seq<CliProperty>, n: nat): (r: seq<byte>)
    requires n <= |props| && Room(|buf|, at, props, n)
    ensures |r| == |buf|
  {
    if n == 0 then buf
    else
      assert RoomAt(|buf|, at, props, n - 1);
      Splice(Packed(buf, at, props, n - 1), at + Displacement(props, n - 1), CStr(props[n - 1].value))
  }

  // Database id, table id and record length.
  function Header(dbId: uint32, labelId: uint32, totalLen: uint32): (s: seq<byte>)
    ensures |s| == 12
  {
    LE32(dbId) + LE32(labelId) + LE32(totalLen)
  }

  method SeriHeader(buf: array<byte>, bufCursor: nat, dbId: uint32, labelId: uint32, totalLen: uint32)
    returns (next: nat)
    requires bufCursor + 12 <= buf.Length
    modifies buf
    ensures buf[..] == Splice(old(buf[..]), bufCursor, Header(dbId, labelId, totalLen))
    ensures next == bufCursor + 12
  {
    ghost var start := buf[..];
    next := SeriUint32M(buf, bufCursor, dbId);
    next := SeriUint32M(buf, next, labelId);
    SpliceTwice(start, bufCursor, LE32(dbId), LE32(labelId));
    next := SeriUint32M(buf, next, totalLen);
    SpliceTwice(start, bufCursor, LE32(dbId) + LE32(labelId), LE32(totalLen));
  }

  method SRCSeriRequsetBuf(buf: array<byte>, bufCursor: nat, stmt: CliTableSchema)
    requires stmt.propertyCnt <= stmt.properties.Length && bufCursor + 12 <= buf.Length
    requires var props := stmt.properties[..stmt.propertyCnt];
             && (forall j :: 0 <= j < |props| ==> HasNul(props[j].value))
             && Room(buf.Length, bufCursor + 12, props, SupportedFrom(props, 0))
    modifies buf
    ensures var props := old(stmt.properties[..stmt.propertyCnt]);
            && stmt.properties[..] == old(stmt.properties[..])
            && buf[..] == Packed(Splice(old(buf[..]), bufCursor, Header(stmt.dbId, stmt.labelId,
                                                                        Displacement(props, |props|) % TWO_TO_THE_32)),
                                 bufCursor + 12, props, SupportedFrom(props, 0))
  {
    var recordTotalLen := GetRecordTotalLen(stmt);
    var cur := SeriHeader(buf, bufCursor, stmt.dbId, stmt.labelId, recordTotalLen);
    SeriValues(buf, cur, stmt, stmt.properties[..stmt.propertyCnt]);
  }

  // The loop of SRCSeriRequsetBuf, which stops at a field of an unsupported type.
  method SeriValues(buf: array<byte>, bufCursor: nat, stmt: CliTableSchema, ghost props: seq<CliProperty>)
    requires stmt.propertyCnt <= stmt.properties.Length && props == stmt.properties[..stmt.propertyCnt]
    requires forall j :: 0 <= j < |props| ==> HasNul(props[j].value)
    requires Room(buf.Length, bufCursor, props, SupportedFrom(props, 0))
    modifies buf
    ensures buf[..] == Packed(old(buf[..]), bufCursor, props, SupportedFrom(props, 0))
  {
    ghost var m := SupportedFrom(props, 0);
    ghost var start := buf[..];
    var cur := bufCursor;
    for i := 0 to stmt.propertyCnt
      invariant i <= m
      invariant cur == bufCursor + Displacement(props, i)
      invariant buf[..] == Packed(start, bufCursor, props, i)
    {
      assert stmt.properties[i] == props[i];
      if !Supported(stmt.properties[i].fldType) {
        return;
      }
      cur := SeriValue(buf, cur, stmt.properties[i], start, bufCursor, props, i, m);
    }
  }

  // One cached value, copied to the place of its field.
  method SeriValue(buf: array<byte>, bufCursor: nat, property: CliProperty,
                   ghost start: seq<byte>, ghost at: nat, ghost props: seq<CliProperty>, ghost i: nat, ghost m: nat)
    returns (next: nat)
    requires i < m <= |props| && property == props[i] && HasNul(property.value)
    requires |start| == buf.Length && Room(buf.Length, at, props, m)
    requires bufCursor == at + Displacement(props, i) && buf[..] == Packed(start, at, props, i)
    modifies buf
    ensures buf[..] == Packed(start, at, props, i + 1)
    ensures next == at + Displacement(props, i + 1)
  {
    PackedStep(start, at, props, i, m);
    next := SeriFixedStringM(buf, bufCursor, property.value, property.fldSize);
  }

  lemma PackedStep(buf: seq<byte>, at: nat, props: seq<CliProperty>, i: nat, m: nat)
    requires i < m <= |props| && Room(|buf|, at, props, m)
    ensures at + Displacement(props, i) + StrLen(props[i].value) <= |buf|
    ensures Displacement(props, i + 1) == Displacement(props, i) + props[i].fldSize
    ensures Packed(buf, at, props, i + 1)
            == Splice(Packed(buf, at, props, i), at + Displacement(props, i), CStr(props[i].value))
  {
    assert RoomAt(|buf|, at, props, i);
  }

  // The request buffer sent for cached values.
  function Message(dbId: uint32, labelId: uint32, props: seq<CliProperty>): (msg: seq<byte>)
    requires Room(BUF_SIZE, 12, props, |props|)
    ensures |msg| == 1024
  {
    Packed(Splice(Zeros(BUF_SIZE), 0, Header(dbId, labelId, Displacement(props, |props|) % TWO_TO_THE_32)),
           12, props, |props|)
  }

  // The insert call up to the send: caches the arguments, then packs them into a fresh request.
  // Nothing is sent when an argument is refused.
  method SRCInsertData(stmt: CliTableSchema, values: seq<Value>) returns (sent: Option<seq<byte>>)
    requires stmt.propertyCnt <= stmt.properties.Length && |values| == stmt.propertyCnt
    requires var props := stmt.properties[..stmt.propertyCnt];
             && (forall j :: 0 <= j < |props| ==> CacheOk(props[j]) && KindMatches(props[j].fldType, values[j]))
             && (AllAccepted(props, values) ==> Room(BUF_SIZE, 12, Cached(props, values), |props|))
    modifies stmt.properties
    ensures stmt.properties[..stmt.propertyCnt] == Cached(old(stmt.properties[..stmt.propertyCnt]), values)
    ensures stmt.properties[stmt.propertyCnt..] == old(stmt.properties[stmt.propertyCnt..])
    ensures sent.Some? <==> AllAccepted(old(stmt.properties[..stmt.propertyCnt]), values)
    ensures var props := old(stmt.properties[..stmt.propertyCnt]);
            sent.Some? <==> forall j :: 0 <= j < |values| ==> Admissible(props[j].fldType, values[j])
    ensures sent.Some? ==>
              Room(BUF_SIZE, 12, Cached(old(stmt.properties[..stmt.propertyCnt]), values), stmt.propertyCnt)
    ensures sent.Some? ==>
              sent.value == Message(stmt.dbId, stmt.labelId, Cached(old(stmt.properties[..stmt.propertyCnt]), values))
  {
    ghost var props := stmt.properties[..stmt.propertyCnt];
    var accepted := CacheArguments(stmt, values);
    ReuseCarriesNothing(props, values);
    AcceptsIff(props, values);
    if !accepted {
      return None;
    }
    AllSupported(props, values);
    assert forall j :: 0 <= j < |props| ==> CacheOk(Cached(props, values)[j]);
    var requestMsg := BuildRequest(stmt, Cached(props, values));
    sent := Some(requestMsg);
  }

  // A cleared request buffer with the header and the cached values in it.
  method BuildRequest(stmt: CliTableSchema, ghost props: seq<CliProperty>) returns (msg: seq<byte>)
    requires stmt.propertyCnt <= stmt.properties.Length && props == stmt.properties[..stmt.propertyCnt]
    requires forall j :: 0 <= j < |props| ==> HasNul(props[j].value)
    requires SupportedFrom(props, 0) == |props| && Room(BUF_SIZE, 12, props, |props|)
    ensures msg == Message(stmt.dbId, stmt.labelId, props)
  {
    var requestMsg := new byte[BUF_SIZE](_ => 0);
    assert requestMsg[..] == Zeros(BUF_SIZE);
    SRCSeriRequsetBuf(requestMsg, 0, stmt);
    msg := requestMsg[..];
  }

  // The caching loop of SRCInsertData.
  method CacheArguments(stmt: CliTableSchema, values: seq<Value>) returns (accepted: bool)
    requires stmt.propertyCnt <= stmt.properties.Length && |values| == stmt.propertyCnt
    requires var props := stmt.properties[..stmt.propertyCnt];
             forall j :: 0 <= j < |props| ==> CacheOk(props[j]) && KindMatches(props[j].fldType, values[j])
    modifies stmt.properties
    ensures stmt.properties[..stmt.propertyCnt] == Cached(old(stmt.properties[..stmt.propertyCnt]), values)
    ensures stmt.properties[stmt.propertyCnt..] == old(stmt.properties[stmt.propertyCnt..])
    ensures accepted <==> AllAccepted(old(stmt.properties[..stmt.propertyCnt]), values)
  {
    ghost var props := stmt.properties[..stmt.propertyCnt];
    hide Put, Accepts, CacheOk, KindMatches;
    ghost var m, cached := FirstRefused(props, values, 0), Cached(props, values);
    accepted := true;
    for i := 0 to stmt.propertyCnt
      invariant i <= m
      invariant forall j :: 0 <= j < i ==> stmt.properties[j] == cached[j]
      invariant forall j :: i <= j < stmt.properties.Length ==> stmt.properties[j] == old(stmt.properties[j])
    {
      assert CacheOk(props[i]) && stmt.properties[i] == props[i];
      var stored := CacheArgument(stmt.properties, i, values[i]);
      if !stored {
        accepted := false;
        break;
      }
    }
    assert stmt.properties[..stmt.propertyCnt] == cached;
  }

  // One argument: false where the C code reports an error and gives up.
  method CacheArgument(properties: array<CliProperty>, i: nat, value: Value) returns (stored: bool)
    requires i < properties.Length && CacheOk(properties[i]) && KindMatches(properties[i].fldType, value)
    modifies properties
    ensures stored == old(Accepts(properties[i], value)) == old(Admissible(properties[i].fldType, value))
    ensures properties[i] == if stored then old(Put(properties[i], value)) else old(properties[i])
    ensures forall j :: 0 <= j < properties.Length && j != i ==> properties[j] == old(properties[j])
  {
    var property := properties[i];
    if property.fldType == TYPE_INT32 {
      properties[i] := property.(value := Splice(property.value, 0, LE32(value.v)));
    } else if property.fldType == TYPE_STRING {
      if |value.s| + 1 > SR_FIELD_VALUE_MAX_LENGTH {
        return false;
      }
      properties[i] := property.(value := Splice(property.value, 0, value.s + [0]));
    } else {
      return false;
    }
    stored := true;
  }

  lemma AllSupported(props: seq<CliProperty>, values: seq<Value>)
    requires (forall j :: 0 <= j < |props| ==> |props| == |values| && CacheOk(props[j])) && AllAccepted(props, values)
    ensures SupportedFrom(Cached(props, values), 0) == |props|
  {
    var cached := Cached(props, values);
    assert forall j :: 0 <= j < |props| ==> Accepts(props[j], values[j]) && Supported(cached[j].fldType);
  }
}
