/** Reading and writing message buffers through a moving cursor.  A cursor is a position in the
    buffer; each routine returns the position it moves to. */
module SeriUtils {
  import opened Bytes

  method SeriUint32M(buf: array<byte>, bufCursor: nat, value: uint32) returns (next: nat)
    requires bufCursor + 4 <= buf.Length
    modifies buf
    ensures buf[..] == Splice(old(buf[..]), bufCursor, LE32(value))
    ensures next == bufCursor + 4
  {
    MemCpy(buf, bufCursor, LE32(value));
    next := bufCursor + 4;
  }

  // The bytes of a string on the wire: its length, then its characters without the NUL.
  function StringBytes(value: CString): (s: seq<byte>)
    requires |value| < TWO_TO_THE_32
  {
    LE32(|value|) + value
  }

  method SeriStringM(buf: array<byte>, bufCursor: nat, value: CString) returns (next: nat)
    requires |value| < TWO_TO_THE_32 && bufCursor + 4 + |value| <= buf.Length
    modifies buf
    ensures buf[..] == Splice(old(buf[..]), bufCursor, StringBytes(value))
    ensures next == bufCursor + 4 + |value|
  {
    var strLen := |value|;
    var cur := SeriUint32M(buf, bufCursor, strLen);
    MemCpy(buf, cur, value);
    SpliceTwice(old(buf[..]), bufCursor, LE32(strLen), value);
    next := cur + strLen;
  }

  // Copies the characters before the first NUL, however many, and moves the cursor by fixLen.
  method SeriFixedStringM(buf: array<byte>, bufCursor: nat, value: seq<byte>, fixLen: uint32) returns (next: nat)
    requires StrLen(value) < |value| && bufCursor + StrLen(value) <= buf.Length
    modifies buf
    ensures buf[..] == Splice(old(buf[..]), bufCursor, CStr(value))
    ensures next == bufCursor + fixLen
  {
    var strLen := StrLen(value);
    MemCpy(buf, bufCursor, value[..strLen]);
    next := bufCursor + fixLen;
  }

  method DeseriUint32M(buf: array<byte>, bufCursor: nat) returns (value: uint32, next: nat)
    requires bufCursor + 4 <= buf.Length
    ensures value == FromLE32(buf[bufCursor..bufCursor + 4])
    ensures next == bufCursor + 4
  {
    value := FromLE32(buf[bufCursor..bufCursor + 4]);
    next := bufCursor + 4;
  }

  // Overwrites the start of the buffer value with the string read.
  method DeseriStringM(buf: array<byte>, bufCursor: nat, value: seq<byte>) returns (filled: seq<byte>, next: nat)
    requires bufCursor + 4 <= buf.Length
    requires var strLen := FromLE32(buf[bufCursor..bufCursor + 4]);
             strLen <= |value| && bufCursor + 4 + strLen <= buf.Length
    ensures var strLen := FromLE32(buf[bufCursor..bufCursor + 4]);
            && next == bufCursor + 4 + strLen
            && filled == Splice(value, 0, buf[bufCursor + 4..next])
  {
    var strLen, cur := DeseriUint32M(buf, bufCursor);
    next := cur + strLen;
    filled := Splice(value, 0, buf[cur..next]);
  }

  method DeseriFixedStringM(buf: array<byte>, bufCursor: nat, value: array<byte>, fixLen: uint32) returns (next: nat)
    requires bufCursor + fixLen <= buf.Length && fixLen <= value.Length && buf != value
    modifies value
    ensures value[..] == Splice(old(value[..]), 0, buf[bufCursor..bufCursor + fixLen])
    ensures next == bufCursor + fixLen
  {
    MemCpy(value, 0, buf[bufCursor..bufCursor + fixLen]);
    next := bufCursor + fixLen;
  }

  lemma StringRoundTrip(value: CString)
    requires |value| < TWO_TO_THE_32
    ensures FromLE32(StringBytes(value)[..4]) == |value| && StringBytes(value)[4..] == value
  {
    LE32RoundTrip(|value|);
    assert StringBytes(value)[..4] == LE32(|value|);
  }
}
