/** Bytes, little-endian 32-bit integers, C strings and copies between buffers. */
module Bytes {

  type byte = b: int | 0 <= b < 0x100
  type uint32 = v: int | 0 <= v < 0x1_0000_0000

  const TWO_TO_THE_32: int := 0x1_0000_0000

  lemma WrapsIff(n: nat)
    ensures n % TWO_TO_THE_32 == n <==> n < TWO_TO_THE_32
  {
  }

  predicate NoNul(s: seq<byte>) {
    forall i :: 0 <= i < |s| ==> s[i] != 0
  }

  // The characters of a C string, without the terminating NUL.
  type CString = s: seq<byte> | NoNul(s)

  function LE32(v: uint32): (s: seq<byte>)
    ensures |s| == 4
  {
    [v % 0x100, v / 0x100 % 0x100, v / 0x1_0000 % 0x100, v / 0x100_0000]
  }

  function FromLE32(s: seq<byte>): (v: uint32)
    requires |s| == 4
  {
    s[0] + 0x100 * (s[1] as int) + 0x1_0000 * (s[2] as int) + 0x100_0000 * (s[3] as int)
  }

  // A number written as a low byte and the rest is taken apart again.
  lemma LowByte(low: byte, rest: nat)
    ensures (low + 0x100 * rest) % 0x100 == low && (low + 0x100 * rest) / 0x100 == rest
  {
  }

  lemma DivTwice(v: nat)
    ensures v / 0x100 / 0x100 == v / 0x1_0000 && v / 0x1_0000 / 0x100 == v / 0x100_0000
  {
  }

  // Lowest byte first.
  lemma LE32RoundTrip(v: uint32)
    ensures FromLE32(LE32(v)) == v
    ensures v == LE32(v)[0] + 256 * LE32(v)[1] as int + 65536 * LE32(v)[2] as int + 16777216 * LE32(v)[3] as int
  {
    DivTwice(v);
  }

  lemma FromLE32RoundTrip(s: seq<byte>)
    requires |s| == 4
    ensures LE32(FromLE32(s)) == s
  {
    var v2 := s[2] + 0x100 * (s[3] as int);
    var v1 := s[1] + 0x100 * v2;
    LowByte(s[0], v1);
    LowByte(s[1], v2);
    LowByte(s[2], s[3]);
    DivTwice(FromLE32(s));
  }

  // Position of the first zero byte; |s| if there is none.
  function StrLen(s: seq<byte>): (n: nat)
    ensures n <= |s| && NoNul(s[..n])
    ensures n < |s| ==> s[n] == 0
  {
    if s == [] || s[0] == 0 then 0
    else
      var n := 1 + StrLen(s[1..]);
      assert s[..n] == [s[0]] + s[1..][..n - 1];
      n
  }

  // The first zero byte is where one stands with none before it.
  lemma {:induction false} StrLenIs(s: seq<byte>, n: nat)
    requires n <= |s| && NoNul(s[..n]) && (n < |s| ==> s[n] == 0)
    ensures StrLen(s) == n
  {
    var m := StrLen(s);
    assert forall i :: 0 <= i < n ==> s[..n][i] == s[i];
    assert forall i :: 0 <= i < m ==> s[..m][i] == s[i];
  }

  // The C string stored at the start of a buffer.
  function CStr(s: seq<byte>): (t: CString)
    ensures t == s[..StrLen(s)]
  {
    s[..StrLen(s)]
  }

  function Zeros(n: nat): (s: seq<byte>)
    ensures |s| == n && forall i :: 0 <= i < n ==> s[i] == 0
  {
    seq(n, _ => 0)
  }

  // buf with src written over it from position at on.
  function Splice(buf: seq<byte>, at: nat, src: seq<byte>): (r: seq<byte>)
    requires at + |src| <= |buf|
    ensures |r| == |buf|
    ensures forall i :: 0 <= i < |buf| ==> r[i] == if at <= i < at + |src| then src[i - at] else buf[i]
  {
    buf[..at] + src + buf[at + |src|..]
  }

  // Slices of the first and of the second part of a concatenation.
  lemma FirstPart(s: seq<byte>, t: seq<byte>, a: nat, b: nat)
    requires a <= b <= |s|
    ensures (s + t)[a..b] == s[a..b]
  {
  }

  lemma SecondPart(s: seq<byte>, t: seq<byte>)
    ensures (s + t)[|s|..|s| + |t|] == t
  {
  }

  // The pieces one behind the other.
  function Join(pieces: seq<seq<byte>>): (s: seq<byte>) {
    if pieces == [] then [] else Join(pieces[..|pieces| - 1]) + pieces[|pieces| - 1]
  }

  // Piece i stands behind the pieces before it.
  lemma {:induction false} JoinPiece(pieces: seq<seq<byte>>, i: nat)
    requires i < |pieces|
    ensures var a := |Join(pieces[..i])|;
            a + |pieces[i]| <= |Join(pieces)| && Join(pieces)[a..a + |pieces[i]|] == pieces[i]
    decreases |pieces|
  {
    var n := |pieces| - 1;
    var front := pieces[..n];
    if i < n {
      JoinPiece(front, i);
      assert front[..i] == pieces[..i];
      var a := |Join(pieces[..i])|;
      FirstPart(Join(front), pieces[n], a, a + |pieces[i]|);
    } else {
      SecondPart(Join(front), pieces[n]);
    }
  }

  lemma {:induction false} JoinCons(a: seq<byte>, rest: seq<seq<byte>>)
    ensures Join([a] + rest) == a + Join(rest)
  {
    var n, all := |rest|, [a] + rest;
    if n == 0 {
      assert all == [a] && [a][..0] == [];
    } else {
      JoinCons(a, rest[..n - 1]);
      assert all[..n] == [a] + rest[..n - 1];
      assert a + (Join(rest[..n - 1]) + rest[n - 1]) == a + Join(rest[..n - 1]) + rest[n - 1];
    }
  }

  // The same for a front, piece and whole given by other names.
  lemma {:induction false} JoinAt(pieces: seq<seq<byte>>, i: nat, front: seq<byte>, piece: seq<byte>, whole: seq<byte>)
    requires i < |pieces| && pieces[i] == piece && Join(pieces[..i]) == front && Join(pieces) == whole
    ensures |front| + |piece| <= |whole| && whole[|front|..|front| + |piece|] == piece
  {
    JoinPiece(pieces, i);
  }

  lemma SliceOfSlice(buf: seq<byte>, cur: nat, s: seq<byte>, a: nat, b: nat)
    requires cur + |s| <= |buf| && buf[cur..cur + |s|] == s && a <= b <= |s|
    ensures buf[cur + a..cur + b] == s[a..b]
  {
    forall k | 0 <= k < |s|
      ensures s[k] == buf[cur + k]
    {
      assert buf[cur..cur + |s|][k] == buf[cur + k];
    }
  }

  // Where a concatenation stands, its parts do.
  lemma SplitSlice(buf: seq<byte>, cur: nat, s: seq<byte>, t: seq<byte>)
    requires cur + |s + t| <= |buf| && buf[cur..cur + |s + t|] == s + t
    ensures buf[cur..cur + |s|] == s && buf[cur + |s|..cur + |s| + |t|] == t
  {
    SliceOfSlice(buf, cur, s + t, 0, |s|);
    SliceOfSlice(buf, cur, s + t, |s|, |s| + |t|);
    FirstPart(s, t, 0, |s|);
    SecondPart(s, t);
  }

  // Two adjacent writes are one.
  lemma SpliceTwice(buf: seq<byte>, at: nat, a: seq<byte>, b: seq<byte>)
    requires at + |a| + |b| <= |buf|
    ensures Splice(Splice(buf, at, a), at + |a|, b) == Splice(buf, at, a + b)
  {
  }

  lemma SpliceReads(buf: seq<byte>, at: nat, src: seq<byte>)
    requires at + |src| <= |buf|
    ensures Splice(buf, at, src)[at..at + |src|] == src
  {
  }

  // A four-byte word and what follows it, written at once.
  lemma SpliceWordAnd(buf: seq<byte>, at: nat, word: seq<byte>, t: seq<byte>)
    requires |word| == 4 && at + 4 + |t| <= |buf|
    ensures var buf' := Splice(buf, at, word + t);
            buf'[at..at + 4] == word && buf'[at + 4..at + 4 + |t|] == t
  {
    SpliceReads(buf, at, word + t);
    SplitSlice(Splice(buf, at, word + t), at, word, t);
  }

  // What lies before a write is not touched by it.
  lemma SliceBefore(buf: seq<byte>, at: nat, src: seq<byte>, a: nat, b: nat)
    requires at + |src| <= |buf| && a <= b <= at
    ensures Splice(buf, at, src)[a..b] == buf[a..b]
  {
  }

  // Nor is what lies behind it.
  lemma SliceBehind(buf: seq<byte>, at: nat, src: seq<byte>, a: nat, b: nat)
    requires at + |src| <= a <= b <= |buf|
    ensures Splice(buf, at, src)[a..b] == buf[a..b]
  {
  }

  // ---- Copying ----

  // memcpy into a buffer.
  method MemCpy(buf: array<byte>, at: nat, src: seq<byte>)
    requires at + |src| <= buf.Length
    modifies buf
    ensures buf[..] == Splice(old(buf[..]), at, src)
  {
    forall i | at <= i < at + |src| {
      buf[i] := src[i - at];
    }
  }

  // ---- Integers stored through strlen ----

  function Pow256(k: nat): (p: nat)
    requires k <= 4
  {
    if k == 0 then 1 else if k == 1 then 0x100 else if k == 2 then 0x1_0000
    else if k == 3 then 0x100_0000 else 0x1_0000_0000
  }

  // Number of low bytes of v before its first zero byte.
  function NonzeroRun(v: uint32): (k: nat)
    ensures k <= 4
  {
    StrLen(LE32(v))
  }

  // What is left of v when only the bytes before its first zero byte are copied.
  function Surviving(v: uint32): (r: uint32) {
    v % Pow256(NonzeroRun(v))
  }

  // No zero byte below a nonzero one.
  predicate Dense(v: uint32) {
    forall i, j :: 0 <= i < j < 4 && LE32(v)[i] == 0 ==> LE32(v)[j] == 0
  }

  lemma SurvivingBytes(v: uint32)
    ensures FromLE32(CStr(LE32(v)) + Zeros(4 - NonzeroRun(v))) == Surviving(v)
  {
    hide StrLen, CStr, Zeros;
    var k := NonzeroRun(v);
    var s := LE32(v);
    var t := CStr(s) + Zeros(4 - k);
    LE32RoundTrip(v);
    assert forall i :: 0 <= i < 4 ==> t[i] == if i < k then s[i] else 0;
    if k == 0 {
      assert FromLE32(t) == 0;
    } else if k == 1 {
      assert FromLE32(t) == s[0];
    } else if k == 2 {
      assert FromLE32(t) == s[0] + 0x100 * (s[1] as int);
    } else if k == 3 {
      assert FromLE32(t) == s[0] + 0x100 * (s[1] as int) + 0x1_0000 * (s[2] as int);
    } else {
      assert t == s;
    }
  }

  // The integer comes back whole exactly when it has no zero byte below a nonzero one.
  lemma SurvivesIffDense(v: uint32)
    ensures Surviving(v) == v <==> Dense(v)
  {
    var k, s := NonzeroRun(v), LE32(v);
    var t := CStr(s) + Zeros(4 - k);
    SurvivingBytes(v);
    LE32RoundTrip(v);
    FromLE32RoundTrip(t);
    assert forall i :: 0 <= i < 4 ==> t[i] == if i < k then s[i] else 0;
    assert forall i :: 0 <= i < k ==> CStr(s)[i] == s[i] && s[i] != 0;
    if Dense(v) {
      forall i | 0 <= i < 4
        ensures t[i] == s[i]
      {
        assert k < i ==> s[k] == 0;
      }
      assert t == s;
    }
    if Surviving(v) == v {
      assert t == s;
    }
  }
}
