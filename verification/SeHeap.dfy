/** The row heap of a table: one page to which rows of a fixed size are appended. */
module SeHeap {
  import opened Arith
  import opened Bytes

  const SE_HEAP_PAGE_SIZE: nat := 4096

  // Positions are offsets from pageBegin; page is the memory from there on, of which the heap's page is
  // the first SE_HEAP_PAGE_SIZE bytes.
  datatype HeapView = HeapView(page: seq<byte>, currPos: nat, rowCnt: uint32, rowSize: uint32)

  ghost predicate HeapInv(h: HeapView) {
    SE_HEAP_PAGE_SIZE <= |h.page| && h.currPos == h.rowCnt * h.rowSize <= SE_HEAP_PAGE_SIZE
  }

  predicate HasRoom(h: HeapView) {
    h.currPos + h.rowSize <= SE_HEAP_PAGE_SIZE
  }

  // The state after copying a row to the current position.
  function HeapInsert(h: HeapView, rowBuf: seq<byte>): (h': HeapView)
    requires SE_HEAP_PAGE_SIZE <= |h.page| && HasRoom(h) && h.rowSize <= |rowBuf|
  {
    HeapView(Splice(h.page, h.currPos, rowBuf[..h.rowSize]), h.currPos + h.rowSize,
             (h.rowCnt as int + 1) % TWO_TO_THE_32, h.rowSize)
  }

  lemma RowWithin(h: HeapView, k: nat)
    requires HeapInv(h) && k < h.rowCnt
    ensures k * h.rowSize + h.rowSize <= h.currPos
  {
    MulStep(k, h.rowSize);
    MulMono(k + 1, h.rowCnt, h.rowSize);
  }

  ghost function RowAt(h: HeapView, k: nat): (row: seq<byte>)
    requires HeapInv(h) && k < h.rowCnt
    ensures |row| == h.rowSize
  {
    RowWithin(h, k);
    h.page[k * h.rowSize..k * h.rowSize + h.rowSize]
  }

  // The list of rows the heap stands for.
  ghost function Rows(h: HeapView): (rows: seq<seq<byte>>)
    requires HeapInv(h)
    ensures |rows| == h.rowCnt && forall k :: 0 <= k < |rows| ==> rows[k] == RowAt(h, k)
  {
    seq(h.rowCnt, k requires 0 <= k < h.rowCnt => RowAt(h, k))
  }

  lemma CountBounded(h: HeapView)
    requires HeapInv(h) && 1 <= h.rowSize
    ensures h.rowCnt <= SE_HEAP_PAGE_SIZE
  {
    MulMono(1, h.rowSize, h.rowCnt);
  }

  lemma InsertKeepsInv(h: HeapView, rowBuf: seq<byte>)
    requires HeapInv(h) && HasRoom(h) && h.rowSize <= |rowBuf|
    ensures HeapInv(HeapInsert(h, rowBuf))
  {
    MulStep(h.rowCnt, h.rowSize);
    if h.rowSize >= 1 {
      CountBounded(h);
    }
  }

  // An insert appends the row and leaves every earlier row byte for byte as it was.
  lemma InsertAppends(h: HeapView, rowBuf: seq<byte>)
    requires HeapInv(h) && HasRoom(h) && 1 <= h.rowSize <= |rowBuf|
    ensures HeapInv(HeapInsert(h, rowBuf))
    ensures Rows(HeapInsert(h, rowBuf)) == Rows(h) + [rowBuf[..h.rowSize]]
  {
    var h', row := HeapInsert(h, rowBuf), rowBuf[..h.rowSize];
    InsertKeepsInv(h, rowBuf);
    CountBounded(h);
    forall k | 0 <= k < h.rowCnt
      ensures RowAt(h', k) == RowAt(h, k)
    {
      RowWithin(h, k);
      SliceBefore(h.page, h.currPos, row, k * h.rowSize, k * h.rowSize + h.rowSize);
    }
    SpliceReads(h.page, h.currPos, row);
    assert RowAt(h', h.rowCnt) == row;
  }

  // A row is accepted exactly while fewer than floor(4096 / rowSize) are stored.
  lemma RoomIffBelowCapacity(h: HeapView)
    requires HeapInv(h) && 1 <= h.rowSize
    ensures HasRoom(h) <==> h.rowCnt < 4096 / h.rowSize
  {
    FitsIff(SE_HEAP_PAGE_SIZE, h.rowCnt, h.rowSize);
  }

  // ---- Any number of inserts ----

  // Does every insert of the list find room?
  ghost predicate AllRoom(h: HeapView, rows: seq<seq<byte>>)
    requires HeapInv(h) && 1 <= h.rowSize && forall r :: r in rows ==> h.rowSize <= |r|
    decreases |rows|
  {
    rows == [] ||
    (HasRoom(h) && (InsertAppends(h, rows[0]); AllRoom(HeapInsert(h, rows[0]), rows[1..])))
  }

  ghost function InsertAll(h: HeapView, rows: seq<seq<byte>>): (h': HeapView)
    requires HeapInv(h) && 1 <= h.rowSize && forall r :: r in rows ==> h.rowSize <= |r|
    requires AllRoom(h, rows)
    decreases |rows|
  {
    if rows == [] then h
    else InsertAppends(h, rows[0]); InsertAll(HeapInsert(h, rows[0]), rows[1..])
  }

  // The heap refines a list: inserts are accepted exactly up to the page's capacity, and what is
  // stored then is the earlier rows followed by the new ones in order.
  lemma {:induction false} HeapRefinesList(h: HeapView, rows: seq<seq<byte>>)
    requires HeapInv(h) && 1 <= h.rowSize && forall r :: r in rows ==> |r| == h.rowSize
    ensures AllRoom(h, rows) <==> h.rowCnt + |rows| <= 4096 / h.rowSize
    ensures AllRoom(h, rows) ==> HeapInv(InsertAll(h, rows)) && Rows(InsertAll(h, rows)) == Rows(h) + rows
    decreases |rows|
  {
    RoomIffBelowCapacity(h);
    if rows == [] {
      assert h.rowCnt * h.rowSize <= SE_HEAP_PAGE_SIZE;
      CapacityIsMax(h.rowCnt, h.rowSize);
    } else if HasRoom(h) {
      InsertAppends(h, rows[0]);
      HeapRefinesList(HeapInsert(h, rows[0]), rows[1..]);
      assert rows[0][..h.rowSize] == rows[0];
      assert Rows(h) + rows == Rows(h) + [rows[0]] + rows[1..];
    }
  }

  // In memory the rows stand one behind the other from the position the heap had, and nothing else
  // changes.
  lemma {:induction false} InsertAllPage(h: HeapView, rows: seq<seq<byte>>)
    requires HeapInv(h) && 1 <= h.rowSize && forall r :: r in rows ==> |r| == h.rowSize
    requires AllRoom(h, rows)
    ensures h.currPos + |Join(rows)| <= |h.page|
    ensures InsertAll(h, rows).page == Splice(h.page, h.currPos, Join(rows))
    decreases |rows|
  {
    assert SE_HEAP_PAGE_SIZE <= |h.page|;
    hide HeapInv, RowAt, Rows, Splice, Join;
    if rows == [] {
      NoRowsPage(h);
    } else {
      var h', rest := HeapInsert(h, rows[0]), rows[1..];
      InsertAppends(h, rows[0]);
      InsertAllPage(h', rest);
      JoinCons(rows[0], rest);
      assert rows == [rows[0]] + rest && rows[0][..h.rowSize] == rows[0];
      SpliceTwice(h.page, h.currPos, rows[0], Join(rest));
    }
  }

  lemma NoRowsPage(h: HeapView)
    requires HeapInv(h)
    ensures h.currPos <= |h.page| && Splice(h.page, h.currPos, Join([])) == h.page
  {
    assert Splice(h.page, h.currPos, []) == h.page;
  }

  lemma CapacityIsMax(n: nat, rowSize: nat)
    requires 1 <= rowSize && n * rowSize <= 4096
    ensures n <= 4096 / rowSize
  {
    if n > 0 {
      MulStep(n - 1, rowSize);
      FitsIff(SE_HEAP_PAGE_SIZE, n - 1, rowSize);
    }
  }

  class FixedHeap {
    const pageBegin: array<byte>      // the memory from pageBegin on
    var currPos: nat
    var rowCnt: uint32
    const rowSize: uint32

    ghost function View(): (h: HeapView)
      reads this, pageBegin
    {
      HeapView(pageBegin[..], currPos, rowCnt, rowSize)
    }

    // SEFixedHeapInit, on the page the allocator answered, whose contents are arbitrary.
    constructor (page: array<byte>, rowSize: uint32)
      requires SE_HEAP_PAGE_SIZE <= page.Length
      ensures pageBegin == page && this.rowSize == rowSize
      ensures HeapInv(View()) && Rows(View()) == []
    {
      pageBegin := page;
      currPos := 0;
      rowCnt := 0;
      this.rowSize := rowSize;
    }

    // Answers false where the C code fails its assertion because the page is full.
    method SEFixedHeapInsertRow(rowBuf: array<byte>) returns (accepted: bool)
      requires HeapInv(View()) && rowBuf != pageBegin
      requires HasRoom(View()) ==> rowSize <= rowBuf.Length
      modifies this, pageBegin
      ensures accepted == old(HasRoom(View())) == old(currPos + rowSize <= 4096)
      ensures View() == if accepted then old(HeapInsert(View(), rowBuf[..])) else old(View())
      ensures HeapInv(View())
    {
      if currPos + rowSize > SE_HEAP_PAGE_SIZE {
        return false;
      }
      InsertKeepsInv(View(), rowBuf[..]);
      ghost var row := rowBuf[..rowSize];
      assert row == rowBuf[..][..rowSize];
      forall i | currPos <= i < currPos + rowSize {
        pageBegin[i] := rowBuf[i - currPos];
      }
      assert pageBegin[..] == Splice(old(pageBegin[..]), currPos, row);
      currPos := currPos + rowSize;
      rowCnt := (rowCnt as int + 1) % TWO_TO_THE_32;
      accepted := true;
    }
  }
}
