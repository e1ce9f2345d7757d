/** What one table of the catalogue holds after any interleaving of requests to all of them, and what
    its dump shows. */
module TableRuns {
  import opened Arith
  import opened Bytes
  import opened Schema
  import opened SeHeap
  import opened Record
  import opened Pipeline
  import opened RecordRuns
  import opened Catalogue

  // ---- One request ----

  // The request is an insert addressed to this table.
  predicate AddressedTo(r: Request, dbId: uint32, labelId: uint32) {
    r.InsertRow? && r.inDb == dbId && r.labelId == labelId
  }

  // The rows the request adds to the table: one if it is an insert addressed to it that finds room.
  function RowsIn(v: CatView, r: Request, dbId: uint32, labelId: uint32): (rows: seq<seq<byte>>) {
    if AddressedTo(r, dbId, labelId) && TakesRow(v, dbId, labelId) then [RowOf(TableAt(v, dbId, labelId), r.buf)]
    else []
  }

  // The table is still there and differs only by those rows.
  ghost predicate GainsRows(v: CatView, v': CatView, dbId: uint32, labelId: uint32, rows: seq<seq<byte>>)
    requires NamesTable(v, dbId, labelId)
  {
    && NamesTable(v', dbId, labelId)
    && TableAt(v', dbId, labelId) == TableAt(v, dbId, labelId).(rows := TableAt(v, dbId, labelId).rows + rows)
  }

  lemma GainsNothing(v: CatView, v': CatView, dbId: uint32, labelId: uint32)
    requires NamesTable(v, dbId, labelId) && NamesTable(v', dbId, labelId)
    requires TableAt(v', dbId, labelId) == TableAt(v, dbId, labelId)
    ensures GainsRows(v, v', dbId, labelId, [])
  {
    var table := TableAt(v, dbId, labelId);
    assert table.rows + [] == table.rows;
  }

  lemma GainsInTurn(v: CatView, v': CatView, v'': CatView, dbId: uint32, labelId: uint32,
                    first: seq<seq<byte>>, second: seq<seq<byte>>)
    requires NamesTable(v, dbId, labelId) && GainsRows(v, v', dbId, labelId, first)
    requires GainsRows(v', v'', dbId, labelId, second)
    ensures GainsRows(v, v'', dbId, labelId, first + second)
  {
    var rows := TableAt(v, dbId, labelId).rows;
    assert rows + first + second == rows + (first + second);
  }

  lemma CreateDbGains(v: CatView, name: CString, dbId: uint32, labelId: uint32)
    requires NamesTable(v, dbId, labelId)
    ensures GainsRows(v, CreateDbStep(v, name).0, dbId, labelId, [])
  {
    DbWithIdExtended(v.dbs, SrDbCtrl(name, DbIdFrom(v.genNum), []), dbId);
    GainsNothing(v, CreateDbStep(v, name).0, dbId, labelId);
  }

  // Dropping another database.
  lemma {:induction false} DropDbGains(v: CatView, name: CString, dbId: uint32, labelId: uint32)
    requires IdsInv(v) && NamesTable(v, dbId, labelId)
    requires DbWithId(DropDbStep(v, name).0.dbs, dbId) < |DropDbStep(v, name).0.dbs|
    ensures GainsRows(v, DropDbStep(v, name).0, dbId, labelId, [])
  {
    hide LabelIdsInv, LabelIdsApart, DbNamed;
    var i, v' := DbNamed(v.dbs, name), DropDbStep(v, name).0;
    if NameStatus(name) == GMERR_OK && i < |v.dbs| {
      var j := DbWithId(v'.dbs, dbId);
      assert v'.dbs[j] == v.dbs[if j < i then j else j + 1];
      SameDbById(v, dbId, if j < i then j else j + 1);
    }
    GainsNothing(v, v', dbId, labelId);
  }

  lemma CreateTableGains(v: CatView, inDb: uint32, labelName: CString, fields: seq<Field>, dbId: uint32,
                         labelId: uint32)
    requires NamesTable(v, dbId, labelId)
    ensures GainsRows(v, CreateTableStep(v, inDb, labelName, fields).0, dbId, labelId, [])
  {
    var i, v' := DbWithId(v.dbs, inDb), CreateTableStep(v, inDb, labelName, fields).0;
    if i < |v.dbs| && LabelNamed(v.dbs[i].labelCtrlList, labelName) == |v.dbs[i].labelCtrlList| {
      var labels := v.dbs[i].labelCtrlList;
      var table := SrLabel(TableIdFrom(v.genNum), labelName, fields, []);
      DbWithIdReplaced(v, i, labels + [table], dbId);
      if i == DbWithId(v.dbs, dbId) {
        LabelWithIdExtended(labels, table, labelId);
      }
    }
    GainsNothing(v, v', dbId, labelId);
  }

  lemma InsertRowGains(v: CatView, r: Request, dbId: uint32, labelId: uint32)
    requires NamesTable(v, dbId, labelId) && r.InsertRow?
    ensures GainsRows(v, InsertRowStep(v, r.inDb, r.labelId, r.buf).0, dbId, labelId, RowsIn(v, r, dbId, labelId))
  {
    var i, v' := DbWithId(v.dbs, r.inDb), InsertRowStep(v, r.inDb, r.labelId, r.buf).0;
    if TakesRow(v, r.inDb, r.labelId) {
      var labels := v.dbs[i].labelCtrlList;
      var k := LabelWithId(labels, r.labelId);
      var labels' := labels[k := WithRow(labels[k], r.buf)];
      DbWithIdReplaced(v, i, labels', dbId);
      if i == DbWithId(v.dbs, dbId) {
        LabelWithIdReplaced(labels, k, labels'[k], labelId);
      }
    }
    if RowsIn(v, r, dbId, labelId) == [] {
      GainsNothing(v, v', dbId, labelId);
    }
  }

  // A request after which the table's database is still there changes the table only by the row it adds.
  lemma {:induction false} StepGains(v: CatView, r: Request, dbId: uint32, labelId: uint32)
    requires IdsInv(v) && NamesTable(v, dbId, labelId) && DbWithId(Step(v, r).0.dbs, dbId) < |Step(v, r).0.dbs|
    ensures GainsRows(v, Step(v, r).0, dbId, labelId, RowsIn(v, r, dbId, labelId))
  {
    match r {
      case CreateDb(name) => CreateDbGains(v, name, dbId, labelId);
      case DropDb(name) => DropDbGains(v, name, dbId, labelId);
      case CreateTable(inDb, labelName, fields) => CreateTableGains(v, inDb, labelName, fields, dbId, labelId);
      case InsertRow(_, _, _) => InsertRowGains(v, r, dbId, labelId);
    }
  }

  // ---- Every run ----

  // The rows a run adds to the table, in order.
  ghost function RowsOver(v: CatView, requests: seq<Request>, dbId: uint32, labelId: uint32): (rows: seq<seq<byte>>)
    decreases |requests|
  {
    if requests == [] then []
    else RowsIn(v, requests[0], dbId, labelId) + RowsOver(Step(v, requests[0]).0, requests[1..], dbId, labelId)
  }

  // Over any run that keeps the table's database, whatever else it does to other databases and tables,
  // the table gains exactly the rows of the inserts addressed to it that found room, in order.
  lemma {:induction false} RunGains(v: CatView, requests: seq<Request>, dbId: uint32, labelId: uint32)
    requires IdsInv(v) && NamesTable(v, dbId, labelId) && Run(v, requests).genNum <= TWO_TO_THE_32
    requires DbWithId(Run(v, requests).dbs, dbId) < |Run(v, requests).dbs|
    ensures GainsRows(v, Run(v, requests), dbId, labelId, RowsOver(v, requests, dbId, labelId))
    decreases |requests|
  {
    hide GainsRows, Step, RowsIn, IdsInv, DbWithId;
    if requests == [] {
      GainsNothing(v, v, dbId, labelId);
    } else {
      var r, rest := requests[0], requests[1..];
      var v' := Step(v, r).0;
      StillThere(v, requests, dbId);
      StepGains(v, r, dbId, labelId);
      CounterGrows(v', rest);
      StepKeepsIdsWithin(v, r);
      RunGains(v', rest, dbId, labelId);
      GainsInTurn(v, v', Run(v', rest), dbId, labelId, RowsIn(v, r, dbId, labelId), RowsOver(v', rest, dbId, labelId));
    }
  }

  // ---- Records ----

  // Inserts to the table carry the rows of these records, request by request; what the other requests
  // carry does not matter.
  ghost predicate Carry(requests: seq<Request>, records: seq<seq<Value>>, fields: seq<Field>, dbId: uint32,
                        labelId: uint32)
  {
    && |records| == |requests|
    && forall i :: 0 <= i < |requests| && AddressedTo(requests[i], dbId, labelId) ==>
         RowFits(fields, records[i]) && RowBytes(fields, records[i]) <= requests[i].buf
  }

  // The records the table accepts over the run.
  ghost function RecordsOver(v: CatView, requests: seq<Request>, records: seq<seq<Value>>, dbId: uint32,
                             labelId: uint32)
    : (history: seq<seq<Value>>)
    requires |records| == |requests|
    decreases |requests|
  {
    if requests == [] then []
    else (if RowsIn(v, requests[0], dbId, labelId) == [] then [] else [records[0]])
         + RecordsOver(Step(v, requests[0]).0, requests[1..], records[1..], dbId, labelId)
  }

  lemma CarryTail(requests: seq<Request>, records: seq<seq<Value>>, fields: seq<Field>, dbId: uint32, labelId: uint32)
    requires Carry(requests, records, fields, dbId, labelId) && requests != []
    ensures Carry(requests[1..], records[1..], fields, dbId, labelId)
  {
    var rest := requests[1..];
    assert forall i :: 0 <= i < |rest| ==> rest[i] == requests[i + 1] && records[1..][i] == records[i + 1];
  }

  lemma RowsOfCons(fields: seq<Field>, record: seq<Value>, history: seq<seq<Value>>)
    requires RowFits(fields, record) && AllFit(fields, history)
    ensures AllFit(fields, [record] + history)
    ensures RowsOf(fields, [record] + history) == [RowBytes(fields, record)] + RowsOf(fields, history)
  {
    AllFitTail(fields, [record] + history);
    assert ([record] + history)[1..] == history;
  }

  // ---- The table's page ----

  // The catalogue's list of rows is what the table's page holds: both have room for the same rows, and
  // appending to one is copying into the other.
  lemma CatalogueRowsAreHeapRows(table: SrLabel, h: HeapView, buf: seq<byte>)
    requires HeapInv(h) && 1 <= h.rowSize == RowSize(table) && Rows(h) == table.rows
    requires HasRoom(h) ==> RowSize(table) <= |buf|
    ensures RowRoom(table) <==> HasRoom(h)
    ensures HasRoom(h) ==> HeapInv(HeapInsert(h, buf)) && Rows(HeapInsert(h, buf)) == WithRow(table, buf).rows
  {
    if HasRoom(h) {
      InsertAppends(h, buf);
    }
  }

  // A table takes exactly as many rows as whole ones fit 4096 bytes.
  lemma TakesRowIff(v: CatView, dbId: uint32, labelId: uint32)
    requires NamesTable(v, dbId, labelId) && 1 <= Total(TableAt(v, dbId, labelId).fields) < TWO_TO_THE_32
    ensures var table := TableAt(v, dbId, labelId);
            TakesRow(v, dbId, labelId) <==> |table.rows| < 4096 / Total(table.fields)
  {
    var table := TableAt(v, dbId, labelId);
    WrapsIff(Total(table.fields));
    FitsIff(4096, |table.rows|, Total(table.fields));
  }

  // The request copies its record to the table's page: it is addressed to the table, whose page has room.
  ghost predicate Copies(v: CatView, r: Request, dbId: uint32, labelId: uint32, h: HeapView) {
    AddressedTo(r, dbId, labelId) && NamesTable(v, dbId, labelId) && HasRoom(h) && h.rowSize <= |r.buf|
  }

  ghost function HeapStep(v: CatView, r: Request, dbId: uint32, labelId: uint32, h: HeapView): (h': HeapView)
    requires SE_HEAP_PAGE_SIZE <= |h.page|
    ensures h'.rowSize == h.rowSize && |h'.page| == |h.page|
  {
    if Copies(v, r, dbId, labelId, h) then HeapInsert(h, r.buf) else h
  }

  // The table's heap after a run.
  ghost function HeapOver(v: CatView, requests: seq<Request>, dbId: uint32, labelId: uint32, h: HeapView)
    : (h': HeapView)
    requires SE_HEAP_PAGE_SIZE <= |h.page|
    decreases |requests|
  {
    if requests == [] then h
    else
      HeapOver(Step(v, requests[0]).0, requests[1..], dbId, labelId, HeapStep(v, requests[0], dbId, labelId, h))
  }

  // The heap holds what the catalogue says the table holds.
  ghost predicate HoldsTable(h: HeapView, v: CatView, dbId: uint32, labelId: uint32)
    requires NamesTable(v, dbId, labelId)
  {
    && HeapInv(h) && 1 <= h.rowSize == RowSize(TableAt(v, dbId, labelId))
    && Rows(h) == TableAt(v, dbId, labelId).rows
  }

  // One request changes heap and catalogue alike.
  lemma {:induction false} StepHolds(v: CatView, r: Request, dbId: uint32, labelId: uint32, h: HeapView)
    requires IdsInv(v) && NamesTable(v, dbId, labelId) && DbWithId(Step(v, r).0.dbs, dbId) < |Step(v, r).0.dbs|
    requires HoldsTable(h, v, dbId, labelId) && (AddressedTo(r, dbId, labelId) ==> h.rowSize <= |r.buf|)
    ensures Copies(v, r, dbId, labelId, h) <==> RowsIn(v, r, dbId, labelId) != []
    ensures NamesTable(Step(v, r).0, dbId, labelId)
    ensures TableAt(Step(v, r).0, dbId, labelId).fields == TableAt(v, dbId, labelId).fields
    ensures HoldsTable(HeapStep(v, r, dbId, labelId, h), Step(v, r).0, dbId, labelId)
  {
    hide Step, IdsInv, DbWithId, LabelWithId, NamesTable, RowAt, HeapInv, HasRoom, Splice;
    StepGains(v, r, dbId, labelId);
    var table := TableAt(v, dbId, labelId);
    assert table.rows + [] == table.rows;
    if AddressedTo(r, dbId, labelId) {
      CatalogueRowsAreHeapRows(table, h, r.buf);
    }
  }

  // Copying a record inserts its row.
  lemma {:induction false} CopyInserts(h: HeapView, buf: seq<byte>, row: seq<byte>, rest: seq<seq<byte>>)
    requires HeapInv(h) && HasRoom(h) && 1 <= h.rowSize == |row| <= |buf| && buf[..h.rowSize] == row
    requires HeapInv(HeapInsert(h, buf)) && (forall r :: r in rest ==> |r| == h.rowSize)
    requires AllRoom(HeapInsert(h, buf), rest)
    ensures AllRoom(h, [row] + rest) && InsertAll(h, [row] + rest) == InsertAll(HeapInsert(h, buf), rest)
  {
    var rows := [row] + rest;
    assert rows[0] == row && rows[1..] == rest && row[..h.rowSize] == row;
    assert HeapInsert(h, row) == HeapInsert(h, buf);
  }

  // One request inserts the row of its record, or none.
  lemma {:induction false} StepInserts(v: CatView, r: Request, record: seq<Value>, fields: seq<Field>, dbId: uint32,
                                       labelId: uint32, h: HeapView, later: seq<seq<Value>>)
    requires HeapInv(h) && HeapInv(HeapStep(v, r, dbId, labelId, h)) && 1 <= h.rowSize == Total(fields)
    requires AddressedTo(r, dbId, labelId) ==> RowFits(fields, record) && RowBytes(fields, record) <= r.buf
    requires AllFit(fields, later) && AllRoom(HeapStep(v, r, dbId, labelId, h), RowsOf(fields, later))
    ensures var history := (if Copies(v, r, dbId, labelId, h) then [record] else []) + later;
            && AllFit(fields, history) && AllRoom(h, RowsOf(fields, history))
            && InsertAll(h, RowsOf(fields, history))
               == InsertAll(HeapStep(v, r, dbId, labelId, h), RowsOf(fields, later))
  {
    assert RowFits(fields, record) ==> |record| == |fields|;
    hide RowFits, HeapInv, NamesTable, AllRoom, InsertAll, HasRoom, HeapInsert, AllFit, RowsOf;
    if Copies(v, r, dbId, labelId, h) {
      RowsOfCons(fields, record, later);
      CopyInserts(h, r.buf, RowBytes(fields, record), RowsOf(fields, later));
    } else {
      assert [] + later == later;
    }
  }

  // Over a run the heap changes by inserting the rows of the records accepted, and holds the table again.
  lemma {:induction false} HeapOverInserts(v: CatView, requests: seq<Request>, records: seq<seq<Value>>,
                                           fields: seq<Field>, dbId: uint32, labelId: uint32, h: HeapView)
    requires IdsInv(v) && NamesTable(v, dbId, labelId) && TableAt(v, dbId, labelId).fields == fields
    requires Run(v, requests).genNum <= TWO_TO_THE_32
    requires DbWithId(Run(v, requests).dbs, dbId) < |Run(v, requests).dbs|
    requires Carry(requests, records, fields, dbId, labelId) && HoldsTable(h, v, dbId, labelId)
    requires h.rowSize == Total(fields)
    ensures NamesTable(Run(v, requests), dbId, labelId)
    ensures HoldsTable(HeapOver(v, requests, dbId, labelId, h), Run(v, requests), dbId, labelId)
    ensures AllFit(fields, RecordsOver(v, requests, records, dbId, labelId))
    ensures var rows := RowsOf(fields, RecordsOver(v, requests, records, dbId, labelId));
            AllRoom(h, rows) && HeapOver(v, requests, dbId, labelId, h) == InsertAll(h, rows)
    decreases |requests|
  {
    if requests != [] {
      assert HeapInv(h);
      assert AddressedTo(requests[0], dbId, labelId) ==>
               RowFits(fields, records[0]) && RowBytes(fields, records[0]) <= requests[0].buf;
      hide Step, IdsInv, DbWithId, LabelWithId, RowBytes, RowFits, InsertAll, AllRoom, HasRoom, Rows, HeapStep;
      hide Copies, AllFit, RowsOf, Carry, RowsIn, TableAt;
      var r, rest := requests[0], requests[1..];
      var v', h' := Step(v, r).0, HeapStep(v, r, dbId, labelId, h);
      StillThere(v, requests, dbId);
      StepHolds(v, r, dbId, labelId, h);
      CounterGrows(v', rest);
      StepKeepsIdsWithin(v, r);
      CarryTail(requests, records, fields, dbId, labelId);
      HeapOverInserts(v', rest, records[1..], fields, dbId, labelId, h');
      StepInserts(v, r, records[0], fields, dbId, labelId, h, RecordsOver(v', rest, records[1..], dbId, labelId));
    }
  }

  // However requests to several databases and tables interleave: after any run that keeps its database, the
  // page of a table that was empty holds the rows of exactly the records addressed to that table and
  // accepted, in order, and the dump shows of each what is given.
  lemma {:induction false} EveryTableShowsItsRecords(v: CatView, requests: seq<Request>, records: seq<seq<Value>>,
                                                     fields: seq<Field>, dbId: uint32, labelId: uint32,
                                                     page: seq<byte>)
    requires IdsInv(v) && NamesTable(v, dbId, labelId) && TableAt(v, dbId, labelId).fields == fields
    requires TableAt(v, dbId, labelId).rows == [] && Run(v, requests).genNum <= TWO_TO_THE_32
    requires DbWithId(Run(v, requests).dbs, dbId) < |Run(v, requests).dbs|
    requires Carry(requests, records, fields, dbId, labelId)
    requires 1 <= Total(fields) < TWO_TO_THE_32 && 4096 <= |page|
    ensures NamesTable(Run(v, requests), dbId, labelId)
    ensures var h := HeapOver(v, requests, dbId, labelId, HeapView(page, 0, 0, Total(fields)));
            var history := RecordsOver(v, requests, records, dbId, labelId);
            && HoldsTable(h, Run(v, requests), dbId, labelId)
            && AllFit(fields, history) && RowStart(fields, |history|) <= |page|
            && h.rowCnt == |history| && h.page == MemoryAfter(page, fields, history)
            && forall k :: 0 <= k < |history| ==> RowShown(page, fields, history, k)
  {
    var h := HeapView(page, 0, 0, Total(fields));
    var history := RecordsOver(v, requests, records, dbId, labelId);
    hide RecordsOver, Run, NamesTable, Carry, IdsInv, DbWithId, HoldsTable, HeapOver, TableAt, AllFit, MemoryAfter;
    hide RowShown, RowStart, AllRoom, InsertAll, Rows, RowAt, HeapInv, Total;
    EmptyPageHolds(v, dbId, labelId, page);
    HeapOverInserts(v, requests, records, fields, dbId, labelId, h);
    RowsShown(fields, h, history);
  }

  lemma {:induction false} EmptyPageHolds(v: CatView, dbId: uint32, labelId: uint32, page: seq<byte>)
    requires NamesTable(v, dbId, labelId) && TableAt(v, dbId, labelId).rows == []
    requires 1 <= Total(TableAt(v, dbId, labelId).fields) < TWO_TO_THE_32 && 4096 <= |page|
    ensures var h := HeapView(page, 0, 0, Total(TableAt(v, dbId, labelId).fields));
            HeapInv(h) && HoldsTable(h, v, dbId, labelId)
  {
    hide NamesTable;
    WrapsIff(Total(TableAt(v, dbId, labelId).fields));
  }

  // Inserting the rows of records into an empty page.
  lemma {:induction false} RowsShown(fields: seq<Field>, h: HeapView, history: seq<seq<Value>>)
    requires HeapInv(h) && h.rowCnt == 0 && h.rowSize == Total(fields) && 1 <= Total(fields)
    requires AllFit(fields, history) && AllRoom(h, RowsOf(fields, history))
    ensures RowStart(fields, |history|) <= |h.page|
    ensures InsertAll(h, RowsOf(fields, history)).rowCnt == |history|
    ensures InsertAll(h, RowsOf(fields, history)).page == MemoryAfter(h.page, fields, history)
    ensures forall k :: 0 <= k < |history| ==> RowShown(h.page, fields, history, k)
  {
    hide RowBytes, RowFits, RowAt, InsertAll, AllRoom, RowShown;
    var rows := RowsOf(fields, history);
    HeapRefinesList(h, rows);
    InsertAllPage(h, rows);
    JoinedLength(rows, Total(fields));
    assert |Rows(InsertAll(h, rows))| == |history|;
    forall k | 0 <= k < |history|
      ensures RowShown(h.page, fields, history, k)
    {
      StoredRowShown(h.page, fields, history, k);
    }
  }
}
