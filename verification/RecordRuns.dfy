/** Histories of inserts through one statement that a client builds from a table's description: what the
    server's memory holds after them, and what the dump shows of every row. */
module RecordRuns {
  import opened Arith
  import opened Bytes
  import opened Schema
  import opened SeHeap
  import opened Record
  import opened Pipeline

  // ---- Inserts through one statement ----

  // The client's cached schema and the server's heap.
  datatype Session = Session(cached: seq<CliProperty>, heap: HeapView)

  ghost predicate SessionInv(fields: seq<Field>, s: Session) {
    SchemaAgrees(fields, s.cached) && HeapInv(s.heap) && s.heap.rowSize == Total(fields)
  }

  // One insert call is accepted by the client, and its row by the heap.
  ghost predicate CanInsert(s: Session, dbId: uint32, labelId: uint32, values: seq<Value>) {
    && |s.cached| == |values| && (forall j :: 0 <= j < |s.cached| ==> CacheOk(s.cached[j]))
    && AllAccepted(s.cached, values)
    && Room(BUF_SIZE, 12, Cached(s.cached, values), |s.cached|)
    && SE_HEAP_PAGE_SIZE <= |s.heap.page| && HasRoom(s.heap)
    && var msg := Message(dbId, labelId, Cached(s.cached, values));
       Unpackable(msg) && s.heap.rowSize <= |Payload(msg)|
  }

  // Client caches and packs, server unpacks and appends.
  ghost function Insert(s: Session, dbId: uint32, labelId: uint32, values: seq<Value>): (s': Session)
    requires CanInsert(s, dbId, labelId, values)
  {
    var cached := Cached(s.cached, values);
    Session(cached, HeapInsert(s.heap, Payload(Message(dbId, labelId, cached))))
  }

  ghost predicate CanInsertAll(s: Session, dbId: uint32, labelId: uint32, history: seq<seq<Value>>)
    decreases |history|
  {
    history == [] ||
    (&& CanInsert(s, dbId, labelId, history[0])
     && CanInsertAll(Insert(s, dbId, labelId, history[0]), dbId, labelId, history[1..]))
  }

  ghost function InsertHistory(s: Session, dbId: uint32, labelId: uint32, history: seq<seq<Value>>): (s': Session)
    requires CanInsertAll(s, dbId, labelId, history)
    decreases |history|
  {
    if history == [] then s
    else InsertHistory(Insert(s, dbId, labelId, history[0]), dbId, labelId, history[1..])
  }

  // An insert of arguments the client takes is accepted and copies their row, whatever was inserted
  // before.
  lemma {:induction false} InsertAppendsRow(fields: seq<Field>, s: Session, dbId: uint32, labelId: uint32,
                                            values: seq<Value>)
    requires SessionInv(fields, s) && RowFits(fields, values) && 1 <= Total(fields) && HasRoom(s.heap)
    ensures CanInsert(s, dbId, labelId, values)
    ensures SessionInv(fields, Insert(s, dbId, labelId, values))
    ensures Insert(s, dbId, labelId, values).heap == HeapInsert(s.heap, RowBytes(fields, values))
    ensures Rows(Insert(s, dbId, labelId, values).heap) == Rows(s.heap) + [RowBytes(fields, values)]
  {
    hide RowBytes, RowAt, Message, Payload, Image;
    InsertCaches(fields, s.cached, values);
    MessageCarriesRow(dbId, labelId, fields, Cached(s.cached, values), values);
    WholeRowAppended(s.heap, RowBytes(fields, values));
  }

  lemma WholeRowAppended(h: HeapView, row: seq<byte>)
    requires HeapInv(h) && HasRoom(h) && 1 <= h.rowSize == |row|
    ensures HeapInv(HeapInsert(h, row)) && Rows(HeapInsert(h, row)) == Rows(h) + [row]
  {
    InsertAppends(h, row);
    assert row[..h.rowSize] == row;
  }

  // The arguments are accepted, and the cache still agrees with the schema and now holds their images.
  lemma InsertCaches(fields: seq<Field>, cached: seq<CliProperty>, values: seq<Value>)
    requires SchemaAgrees(fields, cached) && AllTaken(fields, values)
    ensures (forall j :: 0 <= j < |cached| ==> CacheOk(cached[j])) && AllAccepted(cached, values)
    ensures SchemaAgrees(fields, Cached(cached, values)) && Cache(Cached(cached, values), values)
  {
    forall j | 0 <= j < |fields|
      ensures CacheOk(cached[j]) && Accepts(cached[j], values[j])
    {
      assert Agrees(fields[j], cached[j]) && Takes(fields[j], values[j]);
    }
    ReuseCarriesNothing(cached, values);
    forall j | 0 <= j < |fields|
      ensures Agrees(fields[j], Cached(cached, values)[j])
    {
      assert Agrees(fields[j], cached[j]);
    }
  }

  // ---- Any number of inserts ----

  ghost predicate AllFit(fields: seq<Field>, history: seq<seq<Value>>) {
    forall k :: 0 <= k < |history| ==> RowFits(fields, history[k])
  }

  ghost function RowsOf(fields: seq<Field>, history: seq<seq<Value>>): (rows: seq<seq<byte>>)
    requires AllFit(fields, history)
    ensures |rows| == |history|
    ensures forall k :: 0 <= k < |rows| ==> |rows[k]| == Total(fields)
  {
    seq(|history|, k requires 0 <= k < |history| => assert RowFits(fields, history[k]); RowBytes(fields, history[k]))
  }

  lemma AllFitTail(fields: seq<Field>, history: seq<seq<Value>>)
    requires AllFit(fields, history) && history != []
    ensures RowFits(fields, history[0]) && AllFit(fields, history[1..])
    ensures RowsOf(fields, history) == [RowBytes(fields, history[0])] + RowsOf(fields, history[1..])
  {
    assert |history[0]| == |fields| by { assert RowFits(fields, history[0]); }
    hide RowBytes, RowFits;
    var rest := history[1..];
    assert forall k :: 0 <= k < |rest| ==> rest[k] == history[k + 1] && RowFits(fields, history[k + 1]);
  }

  // Any number of inserts through cache, message and payload is accepted while the page has room, and
  // does to the heap what inserting their rows does: it appends them.
  lemma {:induction false} HistoryAppendsRows(fields: seq<Field>, s: Session, dbId: uint32, labelId: uint32,
                                              history: seq<seq<Value>>)
    requires SessionInv(fields, s) && 1 <= Total(fields) && AllFit(fields, history)
    requires s.heap.rowCnt + |history| <= 4096 / Total(fields)
    ensures CanInsertAll(s, dbId, labelId, history)
    ensures SessionInv(fields, InsertHistory(s, dbId, labelId, history))
    ensures Rows(InsertHistory(s, dbId, labelId, history).heap) == Rows(s.heap) + RowsOf(fields, history)
    ensures AllRoom(s.heap, RowsOf(fields, history))
    ensures InsertHistory(s, dbId, labelId, history).heap == InsertAll(s.heap, RowsOf(fields, history))
    decreases |history|
  {
    hide CanInsert, RowBytes, HeapInv, HasRoom, Insert, HeapInsert, RowFits, RowAt;
    HeapRefinesList(s.heap, RowsOf(fields, history));
    if history != [] {
      RoomIffBelowCapacity(s.heap);
      AllFitTail(fields, history);
      InsertAppendsRow(fields, s, dbId, labelId, history[0]);
      var s' := Insert(s, dbId, labelId, history[0]);
      HistoryAppendsRows(fields, s', dbId, labelId, history[1..]);
    }
  }

  // ---- The memory after them ----

  // Where row k starts.
  function RowStart(fields: seq<Field>, k: nat): (at: nat) {
    k * Total(fields)
  }

  lemma {:induction false} JoinedLength(rows: seq<seq<byte>>, rowSize: nat)
    requires forall k :: 0 <= k < |rows| ==> |rows[k]| == rowSize
    ensures |Join(rows)| == |rows| * rowSize
  {
    if rows != [] {
      JoinedLength(rows[..|rows| - 1], rowSize);
      MulStep(|rows| - 1, rowSize);
    }
  }

  // The rows one behind the other, and behind them what the memory held before.
  ghost function MemoryAfter(page: seq<byte>, fields: seq<Field>, history: seq<seq<Value>>): (mem: seq<byte>)
    requires AllFit(fields, history) && RowStart(fields, |history|) <= |page|
    ensures |mem| == |page|
    ensures mem[RowStart(fields, |history|)..] == page[RowStart(fields, |history|)..]
  {
    JoinedLength(RowsOf(fields, history), Total(fields));
    Splice(page, 0, Join(RowsOf(fields, history)))
  }

  lemma {:induction false} RowInMemory(page: seq<byte>, fields: seq<Field>, history: seq<seq<Value>>, k: nat)
    requires AllFit(fields, history) && RowStart(fields, |history|) <= |page| && k < |history|
    ensures RowStart(fields, k + 1) == RowStart(fields, k) + Total(fields) <= RowStart(fields, |history|)
    ensures |history[k]| == |fields|
    ensures MemoryAfter(page, fields, history)[RowStart(fields, k)..RowStart(fields, k) + Total(fields)]
            == RowBytes(fields, history[k])
  {
    assert RowFits(fields, history[k]);
    hide RowBytes, RowFits, Join, Total;
    MulStep(k, Total(fields));
    MulMono(k + 1, |history|, Total(fields));
    var rows := RowsOf(fields, history);
    JoinedLength(rows, Total(fields));
    JoinedLength(rows[..k], Total(fields));
    JoinPiece(rows, k);
    SpliceReads(page, 0, Join(rows));
    SliceOfSlice(MemoryAfter(page, fields, history), 0, Join(rows), RowStart(fields, k), RowStart(fields, k + 1));
  }

  // ---- What the dump shows of every row ----

  // The value is written out here: four little-endian bytes, or the characters and a NUL.
  predicate Spelled(mem: seq<byte>, at: nat, v: Value) {
    match v
    case IntValue(n) => at + 4 <= |mem| && mem[at..at + 4] == LE32(n)
    case StrValue(s) => at + |s| < |mem| && mem[at..at + |s|] == s && mem[at + |s|] == 0
  }

  // Every value, of its field's kind, is written out at its field.
  predicate RowSpelled(mem: seq<byte>, at: nat, fields: seq<Field>, xs: seq<Value>) {
    && |xs| == |fields|
    && forall j :: 0 <= j < |xs| ==>
         KindMatches(fields[j].fieldType, xs[j]) && Spelled(mem, at + Offset(fields, j), xs[j])
  }

  lemma ReadsIffSpelled(mem: seq<byte>, at: nat, fieldType: uint32, v: Value)
    requires Supported(fieldType)
    ensures Reads(mem, at, fieldType, v) <==> KindMatches(fieldType, v) && Spelled(mem, at, v)
  {
    match v {
      case IntValue(n) =>
        LE32RoundTrip(n);
        if fieldType == TYPE_INT32 && at + 4 <= |mem| {
          FromLE32RoundTrip(mem[at..at + 4]);
        }
      case StrValue(s) =>
        if at <= |mem| {
          StringIsSpelled(mem, at, s);
        }
    }
  }

  lemma StringIsSpelled(mem: seq<byte>, at: nat, s: CString)
    requires at <= |mem|
    ensures StrLen(mem[at..]) < |mem| - at && CStr(mem[at..]) == s <==> Spelled(mem, at, StrValue(s))
  {
    var u := mem[at..];
    if Spelled(mem, at, StrValue(s)) {
      assert u[..|s|] == s && u[|s|] == 0;
      StrLenIs(u, |s|);
    } else {
      var n := StrLen(u);
      assert u[..n] == mem[at..at + n] && (n < |u| ==> u[n] == mem[at + n]);
    }
  }

  // The dump shows exactly what is written out.
  lemma {:induction false} DumpsIffSpelled(mem: seq<byte>, at: nat, fields: seq<Field>, xs: seq<Value>)
    requires Total(fields) < TWO_TO_THE_32 && forall j :: 0 <= j < |fields| ==> Supported(fields[j].fieldType)
    ensures Dumps(mem, at, fields, xs) <==> RowSpelled(mem, at, fields, xs)
  {
    if |xs| == |fields| {
      hide Dumps, Reads, Spelled, KindMatches, Supported, Offset;
      DumpsIff(mem, at, fields, xs);
      forall j | 0 <= j < |fields|
        ensures Reads(mem, at + Offset(fields, j), fields[j].fieldType, xs[j])
                <==> KindMatches(fields[j].fieldType, xs[j]) && Spelled(mem, at + Offset(fields, j), xs[j])
      {
        ReadsIffSpelled(mem, at + Offset(fields, j), fields[j].fieldType, xs[j]);
      }
    } else if RowReadable(mem, at, Properties(fields)) {
      DumpedRowAt(mem, at, Properties(fields), |fields|);
    }
  }

  // Record k and the one behind it, if any, fit their fields.
  predicate HoldAround(fields: seq<Field>, history: seq<seq<Value>>, k: nat)
    requires k < |history|
  {
    AllHold(fields, history[k]) && (k + 1 < |history| ==> AllHold(fields, history[k + 1]))
  }

  // String j of record k fills its field.
  predicate FullString(fields: seq<Field>, values: seq<Value>, j: nat)
    requires j < |fields| == |values|
  {
    values[j].StrValue? && |values[j].s| == fields[j].fieldSize
  }

  // A NUL follows field j of record k: what puts the byte there is the next field of nonzero size in the
  // record, or the next record, or what the memory held before all inserts.
  predicate NulFollows(page: seq<byte>, fields: seq<Field>, history: seq<seq<Value>>, k: nat, j: nat)
    requires k < |history| && HoldAround(fields, history, k) && j < |fields|
  {
    match Leads(fields, history[k], j + 1)
    case Nul => true
    case Character => false
    case Nothing =>
      if k + 1 < |history| then Leads(fields, history[k + 1], 0) == Nul
      else RowStart(fields, k + 1) < |page| && page[RowStart(fields, k + 1)] == 0
  }

  // Every string of record k that fills its field is followed by a NUL.
  predicate StringsEnd(page: seq<byte>, fields: seq<Field>, history: seq<seq<Value>>, k: nat)
    requires k < |history| && HoldAround(fields, history, k)
  {
    forall j :: 0 <= j < |fields| && FullString(fields, history[k], j) ==> NulFollows(page, fields, history, k, j)
  }

  lemma {:induction false} StringEndsIff(page: seq<byte>, fields: seq<Field>, history: seq<seq<Value>>, k: nat, j: nat)
    requires AllFit(fields, history) && RowStart(fields, |history|) <= |page|
    requires k < |history| && HoldAround(fields, history, k) && j < |fields| && 1 <= Total(fields)
    requires |history[k]| == |fields| && FullString(fields, history[k], j)
    ensures Ends(MemoryAfter(page, fields, history), RowStart(fields, k) + Offset(fields, j), fields[j], history[k][j])
            <==> NulFollows(page, fields, history, k, j)
  {
    hide RowBytes, RowFits, MemoryAfter, AllHold, RowStart, Leads, Offset, Ends, FullString, RowsOf;
    if Leads(fields, history[k], j + 1) != Nothing {
      InnerStringEndsIff(page, fields, history, k, j);
    } else {
      LastStringEndsIff(page, fields, history, k, j);
    }
  }

  lemma {:induction false} InnerStringEndsIff(page: seq<byte>, fields: seq<Field>, history: seq<seq<Value>>, k: nat,
                                              j: nat)
    requires AllFit(fields, history) && RowStart(fields, |history|) <= |page|
    requires k < |history| && HoldAround(fields, history, k) && j < |fields|
    requires |history[k]| == |fields| && FullString(fields, history[k], j)
    requires Leads(fields, history[k], j + 1) != Nothing
    ensures Ends(MemoryAfter(page, fields, history), RowStart(fields, k) + Offset(fields, j), fields[j], history[k][j])
            <==> Leads(fields, history[k], j + 1) == Nul
  {
    hide RowBytes, RowFits, MemoryAfter, AllHold, RowStart, Leads, Offset, Ends, RowsOf, Total, AllFit;
    RowInMemory(page, fields, history, k);
    FullStringEndsIff(MemoryAfter(page, fields, history), RowStart(fields, k), fields, history[k], j);
  }

  lemma {:induction false} LastStringEndsIff(page: seq<byte>, fields: seq<Field>, history: seq<seq<Value>>, k: nat,
                                             j: nat)
    requires AllFit(fields, history) && RowStart(fields, |history|) <= |page|
    requires k < |history| && HoldAround(fields, history, k) && j < |fields| && 1 <= Total(fields)
    requires |history[k]| == |fields| && FullString(fields, history[k], j)
    requires Leads(fields, history[k], j + 1) == Nothing
    ensures Ends(MemoryAfter(page, fields, history), RowStart(fields, k) + Offset(fields, j), fields[j], history[k][j])
            <==> NulFollows(page, fields, history, k, j)
  {
    assert AllHold(fields, history[k]);
    hide RowBytes, RowFits, MemoryAfter, AllHold, RowStart, Leads, Offset, RowsOf, Total, AllFit;
    OffsetStep(fields, j);
    LeadsIs(fields, history[k], j + 1);
    RowInMemory(page, fields, history, k);
    assert RowStart(fields, k) + Offset(fields, j) + fields[j].fieldSize == RowStart(fields, k + 1);
    ByteBehindRow(page, fields, history, k);
  }

  // The byte behind row k.
  lemma {:induction false} ByteBehindRow(page: seq<byte>, fields: seq<Field>, history: seq<seq<Value>>, k: nat)
    requires AllFit(fields, history) && RowStart(fields, |history|) <= |page|
    requires k < |history| && HoldAround(fields, history, k) && 1 <= Total(fields)
    ensures k + 1 < |history| ==> |history[k + 1]| == |fields|
    ensures var mem, next := MemoryAfter(page, fields, history), RowStart(fields, k + 1);
            next < |mem| && mem[next] == 0
            <==> if k + 1 < |history| then Leads(fields, history[k + 1], 0) == Nul
                 else next < |page| && page[next] == 0
  {
    hide RowBytes, RowFits, MemoryAfter, AllHold, RowStart, Leads;
    var mem, next := MemoryAfter(page, fields, history), RowStart(fields, k + 1);
    if k + 1 < |history| {
      assert AllHold(fields, history[k + 1]);
      RowInMemory(page, fields, history, k + 1);
      LeadsIs(fields, history[k + 1], 0);
      assert mem[next..next + Total(fields)][0] == mem[next];
    } else if next < |page| {
      assert mem[next..][0] == mem[next] && page[next..][0] == page[next];
    }
  }

  // The dump of row k shows the values written out in memory there and no others.  When the record, and
  // the next one if there is one, fit their fields, it shows the record, integers cut at their first zero
  // byte, if and only if strings that fill their fields are followed by a NUL; and exactly as inserted if
  // and only if, besides, no integer has a zero byte below a nonzero one.
  ghost predicate RowShown(page: seq<byte>, fields: seq<Field>, history: seq<seq<Value>>, k: nat)
    requires AllFit(fields, history) && RowStart(fields, |history|) <= |page| && k < |history|
  {
    var mem, at := MemoryAfter(page, fields, history), RowStart(fields, k);
    && (forall xs :: Dumps(mem, at, fields, xs) <==> RowSpelled(mem, at, fields, xs))
    && (HoldAround(fields, history, k) ==>
          && (Dumps(mem, at, fields, ShownRow(history[k])) <==> StringsEnd(page, fields, history, k))
          && (Dumps(mem, at, fields, history[k]) <==> StringsEnd(page, fields, history, k) && AllDense(history[k])))
  }

  lemma {:induction false} RowEndsIff(page: seq<byte>, fields: seq<Field>, history: seq<seq<Value>>, k: nat)
    requires AllFit(fields, history) && RowStart(fields, |history|) <= |page|
    requires k < |history| && HoldAround(fields, history, k) && 1 <= Total(fields) && |history[k]| == |fields|
    ensures RowEnds(MemoryAfter(page, fields, history), RowStart(fields, k), fields, history[k])
            <==> StringsEnd(page, fields, history, k)
  {
    hide RowFits, MemoryAfter, NulFollows, AllHold, RowStart, Offset;
    var mem, at := MemoryAfter(page, fields, history), RowStart(fields, k);
    forall j | 0 <= j < |fields|
      ensures Ends(mem, at + Offset(fields, j), fields[j], history[k][j])
              <==> FullString(fields, history[k], j) ==> NulFollows(page, fields, history, k, j)
    {
      if FullString(fields, history[k], j) {
        StringEndsIff(page, fields, history, k, j);
      }
    }
  }

  lemma {:induction false} StoredRowShown(page: seq<byte>, fields: seq<Field>, history: seq<seq<Value>>, k: nat)
    requires AllFit(fields, history) && RowStart(fields, |history|) <= |page| && k < |history|
    requires 1 <= Total(fields) < TWO_TO_THE_32
    ensures RowShown(page, fields, history, k)
  {
    assert RowFits(fields, history[k]);
    assert forall j :: 0 <= j < |fields| ==> Takes(fields[j], history[k][j]) && Supported(fields[j].fieldType);
    hide RowBytes, RowFits, Dumps, MemoryAfter, RowSpelled, StringsEnd, RowEnds, AllHold, Supported;
    var mem, at := MemoryAfter(page, fields, history), RowStart(fields, k);
    forall xs
      ensures Dumps(mem, at, fields, xs) <==> RowSpelled(mem, at, fields, xs)
    {
      DumpsIffSpelled(mem, at, fields, xs);
    }
    RowInMemory(page, fields, history, k);
    if HoldAround(fields, history, k) {
      assert AllHold(fields, history[k]);
      RowReadsBack(mem, at, fields, history[k]);
      RowEndsIff(page, fields, history, k);
    }
  }

  // ---- From the table's description to the dump ----

  // The ids the server assigned, the memory from its reply buffer on and where in it the description
  // stands, and the memory from the table's page on.
  datatype Setup = Setup(dbId: uint32, labelId: uint32, reply: seq<byte>, cur: nat, page: seq<byte>)

  ghost predicate SetupOk(fields: seq<Field>, u: Setup) {
    && |fields| <= 30 && ShortNames(fields) && 1 <= Total(fields) < TWO_TO_THE_32
    && u.cur + |TableBytes(fields)| <= |u.reply| && 4096 <= |u.page|
  }

  // A fresh cache agrees with the schema it was built from.
  lemma ClientViewsAgree(fields: seq<Field>)
    requires ShortNames(fields)
    ensures SchemaAgrees(fields, ClientViews(fields))
  {
    forall j | 0 <= j < |fields|
      ensures Agrees(fields[j], ClientViews(fields)[j])
    {
      StrLenIs(ClientView(fields[j]).value, 0);
    }
  }

  // The session a client starts by parsing the description of a new table.
  ghost function NewSession(fields: seq<Field>, u: Setup): (s: Session)
    requires SetupOk(fields, u)
    ensures SessionInv(fields, s) && s.heap.page == u.page && s.heap.rowCnt == 0
  {
    SchemaRoundTrip(u.reply, u.cur, fields);
    ClientViewsAgree(fields);
    var wire := Splice(u.reply, u.cur, TableBytes(fields));
    Session(ReadFields(wire, u.cur + 4, |fields|).0, HeapView(u.page, 0, 0, Total(fields)))
  }

  ghost predicate Accepted(fields: seq<Field>, u: Setup, history: seq<seq<Value>>)
    requires SetupOk(fields, u)
  {
    CanInsertAll(NewSession(fields, u), u.dbId, u.labelId, history)
  }

  ghost function HeapAfter(fields: seq<Field>, u: Setup, history: seq<seq<Value>>): (heap: HeapView)
    requires SetupOk(fields, u) && Accepted(fields, u, history)
  {
    InsertHistory(NewSession(fields, u), u.dbId, u.labelId, history).heap
  }

  // Every table the server describes, every history of records the client takes, inserted through the one
  // statement built from that description, every row: through the client's own layout, the copy by
  // strlen, the reused value buffers and memory of arbitrary contents, the memory afterwards is that of
  // the rows one behind the other, and the dump shows of each what is given.
  lemma {:induction false} EveryRowReadsBack(fields: seq<Field>, u: Setup, history: seq<seq<Value>>)
    requires SetupOk(fields, u) && AllFit(fields, history) && RowStart(fields, |history|) <= 4096
    ensures Accepted(fields, u, history) && HeapAfter(fields, u, history).rowCnt == |history|
    ensures HeapAfter(fields, u, history).page == MemoryAfter(u.page, fields, history)
    ensures forall k :: 0 <= k < |history| ==> RowShown(u.page, fields, history, k)
  {
    HistoryStored(fields, NewSession(fields, u), u.dbId, u.labelId, history);
    forall k | 0 <= k < |history|
      ensures RowShown(u.page, fields, history, k)
    {
      StoredRowShown(u.page, fields, history, k);
    }
  }

  // The memory after a history from any session on an empty page.
  lemma {:induction false} HistoryStored(fields: seq<Field>, s: Session, dbId: uint32, labelId: uint32,
                                         history: seq<seq<Value>>)
    requires SessionInv(fields, s) && s.heap.rowCnt == 0 && 1 <= Total(fields)
    requires AllFit(fields, history) && RowStart(fields, |history|) <= 4096
    ensures CanInsertAll(s, dbId, labelId, history)
    ensures RowStart(fields, |history|) <= |s.heap.page|
    ensures var heap := InsertHistory(s, dbId, labelId, history).heap;
            heap.rowCnt == |history| && heap.page == MemoryAfter(s.heap.page, fields, history)
  {
    assert HeapInv(s.heap) && s.heap.currPos == 0;
    hide RowBytes, RowFits, SessionInv;
    CapacityIsMax(|history|, Total(fields));
    HistoryAppendsRows(fields, s, dbId, labelId, history);
    InsertAllPage(s.heap, RowsOf(fields, history));
    var heap := InsertHistory(s, dbId, labelId, history).heap;
    assert |Rows(heap)| == |history|;
  }

  // ---- Witnesses ----

  // The main result at the first row.
  lemma {:induction false} FirstRowShown(fields: seq<Field>, u: Setup, history: seq<seq<Value>>, xs: seq<Value>)
    requires SetupOk(fields, u) && AllFit(fields, history)
    requires history != [] && HoldAround(fields, history, 0) && RowStart(fields, |history|) <= 4096
    ensures Accepted(fields, u, history)
    ensures var page := HeapAfter(fields, u, history).page;
            && (Dumps(page, 0, fields, ShownRow(history[0])) <==> StringsEnd(u.page, fields, history, 0))
            && (Dumps(page, 0, fields, history[0]) <==> StringsEnd(u.page, fields, history, 0) && AllDense(history[0]))
            && (Dumps(page, 0, fields, xs) <==> RowSpelled(MemoryAfter(u.page, fields, history), 0, fields, xs))
  {
    assert 4096 <= |u.page|;
    hide HeapAfter, Accepted, SetupOk, Dumps, AllFit, StringsEnd, HoldAround, MemoryAfter, RowSpelled, AllDense;
    EveryRowReadsBack(fields, u, history);
    assert RowShown(u.page, fields, history, 0) && RowStart(fields, 0) == 0;
  }

  // Any string of at most 63 characters, into a longer field, is taken and shown as inserted.
  lemma {:induction false} ShorterStringShown(u: Setup, s: CString, size: uint32)
    requires u.cur + 17 <= |u.reply| && 4096 <= |u.page| && |s| <= 63 && |s| < size <= 1012
    ensures var fields, values := [Field([97], 1, size)], [StrValue(s)];
            && SetupOk(fields, u) && Accepted(fields, u, [values])
            && Dumps(HeapAfter(fields, u, [values]).page, 0, fields, values)
  {
    var fields, values := [Field([97], TYPE_STRING, size)], [StrValue(s)];
    OneField(fields[0]);
    HoldingRowFits(fields, values);
    assert AllFit(fields, [values]) && HoldAround(fields, [values], 0) && RowStart(fields, 0) == 0;
    assert SetupOk(fields, u) && StringsEnd(u.page, fields, [values], 0) && AllDense(values);
    hide HeapAfter, Accepted, SetupOk, Dumps, AllFit, StringsEnd, HoldAround, MemoryAfter, RowSpelled, ShownRow;
    FirstRowShown(fields, u, [values], []);
  }

  // The smallest integer the copy damages, inserted into a table of one integer field: 256, whose lowest
  // byte is zero, is shown as 0.
  lemma {:induction false} IntegerDamaged(u: Setup)
    requires u.cur + 17 <= |u.reply| && 4096 <= |u.page|
    ensures var fields, history := [Field([97], TYPE_INT32, 4)], [[IntValue(256)]];
            && SetupOk(fields, u) && Accepted(fields, u, history)
            && Dumps(HeapAfter(fields, u, history).page, 0, fields, [IntValue(0)])
  {
    var fields, history := [Field([97], TYPE_INT32, 4)], [[IntValue(256)]];
    OneField(fields[0]);
    LowByteZero();
    HoldingRowFits(fields, history[0]);
    assert AllFit(fields, history) && HoldAround(fields, history, 0) && RowStart(fields, 0) == 0;
    assert SetupOk(fields, u) && StringsEnd(u.page, fields, history, 0);
    assert ShownRow(history[0]) == [IntValue(0)];
    hide HeapAfter, Accepted, SetupOk, Dumps, AllFit, StringsEnd, HoldAround, MemoryAfter, RowSpelled, ShownRow;
    FirstRowShown(fields, u, history, []);
  }

  // A string that fills its field, inserted in front of an integer: "a" before 1 is not shown as it was.
  lemma {:induction false} FullStringDamaged(u: Setup)
    requires u.cur + 30 <= |u.reply| && 4096 <= |u.page|
    ensures var fields := [Field([97], TYPE_STRING, 1), Field([98], TYPE_INT32, 4)];
            var values := [StrValue([97]), IntValue(1)];
            && SetupOk(fields, u) && Accepted(fields, u, [values])
            && !Dumps(HeapAfter(fields, u, [values]).page, 0, fields, values)
  {
    var fields := [Field([97], TYPE_STRING, 1), Field([98], TYPE_INT32, 4)];
    var values := [StrValue([97]), IntValue(1)];
    TwoFields(fields[0], fields[1]);
    HoldingRowFits(fields, values);
    assert AllFit(fields, [values]) && HoldAround(fields, [values], 0) && RowStart(fields, 0) == 0;
    OneIsNotCut();
    assert SetupOk(fields, u) && FullString(fields, values, 0) && !NulFollows(u.page, fields, [values], 0, 0);
    assert !StringsEnd(u.page, fields, [values], 0);
    hide HeapAfter, Accepted, SetupOk, Dumps, AllFit, StringsEnd, HoldAround, MemoryAfter, RowSpelled, ShownRow;
    FirstRowShown(fields, u, [values], []);
  }

  // In a table of one string field of one byte on cleared memory: what rows of "a" and of "a", "b" read as.
  lemma {:induction false} OneByteStrings(page: seq<byte>, fields: seq<Field>, a: seq<Value>, b: seq<Value>)
    requires 4096 <= |page| && page[1] == 0 && page[2] == 0
    requires fields == [Field([97], TYPE_STRING, 1)] && a == [StrValue([97])] && b == [StrValue([98])]
    ensures AllFit(fields, [a]) && HoldAround(fields, [a], 0) && AllFit(fields, [a, b]) && HoldAround(fields, [a, b], 0)
    ensures RowStart(fields, 0) == 0 && RowStart(fields, 1) == 1 && RowStart(fields, 2) == 2
    ensures StringsEnd(page, fields, [a], 0) && AllDense(a) && !StringsEnd(page, fields, [a, b], 0)
  {
    OneField(fields[0]);
    HoldingRowFits(fields, a);
    HoldingRowFits(fields, b);
    assert FullString(fields, a, 0) && NulFollows(page, fields, [a], 0, 0) && !NulFollows(page, fields, [a, b], 0, 0);
  }

  // Where those rows stand, so does "ab".
  lemma {:induction false} JoinedStringsSpelled(page: seq<byte>, fields: seq<Field>, a: seq<Value>, b: seq<Value>)
    requires 4096 <= |page| && page[2] == 0 && AllFit(fields, [a, b]) && Total(fields) == 1
    requires fields == [Field([97], TYPE_STRING, 1)] && a == [StrValue([97])] && b == [StrValue([98])]
    ensures RowSpelled(MemoryAfter(page, fields, [a, b]), 0, fields, [StrValue([97, 98])])
  {
    assert AllHold(fields, a) && AllHold(fields, b) && Offset(fields, 0) == 0;
    hide RowBytes, AllFit, MemoryAfter, AllHold;
    var mem := MemoryAfter(page, fields, [a, b]);
    RowInMemory(page, fields, [a, b], 0);
    RowInMemory(page, fields, [a, b], 1);
    RowFieldAt(fields, a, 0);
    RowFieldAt(fields, b, 0);
    assert mem[0] == mem[0..1][0] == 97 && mem[1] == mem[1..2][0] == 98 && mem[2] == mem[2..][0] == page[2..][0];
  }

  // A later insert changes how an earlier row reads: in a table of one string field of one byte, on
  // cleared memory, the row of "a" is shown as inserted, and as "ab" once "b" is inserted too.
  lemma {:induction false} LaterInsertDamages(u: Setup)
    requires u.cur + 17 <= |u.reply| && 4096 <= |u.page| && u.page[1] == 0 && u.page[2] == 0
    ensures var fields, a, b := [Field([97], TYPE_STRING, 1)], [StrValue([97])], [StrValue([98])];
            && SetupOk(fields, u) && Accepted(fields, u, [a]) && Accepted(fields, u, [a, b])
            && Dumps(HeapAfter(fields, u, [a]).page, 0, fields, a)
            && !Dumps(HeapAfter(fields, u, [a, b]).page, 0, fields, a)
            && Dumps(HeapAfter(fields, u, [a, b]).page, 0, fields, [StrValue([97, 98])])
  {
    var fields, a, b := [Field([97], TYPE_STRING, 1)], [StrValue([97])], [StrValue([98])];
    OneField(fields[0]);
    assert SetupOk(fields, u);
    hide HeapAfter, Accepted, SetupOk, Dumps, AllFit, StringsEnd, HoldAround, MemoryAfter, RowSpelled, ShownRow;
    hide RowStart, AllDense;
    OneByteStrings(u.page, fields, a, b);
    JoinedStringsSpelled(u.page, fields, a, b);
    FirstRowShown(fields, u, [a], []);
    FirstRowShown(fields, u, [a, b], [StrValue([97, 98])]);
  }

  lemma {:induction false} TwoFields(f: Field, g: Field)
    requires |f.name| < TWO_TO_THE_32 && |g.name| < TWO_TO_THE_32
    ensures Total([f, g]) == f.fieldSize + g.fieldSize && |TableBytes([f, g])| == 28 + |f.name| + |g.name|
  {
    OneField(f);
    FieldsBytesLength([f]);
    FieldsBytesLength([f, g]);
    assert [f, g][..1] == [f];
  }

  lemma {:induction false} OneField(f: Field)
    requires |f.name| < TWO_TO_THE_32
    ensures Total([f]) == f.fieldSize && |TableBytes([f])| == 16 + |f.name|
  {
    assert [f][..0] == [];
    FieldsBytesLength([f]);
  }

  lemma OneIsNotCut()
    ensures Image(IntValue(1)) != []
  {
    assert LE32(1)[0] == 1;
  }

  lemma LowByteZero()
    ensures Surviving(256) == 0
  {
    assert LE32(256)[0] == 0;
    assert NonzeroRun(256) == 0;
  }
}
