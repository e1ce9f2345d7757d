/** Insert and query-table requests on the whole server: catalogue, message and memory pool
    together. */
module Requests {
  import opened Arith
  import opened Bytes
  import opened Blocks
  import opened PoolState
  import opened PoolRuns
  import opened KvMemory
  import opened SeriUtils
  import opened Schema
  import opened Record
  import opened Pipeline
  import opened Catalogue
  import opened SprManager

  const STMT_SIZE: nat := 48        // sizeof(QryStmtT)
  const PROPERTY_SIZE: nat := 76    // sizeof(SrPropertyT)

  // What malloc would answer for the statement and for the second allocation of a request, and the
  // words the server writes into the two blocks.
  datatype Memory = Memory(osStmt: nat, osSecond: nat, stmtWords: seq<Word>, secondWords: seq<Word>)

  // Statement first, then a second block of n bytes; released in the opposite order under the sizes
  // they were allocated with.
  function RequestWork(n: nat, mem: Memory): (w: Work) {
    Bracket(STMT_SIZE, STMT_SIZE, mem.osStmt, mem.stmtWords,
            Bracket(n, n, mem.osSecond, mem.secondWords, Idle, Idle), Idle)
  }

  // The pool with only the statement, or with both blocks, allocated.
  ghost function StmtHeld(s: PoolState, mem: Memory): (t: PoolState)
    requires Shape(s)
    ensures Shape(t)
  {
    Filled(MemAlloc(s, STMT_SIZE, mem.osStmt), mem.stmtWords)
  }

  ghost function BothHeld(s: PoolState, n: nat, mem: Memory): (t: PoolState)
    requires Shape(s)
    ensures Shape(t)
  {
    Filled(MemAlloc(StmtHeld(s, mem), n, mem.osSecond), mem.secondWords)
  }

  ghost predicate StmtAllocatable(s: PoolState, mem: Memory)
    requires Shape(s)
  {
    OsFresh(s, mem.osStmt, STMT_SIZE) && |mem.stmtWords| <= STMT_SIZE / 8
  }

  lemma StmtClass()
    ensures STMT_SIZE == 48 && ChooseSlotBlockIdByAllocSize(STMT_SIZE) == 3 && Cells(3) == 8
  {
  }

  lemma StmtHeldInv(s: PoolState, mem: Memory)
    requires Inv(s) && StmtAllocatable(s, mem)
    ensures MayFill(MemAlloc(s, STMT_SIZE, mem.osStmt).0, MemAlloc(s, STMT_SIZE, mem.osStmt).1, |mem.stmtWords|)
    ensures Inv(StmtHeld(s, mem))
    ensures exists p, len :: Live(StmtHeld(s, mem), p, len) && !Live(s, p, len)
  {
    StmtClass();
    HeldInv(s, STMT_SIZE, mem.osStmt, mem.stmtWords);
  }

  // One allocated and filled block: the invariant holds and the block is outstanding.
  lemma HeldInv(s: PoolState, n: nat, osPtr: nat, words: seq<Word>)
    requires Inv(s) && OsFresh(s, osPtr, n)
    requires ChooseSlotBlockIdByAllocSize(n) < CLASS_CNT ==> |words| <= Cells(ChooseSlotBlockIdByAllocSize(n))
    ensures MayFill(MemAlloc(s, n, osPtr).0, MemAlloc(s, n, osPtr).1, |words|)
    ensures Inv(Filled(MemAlloc(s, n, osPtr), words))
    ensures exists p, len :: Live(Filled(MemAlloc(s, n, osPtr), words), p, len) && !Live(s, p, len)
    ensures forall p, len :: Live(s, p, len) ==> Live(Filled(MemAlloc(s, n, osPtr), words), p, len)
  {
    var a := MemAlloc(s, n, osPtr);
    MemAllocKeepsInv(s, n, osPtr);
    NewBlockMayBeFilled(s, n, osPtr, |words|);
    if InArena(s.base, a.1) {
      var c, i :| LiveBlock(a.0, a.1, c, i) && |words| <= Cells(c);
      FilledKeepsInv(a.0, a.1, c, i, words);
    }
    var t := Filled(a, words);
    AllocIsNotNeutral(s, n, osPtr);
    var p, len :| Live(a.0, p, len) && !Live(s, p, len);
    BookkeepingDecidesLive(t, a.0, p, len);
    forall q, m | Live(s, q, m)
      ensures Live(t, q, m)
    {
      AllocKeepsLive(s, n, osPtr, q, m);
      BookkeepingDecidesLive(t, a.0, q, m);
    }
  }

  // The block is as long as was asked for.
  lemma HeldBlockFits(s: PoolState, n: nat, osPtr: nat, words: seq<Word>)
    requires Inv(s) && OsFresh(s, osPtr, n)
    ensures exists len :: Live(Filled(MemAlloc(s, n, osPtr), words), MemAlloc(s, n, osPtr).1, len) && n <= len
  {
    var a := MemAlloc(s, n, osPtr);
    AllocGivesFreshBlock(s, n, osPtr);
    var len := if InArena(s.base, a.1) then GetSlotBlockSizeByIdx(ChooseSlotBlockIdByAllocSize(n)) else n;
    assert Live(a.0, a.1, len) && n <= len;
    BookkeepingDecidesLive(Filled(a, words), a.0, a.1, len);
  }

  // Outstanding blocks mean different bookkeeping.
  lemma LeakIsNotNeutral(s: PoolState, t: PoolState)
    requires Shape(s) && Shape(t) && exists p, len :: Live(t, p, len) && !Live(s, p, len)
    ensures !SameBookkeeping(t, s)
  {
    var p, len :| Live(t, p, len) && !Live(s, p, len);
    if SameBookkeeping(t, s) {
      BookkeepingDecidesLive(t, s, p, len);
    }
  }

  // ---- What a request does to the pool ----

  // An insert of an n-byte payload holds both its blocks when it is turned away.
  ghost function InsertEffect(s: PoolState, v: CatView, dbId: uint32, labelId: uint32, n: nat, mem: Memory)
    : (t: PoolState)
    requires Shape(s)
    ensures Shape(t)
  {
    if TakesRow(v, dbId, labelId) then Perform(s, RequestWork(n, mem)) else BothHeld(s, n, mem)
  }

  // Bytes of the copy of a table's properties.
  function PropertiesSize(v: CatView, dbId: uint32, labelId: uint32): (n: nat)
    requires NamesTable(v, dbId, labelId)
  {
    |TableAt(v, dbId, labelId).fields| * PROPERTY_SIZE
  }

  // A query that finds no table holds its statement.
  ghost function QueryEffect(s: PoolState, v: CatView, dbId: uint32, labelId: uint32, mem: Memory): (t: PoolState)
    requires Shape(s)
    ensures Shape(t)
  {
    if NamesTable(v, dbId, labelId) then Perform(s, RequestWork(PropertiesSize(v, dbId, labelId), mem))
    else StmtHeld(s, mem)
  }

  // The pool and its malloc serve the request.
  ghost predicate Servable(s: PoolState, n: nat, mem: Memory)
    requires Shape(s)
  {
    StmtAllocatable(s, mem) && WellBracketed(s, RequestWork(n, mem))
  }

  ghost predicate QueryServable(s: PoolState, v: CatView, dbId: uint32, labelId: uint32, mem: Memory)
    requires Shape(s)
  {
    && StmtAllocatable(s, mem)
    && (NamesTable(v, dbId, labelId) ==> Servable(s, PropertiesSize(v, dbId, labelId), mem))
  }

  // An insert leaves every list of the pool as it was if and only if its ids name a table with room.
  lemma InsertNeutralIff(s: PoolState, v: CatView, dbId: uint32, labelId: uint32, n: nat, mem: Memory)
    requires Inv(s) && Servable(s, n, mem)
    ensures Inv(InsertEffect(s, v, dbId, labelId, n, mem))
    ensures SameBookkeeping(InsertEffect(s, v, dbId, labelId, n, mem), s) <==> TakesRow(v, dbId, labelId)
  {
    WellBracketedIsNeutral(s, RequestWork(n, mem));
    SecondHeld(s, n, mem);
  }

  // A query leaves every list of the pool as it was if and only if its ids name a table.
  lemma QueryNeutralIff(s: PoolState, v: CatView, dbId: uint32, labelId: uint32, mem: Memory)
    requires Inv(s) && QueryServable(s, v, dbId, labelId, mem)
    ensures Inv(QueryEffect(s, v, dbId, labelId, mem))
    ensures SameBookkeeping(QueryEffect(s, v, dbId, labelId, mem), s) <==> NamesTable(v, dbId, labelId)
  {
    if NamesTable(v, dbId, labelId) {
      WellBracketedIsNeutral(s, RequestWork(PropertiesSize(v, dbId, labelId), mem));
    } else {
      StmtHeldInv(s, mem);
      LeakIsNotNeutral(s, StmtHeld(s, mem));
    }
  }

  // While a query that finds its table runs, it holds a block with room for 76 bytes for each field copied;
  // the statement and that block, in this order, are all it allocates.
  lemma {:induction false} QueryHoldsCopy(s: PoolState, v: CatView, dbId: uint32, labelId: uint32, mem: Memory)
    requires Inv(s) && QueryServable(s, v, dbId, labelId, mem) && NamesTable(v, dbId, labelId)
    ensures var n := 76 * |TableAt(v, dbId, labelId).fields|;
            var t, p := BothHeld(s, n, mem), MemAlloc(StmtHeld(s, mem), n, mem.osSecond).1;
            && (exists len :: Live(t, p, len) && n <= len)
            && QueryEffect(s, v, dbId, labelId, mem)
               == MemFree(MemFree(t, p, n), MemAlloc(s, 48, mem.osStmt).1, 48)
  {
    hide Inv, WellBracketed, MemAlloc, MemFree, Perform, BothHeld, StmtHeld, TableAt, NamesTable;
    SecondHeld(s, PropertiesSize(v, dbId, labelId), mem);
  }

  // A concrete failure: on a fresh pool, with one database and no table, a query keeps the first 64-byte
  // block for good.
  lemma RejectedQueryHoldsBlock(s: PoolState, mem: Memory, dbId: uint32, labelId: uint32)
    requires Initial(s) && StmtAllocatable(s, mem)
    ensures var v := CreateDbStep(INITIAL_CATALOGUE, NAME_A).0;
            var t := QueryEffect(s, v, dbId, labelId, mem);
            && v.managed && |v.dbs| == 1 && !NamesTable(v, dbId, labelId)
            && LiveBlock(t, Ptr(s.base, PAGE_CELLS * 3), 3, PAGE_CELLS * 3)
            && !LiveBlock(s, Ptr(s.base, PAGE_CELLS * 3), 3, PAGE_CELLS * 3)
            && |t.free[3]| == 63 && |s.free[3]| == 64
  {
    InitialInv(s);
    StmtClass();
    AllBlocksComplete(PAGE_CELLS * 3, 3);
    AllocGivesFreshBlock(s, STMT_SIZE, mem.osStmt);
  }

  // The same for an insert: one of a record of five bytes keeps the first 64-byte block and the first
  // 8-byte block.
  lemma {:induction false} RejectedInsertHoldsBoth(s: PoolState, mem: Memory, dbId: uint32, labelId: uint32)
    requires Initial(s) && Servable(s, 5, mem)
    ensures var v := CreateDbStep(INITIAL_CATALOGUE, NAME_A).0;
            var t := InsertEffect(s, v, dbId, labelId, 5, mem);
            && v.managed && |v.dbs| == 1 && !TakesRow(v, dbId, labelId)
            && LiveBlock(t, Ptr(s.base, PAGE_CELLS * 3), 3, PAGE_CELLS * 3) && LiveBlock(t, Ptr(s.base, 0), 0, 0)
            && s.live[3] == s.live[0] == {}
            && |t.free[3]| == 63 && |s.free[3]| == 64 && |t.free[0]| == 511 && |s.free[0]| == 512
  {
    hide WellBracketed, Filled;
    InitialInv(s);
    StmtClass();
    assert ChooseSlotBlockIdByAllocSize(5) == 0 && Cells(0) == 1;
    AllBlocksComplete(PAGE_CELLS * 3, 3);
    AllBlocksComplete(0, 0);
    AllocGivesFreshBlock(s, STMT_SIZE, mem.osStmt);
    var s1 := StmtHeld(s, mem);
    assert s1.free[0] == s.free[0] && s1.live[0] == {} && s1.base == s.base;
  }

  // ---- Insert ----

  // What the heap copies: the start of the payload, and if that is shorter than a row, what memory holds
  // behind it as well.
  lemma RowStored(table: SrLabel, payload: seq<byte>, behind: seq<byte>)
    requires RowRoom(table) && |behind| == 4096
    ensures RowSize(table) <= |payload + behind|
    ensures RowOf(table, payload + behind)
            == if RowSize(table) <= |payload| then payload[..RowSize(table)]
               else payload + behind[..RowSize(table) - |payload|]
  {
    MulMono(0, |table.rows|, RowSize(table));
  }

  // From the client's arguments to the catalogue: when the request packed from cached, fitting values
  // reaches the table they were laid out for, the table gains exactly their row, whatever lies behind.
  lemma ClientRecordStored(v: CatView, dbId: uint32, labelId: uint32, props: seq<CliProperty>, values: seq<Value>,
                           behind: seq<byte>)
    requires TakesRow(v, dbId, labelId) && Cache(props, values)
    requires RowFits(TableAt(v, dbId, labelId).fields, values) && SchemaAgrees(TableAt(v, dbId, labelId).fields, props)
    ensures Room(BUF_SIZE, 12, props, |props|)
    ensures var msg, table := Message(dbId, labelId, props), TableAt(v, dbId, labelId);
            && Unpackable(msg) && FromLE32(msg[0..4]) == dbId && FromLE32(msg[4..8]) == labelId
            && RowOf(table, Payload(msg) + behind) == RowBytes(table.fields, values)
            && InsertRowStep(v, dbId, labelId, Payload(msg) + behind).1 == Outcome.Done(0)
  {
    hide RowBytes, Message, Room, Cache, SchemaAgrees, FromLE32, Header;
    var table := TableAt(v, dbId, labelId);
    MessageCarriesRow(dbId, labelId, table.fields, props, values);
    var row := RowBytes(table.fields, values);
    WrapsIff(Total(table.fields));
    assert (row + behind)[..|row|] == row;
  }

  lemma InsertDoneIff(v: CatView, dbId: uint32, labelId: uint32, buf: seq<byte>)
    ensures InsertRowStep(v, dbId, labelId, buf).1.Done? <==> TakesRow(v, dbId, labelId)
  {
  }

  // RtHandleSimpleRelOpCode for an insert.  usrMsg is the memory from the message on, behind what memory
  // holds behind the payload's copy.  A rejected request returns before it releases anything.
  method RtHandleInsert(pool: KVMemoryPoolManager, cat: SrDbCtrlManager, usrMsg: array<byte>, behind: seq<byte>,
                        mem: Memory)
    returns (outcome: Outcome)
    requires pool.Valid() && cat.Valid() && Unpackable(usrMsg[..]) && |behind| == 4096
    requires Servable(pool.View(), |Payload(usrMsg[..])|, mem)
    modifies pool, pool.cells, pool.memoryMangerPool, cat
    ensures pool.Valid() && cat.Valid()
    ensures var dbId, labelId := old(FromLE32(usrMsg[..][0..4])), old(FromLE32(usrMsg[..][4..8]));
            var payload := old(Payload(usrMsg[..]));
            && (cat.View(), outcome) == InsertRowStep(old(cat.View()), dbId, labelId, payload + behind)
            && pool.View() == InsertEffect(old(pool.View()), old(cat.View()), dbId, labelId, |payload|, mem)
            && (SameBookkeeping(pool.View(), old(pool.View())) <==> TakesRow(old(cat.View()), dbId, labelId))
  {
    hide MemAlloc, MemFree, Filled, Perform, Inv, SameBookkeeping, CanFree, MayFill, WellBracketed;
    hide FromLE32, InsertRowStep, TakesRow;
    ghost var s0, v0, n := pool.View(), cat.View(), |Payload(usrMsg[..])|;
    StmtHeldInv(s0, mem);
    SecondHeld(s0, n, mem);
    var dbId, labelId, totalFldSize, insertData := RtSRInitInsert(usrMsg);
    InsertNeutralIff(s0, v0, dbId, labelId, n, mem);
    InsertDoneIff(v0, dbId, labelId, insertData[..] + behind);
    var stmt := pool.KVMemAlloc(STMT_SIZE, mem.osStmt);
    pool.OwnerFill(stmt, mem.stmtWords);
    var insertPtr := pool.KVMemAlloc(totalFldSize, mem.osSecond);
    pool.OwnerFill(insertPtr, mem.secondWords);
    outcome := cat.DMSrInsertData(dbId, labelId, insertData[..] + behind);
    if !outcome.Done? {
      return;
    }
    pool.KVMemFree(insertPtr, totalFldSize);
    pool.KVMemFree(stmt, STMT_SIZE);
  }

  // ---- Query-table ----

  // RtHandleSimpleRelOpCode for a query-table request: the reply describes the table, from a copy of
  // its properties that is released again.  A rejected request keeps its statement.  resultBuf is the
  // memory from the reply buffer on: a description longer than that buffer runs past it.
  method RtHandleQueryTable(pool: KVMemoryPoolManager, cat: SrDbCtrlManager, usrMsg: array<byte>,
                            resultBuf: array<byte>, mem: Memory)
    returns (outcome: Outcome)
    requires pool.Valid() && cat.Valid() && 8 <= usrMsg.Length && usrMsg != resultBuf
    requires var dbId, labelId := FromLE32(usrMsg[..][0..4]), FromLE32(usrMsg[..][4..8]);
             && QueryServable(pool.View(), cat.View(), dbId, labelId, mem)
             && (NamesTable(cat.View(), dbId, labelId) ==>
                   var fields := TableAt(cat.View(), dbId, labelId).fields;
                   |fields| < TWO_TO_THE_32 && Named(fields) && |TableBytes(fields)| <= resultBuf.Length)
    modifies pool, pool.cells, pool.memoryMangerPool, resultBuf
    ensures pool.Valid()
    ensures var dbId, labelId := old(FromLE32(usrMsg[..][0..4])), old(FromLE32(usrMsg[..][4..8]));
            var v := old(cat.View());
            && outcome == QueryAnswer(v, dbId, labelId).0 && (outcome.Done? <==> NamesTable(v, dbId, labelId))
            && resultBuf[..] == (if NamesTable(v, dbId, labelId)
                                 then Splice(old(resultBuf[..]), 0, TableBytes(TableAt(v, dbId, labelId).fields))
                                 else old(resultBuf[..]))
            && pool.View() == QueryEffect(old(pool.View()), v, dbId, labelId, mem)
            && (SameBookkeeping(pool.View(), old(pool.View())) <==> NamesTable(v, dbId, labelId))
  {
    ghost var s0, v0 := pool.View(), cat.View();
    StmtHeldInv(s0, mem);
    var stmt := pool.KVMemAlloc(STMT_SIZE, mem.osStmt);
    pool.OwnerFill(stmt, mem.stmtWords);
    assert usrMsg[0..4] == usrMsg[..][0..4] && usrMsg[4..8] == usrMsg[..][4..8];
    var dbId, bufCursor := DeseriUint32M(usrMsg, 0);
    var labelId;
    labelId, bufCursor := DeseriUint32M(usrMsg, bufCursor);
    QueryNeutralIff(s0, v0, dbId, labelId, mem);
    var fields;
    outcome, fields := cat.DMSrQueryTable(dbId, labelId);
    if !outcome.Done? {
      return;
    }
    QueryReply(pool, fields, resultBuf, stmt, s0, mem);
  }

  // The rest of a query that found its table: copy the properties, write the reply, release.
  method QueryReply(pool: KVMemoryPoolManager, fields: seq<Field>, resultBuf: array<byte>, stmt: nat,
                    ghost s0: PoolState, mem: Memory)
    requires pool.Valid() && Inv(s0) && StmtAllocatable(s0, mem)
    requires WellBracketed(s0, RequestWork(76 * |fields|, mem))
    requires pool.View() == StmtHeld(s0, mem) && stmt == MemAlloc(s0, STMT_SIZE, mem.osStmt).1
    requires |fields| < TWO_TO_THE_32 && Named(fields) && |TableBytes(fields)| <= resultBuf.Length
    modifies pool, pool.cells, pool.memoryMangerPool, resultBuf
    ensures pool.Valid()
    ensures resultBuf[..] == Splice(old(resultBuf[..]), 0, TableBytes(fields))
    ensures pool.View() == Perform(s0, RequestWork(76 * |fields|, mem))
    ensures SameBookkeeping(pool.View(), s0)
  {
    hide MemAlloc, MemFree, Filled, Inv, SameBookkeeping, CanFree, MayFill, WellBracketed, TableBytes;
    var retEntryBufLen := |fields| * PROPERTY_SIZE;
    WellBracketedIsNeutral(s0, RequestWork(retEntryBufLen, mem));
    SecondHeld(s0, retEntryBufLen, mem);
    var retEntry := pool.KVMemAlloc(retEntryBufLen, mem.osSecond);
    pool.OwnerFill(retEntry, mem.secondWords);
    WriteReply(fields, resultBuf);
    pool.KVMemFree(retEntry, retEntryBufLen);
    pool.KVMemFree(stmt, STMT_SIZE);
  }

  // The description of a copy of the table's properties.
  method WriteReply(fields: seq<Field>, resultBuf: array<byte>)
    requires |fields| < TWO_TO_THE_32 && Named(fields) && |TableBytes(fields)| <= resultBuf.Length
    modifies resultBuf
    ensures resultBuf[..] == Splice(old(resultBuf[..]), 0, TableBytes(fields))
  {
    var properties := new SrProperty[|fields|](i requires 0 <= i < |fields| => PropertyAt(fields, i));
    assert Described(properties[..]) == fields;
    var next := RtSeriTable(resultBuf, 0, properties, |fields|);
  }

  // ---- Both blocks of a request ----

  // What well-bracketed request work says about its second block, and about releasing both.
  lemma {:induction false} SecondHeld(s: PoolState, n: nat, mem: Memory)
    requires Inv(s) && StmtAllocatable(s, mem) && WellBracketed(s, RequestWork(n, mem))
    ensures var s1 := StmtHeld(s, mem);
            var a := MemAlloc(s1, n, mem.osSecond);
            var s2 := BothHeld(s, n, mem);
            var p := MemAlloc(s, STMT_SIZE, mem.osStmt).1;
            && Inv(s1) && OsFresh(s1, mem.osSecond, n) && MayFill(a.0, a.1, |mem.secondWords|)
            && Inv(s2) && CanFree(s2, a.1, n)
            && Inv(MemFree(s2, a.1, n)) && CanFree(MemFree(s2, a.1, n), p, STMT_SIZE)
            && Perform(s, RequestWork(n, mem)) == MemFree(MemFree(s2, a.1, n), p, STMT_SIZE)
            && (exists len :: Live(s2, a.1, len) && n <= len)
            && !SameBookkeeping(s2, s)
  {
    StmtHeldInv(s, mem);
    var s1 := StmtHeld(s, mem);
    var inner := Bracket(n, n, mem.osSecond, mem.secondWords, Idle, Idle);
    assert WellBracketed(s1, inner);
    HeldInv(s1, n, mem.osSecond, mem.secondWords);
    HeldBlockFits(s1, n, mem.osSecond, mem.secondWords);
    var a := MemAlloc(s1, n, mem.osSecond);
    var s2 := BothHeld(s, n, mem);
    FreeUndoesAlloc(s1, n, n, mem.osSecond, s2);
    MemFreeKeepsInv(s2, a.1, n);
    var s3 := MemFree(s2, a.1, n);
    PerformLeaf(s1, n, mem.osSecond, mem.secondWords);
    PerformOuter(s, STMT_SIZE, mem.osStmt, mem.stmtWords, inner);
    FreeUndoesAlloc(s, STMT_SIZE, STMT_SIZE, mem.osStmt, s3);
    var p, len :| Live(s1, p, len) && !Live(s, p, len);
    assert Live(s2, p, len);
    LeakIsNotNeutral(s, s2);
  }

  lemma {:induction false} PerformLeaf(s: PoolState, n: nat, osPtr: nat, words: seq<Word>)
    requires Shape(s)
    ensures var a := MemAlloc(s, n, osPtr);
            Perform(s, Bracket(n, n, osPtr, words, Idle, Idle)) == MemFree(Filled(a, words), a.1, n)
  {
    PerformOuter(s, n, osPtr, words, Idle);
  }

  lemma {:induction false} PerformOuter(s: PoolState, n: nat, osPtr: nat, words: seq<Word>, inner: Work)
    requires Shape(s)
    ensures var a := MemAlloc(s, n, osPtr);
            Perform(s, Bracket(n, n, osPtr, words, inner, Idle)) == MemFree(Perform(Filled(a, words), inner), a.1, n)
  {
    var w := Bracket(n, n, osPtr, words, inner, Idle);
    var t := PerformBracket(s, w);
    assert Perform(t, Idle) == t;
    assert Perform(s, w) == Perform(PerformBracket(s, w), w.after);
  }
}
