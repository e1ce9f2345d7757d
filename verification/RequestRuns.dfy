/** What histories of insert and query-table requests do to the memory pool: which blocks they leave
    behind, and when that exhausts a size class. */
module RequestRuns {
  import opened Bytes
  import opened Blocks
  import opened PoolState
  import opened PoolRuns
  import opened PoolWords
  import opened Catalogue
  import opened Requests

  // A request as the server receives it; behind is what memory holds behind an insert's payload.
  datatype Call =
    | InsertCall(dbId: uint32, labelId: uint32, payload: seq<byte>, behind: seq<byte>, mem: Memory)
    | QueryCall(dbId: uint32, labelId: uint32, mem: Memory)

  // The server can serve it, and does not stop on a failed assertion.
  ghost predicate Served(s: PoolState, v: CatView, c: Call)
    requires Shape(s)
  {
    match c
    case InsertCall(dbId, labelId, payload, behind, mem) =>
      Servable(s, |payload|, mem) && !InsertRowStep(v, dbId, labelId, payload + behind).1.Aborted?
    case QueryCall(dbId, labelId, mem) =>
      QueryServable(s, v, dbId, labelId, mem) && !QueryAnswer(v, dbId, labelId).0.Aborted?
  }

  ghost function PoolAfter(s: PoolState, v: CatView, c: Call): (t: PoolState)
    requires Shape(s)
    ensures Shape(t)
  {
    match c
    case InsertCall(dbId, labelId, payload, _, mem) => InsertEffect(s, v, dbId, labelId, |payload|, mem)
    case QueryCall(dbId, labelId, mem) => QueryEffect(s, v, dbId, labelId, mem)
  }

  function CatalogueAfter(v: CatView, c: Call): (v': CatView) {
    match c
    case InsertCall(dbId, labelId, payload, behind, _) => InsertRowStep(v, dbId, labelId, payload + behind).0
    case QueryCall(_, _, _) => v
  }

  // Does the request succeed?
  predicate Succeeds(v: CatView, c: Call) {
    match c
    case InsertCall(dbId, labelId, _, _, _) => TakesRow(v, dbId, labelId)
    case QueryCall(dbId, labelId, _) => NamesTable(v, dbId, labelId)
  }

  // Blocks it leaves allocated: statement and payload of a rejected insert, the statement of a rejected
  // query.
  function Kept(v: CatView, c: Call): (n: nat) {
    if Succeeds(v, c) then 0 else if c.InsertCall? then 2 else 1
  }

  // ---- Counting outstanding blocks ----

  ghost function LiveCount(live: seq<set<nat>>): (n: nat) {
    if live == [] then 0 else LiveCount(live[..|live| - 1]) + |live[|live| - 1]|
  }

  // All outstanding allocations, of every class and from malloc.
  ghost function Held(s: PoolState): (n: nat) {
    LiveCount(s.live) + |s.os|
  }

  lemma {:induction false} LiveCountAdd(live: seq<set<nat>>, c: nat, i: nat)
    requires c < |live| && i !in live[c]
    ensures LiveCount(live[c := live[c] + {i}]) == LiveCount(live) + 1
    decreases |live|
  {
    var n, live' := |live| - 1, live[c := live[c] + {i}];
    if c < n {
      LiveCountAdd(live[..n], c, i);
      assert live'[..n] == live[..n][c := live[c] + {i}];
    } else {
      assert live'[..n] == live[..n];
    }
  }

  lemma OneKeyMore(os: map<nat, nat>, p: nat, n: nat)
    requires p !in os
    ensures |os[p := n]| == |os| + 1
  {
    assert os[p := n].Keys == os.Keys + {p};
  }

  lemma AllocHoldsOneMore(s: PoolState, n: nat, osPtr: nat)
    requires Inv(s) && OsFresh(s, osPtr, n)
    ensures Held(MemAlloc(s, n, osPtr).0) == Held(s) + 1
  {
    assert Shape(s) && osPtr !in s.os;
    var slot := ChooseSlotBlockIdByAllocSize(n);
    if slot < CLASS_CNT && s.free[slot] != [] {
      var i := s.free[slot][0];
      assert i in s.free[slot] && ClassInv(s.base, s.cells, s.free[slot], s.live[slot], slot) && i !in s.live[slot];
      LiveCountAdd(s.live, slot, i);
    } else {
      OneKeyMore(s.os, osPtr, n);
    }
    hide Inv, OsFresh, ChooseSlotBlockIdByAllocSize, Zeroed, LiveCount;
  }

  lemma StmtHeldsOne(s: PoolState, mem: Memory)
    requires Inv(s) && StmtAllocatable(s, mem)
    ensures Held(StmtHeld(s, mem)) == Held(s) + 1
  {
    AllocHoldsOneMore(s, STMT_SIZE, mem.osStmt);
  }

  lemma BothHeldTwo(s: PoolState, n: nat, mem: Memory)
    requires Inv(s) && Servable(s, n, mem)
    ensures Held(BothHeld(s, n, mem)) == Held(s) + 2
  {
    SecondHeld(s, n, mem);
    StmtHeldsOne(s, mem);
    AllocHoldsOneMore(StmtHeld(s, mem), n, mem.osSecond);
  }

  lemma CallKeeps(s: PoolState, v: CatView, c: Call)
    requires Inv(s) && Served(s, v, c)
    ensures Inv(PoolAfter(s, v, c)) && Held(PoolAfter(s, v, c)) == Held(s) + Kept(v, c)
    ensures SameBookkeeping(PoolAfter(s, v, c), s) <==> Succeeds(v, c)
  {
    hide Inv, Servable, StmtHeld, BothHeld, Perform, NamesTable, TakesRow;
    match c {
      case InsertCall(dbId, labelId, payload, _, mem) =>
        InsertNeutralIff(s, v, dbId, labelId, |payload|, mem);
        BothHeldTwo(s, |payload|, mem);
      case QueryCall(dbId, labelId, mem) =>
        QueryNeutralIff(s, v, dbId, labelId, mem);
        StmtHeldsOne(s, mem);
    }
  }

  // ---- Histories ----

  ghost predicate AllServed(s: PoolState, v: CatView, calls: seq<Call>)
    requires Shape(s)
    decreases |calls|
  {
    calls == [] ||
    (Served(s, v, calls[0]) && AllServed(PoolAfter(s, v, calls[0]), CatalogueAfter(v, calls[0]), calls[1..]))
  }

  ghost function PoolAfterAll(s: PoolState, v: CatView, calls: seq<Call>): (t: PoolState)
    requires Shape(s)
    ensures Shape(t)
    decreases |calls|
  {
    if calls == [] then s else PoolAfterAll(PoolAfter(s, v, calls[0]), CatalogueAfter(v, calls[0]), calls[1..])
  }

  function KeptByAll(v: CatView, calls: seq<Call>): (n: nat)
    decreases |calls|
  {
    if calls == [] then 0 else Kept(v, calls[0]) + KeptByAll(CatalogueAfter(v, calls[0]), calls[1..])
  }

  // Over any history of inserts and queries, the outstanding allocations grow by exactly one for every
  // rejected query and two for every rejected insert; so every list of the pool is at the end what it was
  // at the start, in the same order, if and only if every request succeeded.
  lemma {:induction false} HistoryKeeps(s: PoolState, v: CatView, calls: seq<Call>)
    requires Inv(s) && AllServed(s, v, calls)
    ensures Inv(PoolAfterAll(s, v, calls))
    ensures Held(PoolAfterAll(s, v, calls)) == Held(s) + KeptByAll(v, calls)
    ensures SameBookkeeping(PoolAfterAll(s, v, calls), s) <==> KeptByAll(v, calls) == 0
    decreases |calls|
  {
    assert Shape(s);
    hide Inv, Served, PoolAfter, CatalogueAfter, Succeeds;
    if calls != [] {
      var t := PoolAfter(s, v, calls[0]);
      CallKeeps(s, v, calls[0]);
      KeptIff(v, calls[0]);
      HistoryKeeps(t, CatalogueAfter(v, calls[0]), calls[1..]);
    }
  }

  // ---- Words of others ----

  lemma StmtKeepsWords(s: PoolState, mem: Memory, k: nat)
    requires Inv(s) && StmtAllocatable(s, mem) && k < ARENA_CELLS && OwnedCell(s, k)
    ensures var t := StmtHeld(s, mem); Inv(t) && OwnedCell(t, k) && t.cells[k] == s.cells[k]
  {
    StmtClass();
    FilledKeepsWords(s, STMT_SIZE, mem.osStmt, mem.stmtWords, k);
  }

  lemma BothKeepWords(s: PoolState, n: nat, mem: Memory, k: nat)
    requires Inv(s) && Servable(s, n, mem) && k < ARENA_CELLS && OwnedCell(s, k)
    ensures var t := BothHeld(s, n, mem); OwnedCell(t, k) && t.cells[k] == s.cells[k]
  {
    StmtKeepsWords(s, mem, k);
    var s1 := StmtHeld(s, mem);
    assert WellBracketed(s1, Bracket(n, n, mem.osSecond, mem.secondWords, Idle, Idle));
    FilledKeepsWords(s1, n, mem.osSecond, mem.secondWords, k);
  }

  lemma CallKeepsWords(s: PoolState, v: CatView, c: Call, k: nat)
    requires Inv(s) && Served(s, v, c) && k < ARENA_CELLS && OwnedCell(s, k)
    ensures OwnedCell(PoolAfter(s, v, c), k) && PoolAfter(s, v, c).cells[k] == s.cells[k]
  {
    hide Inv, StmtHeld, BothHeld, Perform, NamesTable, TakesRow, OwnedCell, WellBracketed;
    match c {
      case InsertCall(dbId, labelId, payload, _, mem) =>
        BothKeepWords(s, |payload|, mem, k);
        WellBracketedKeepsWords(s, RequestWork(|payload|, mem), k);
      case QueryCall(dbId, labelId, mem) =>
        StmtKeepsWords(s, mem, k);
        if NamesTable(v, dbId, labelId) {
          WellBracketedKeepsWords(s, RequestWork(PropertiesSize(v, dbId, labelId), mem), k);
        }
    }
  }

  // Over any history of inserts and queries every word of a block handed out before it is kept.
  lemma {:induction false} HistoryKeepsWords(s: PoolState, v: CatView, calls: seq<Call>, k: nat)
    requires Inv(s) && AllServed(s, v, calls) && k < ARENA_CELLS && OwnedCell(s, k)
    ensures OwnedCell(PoolAfterAll(s, v, calls), k) && PoolAfterAll(s, v, calls).cells[k] == s.cells[k]
    decreases |calls|
  {
    assert Shape(s);
    hide Inv, Served, PoolAfter, CatalogueAfter, OwnedCell;
    if calls != [] {
      CallKeeps(s, v, calls[0]);
      CallKeepsWords(s, v, calls[0], k);
      HistoryKeepsWords(PoolAfter(s, v, calls[0]), CatalogueAfter(v, calls[0]), calls[1..], k);
    }
  }

  lemma KeptIff(v: CatView, c: Call)
    ensures Kept(v, c) == 0 <==> Succeeds(v, c)
  {
  }

  // ---- Exhausting the statement class ----

  ghost predicate RejectedQueries(v: CatView, calls: seq<Call>) {
    forall i :: 0 <= i < |calls| ==> calls[i].QueryCall? && !NamesTable(v, calls[i].dbId, calls[i].labelId)
  }

  lemma StmtTakesFirst(s: PoolState, mem: Memory)
    requires Inv(s) && StmtAllocatable(s, mem)
    ensures Inv(StmtHeld(s, mem))
    ensures |StmtHeld(s, mem).free[3]| == if s.free[3] == [] then 0 else |s.free[3]| - 1
  {
    StmtHeldInv(s, mem);
    StmtClass();
  }

  // Each rejected query takes a 64-byte block for good, while there are any.
  lemma {:induction false} RejectedQueriesTake(s: PoolState, v: CatView, calls: seq<Call>)
    requires Inv(s) && AllServed(s, v, calls) && RejectedQueries(v, calls)
    ensures |PoolAfterAll(s, v, calls).free[3]| == if |calls| <= |s.free[3]| then |s.free[3]| - |calls| else 0
    decreases |calls|
  {
    assert Shape(s);
    hide Inv, StmtHeld, NamesTable;
    if calls != [] {
      var c, rest := calls[0], calls[1..];
      assert RejectedQueries(v, rest) by {
        assert forall i :: 0 <= i < |rest| ==> rest[i] == calls[i + 1];
      }
      StmtTakesFirst(s, c.mem);
      RejectedQueriesTake(StmtHeld(s, c.mem), v, rest);
    }
  }

  // On a fresh pool, 64 of them leave none: the class's list is empty from then on.
  lemma {:induction false} SixtyFourExhaust(s: PoolState, v: CatView, calls: seq<Call>)
    requires Initial(s) && AllServed(s, v, calls) && RejectedQueries(v, calls)
    ensures PoolAfterAll(s, v, calls).free[3] == [] <==> 64 <= |calls|
  {
    InitialInv(s);
    AllBlocksComplete(PAGE_CELLS * 3, 3);
    RejectedQueriesTake(s, v, calls);
  }
}
