/** What owners wrote to the pool's blocks stays: no allocation or release changes a word of a block
    someone else holds, over every history and through every request. */
module PoolWords {
  import opened Blocks
  import opened PoolState
  import opened PoolRuns

  // ---- What one operation writes ----

  // The two states agree in every cell outside these bytes.
  ghost predicate AgreeOutside(s: PoolState, t: PoolState, ptr: nat, len: nat)
    requires Shape(s) && Shape(t)
  {
    forall k :: 0 <= k < ARENA_CELLS && !(ptr <= Ptr(s.base, k) < ptr + len) ==> t.cells[k] == s.cells[k]
  }

  // An allocation clears the block it answers, as long as its class says, and writes nothing else; one
  // that malloc serves writes nothing.
  lemma AllocWritesItsBlock(s: PoolState, allocSize: nat, osPtr: nat)
    requires Inv(s) && OsFresh(s, osPtr, allocSize)
    ensures var (s', p) := MemAlloc(s, allocSize, osPtr);
            if InArena(s.base, p) then
              AgreeOutside(s, s', p, GetSlotBlockSizeByIdx(ChooseSlotBlockIdByAllocSize(allocSize)))
            else s'.cells == s.cells
  {
    AllocGivesFreshBlock(s, allocSize, osPtr);
  }

  // A release writes the first word of the block released, and nothing else.
  lemma FreeWritesOneWord(s: PoolState, ptr: nat, freeSize: nat)
    requires Inv(s) && CanFree(s, ptr, freeSize)
    ensures AgreeOutside(s, MemFree(s, ptr, freeSize), ptr, 8)
  {
    if InArena(s.base, ptr) && ptr in s.os {
      RangeTestIsExact(s, ptr, s.os[ptr]);
    }
  }

  // ---- Words that are held ----

  lemma OwnedBlock(s: PoolState, k: nat, c: nat, i: nat)
    requires Inv(s) && c < CLASS_CNT && i in s.live[c] && i <= k < i + Cells(c)
    ensures IsBlock(PAGE_CELLS * c, c, i) && i + Cells(c) <= PAGE_CELLS * c + PAGE_CELLS <= ARENA_CELLS
    ensures OwnedCell(s, k)
  {
    BlockFits(PAGE_CELLS * c, c, i);
  }

  // A cell lies in one block of one class.
  lemma OneBlock(k: nat, c: nat, i: nat, d: nat, j: nat)
    requires c < CLASS_CNT && IsBlock(PAGE_CELLS * c, c, i) && i <= k < i + Cells(c)
    requires d < CLASS_CNT && IsBlock(PAGE_CELLS * d, d, j) && j <= k < j + Cells(d)
    ensures c == d && i == j
  {
    BlockFits(PAGE_CELLS * c, c, i);
    BlockFits(PAGE_CELLS * d, d, j);
    if c == d && i != j {
      BlocksSeparate(PAGE_CELLS * c, c, i, j);
    }
  }

  // No cell of a free block is held.
  lemma FreeCellNotHeld(s: PoolState, slot: nat, n: nat, k: nat)
    requires Inv(s) && slot < CLASS_CNT && n in s.free[slot] && OwnedCell(s, k)
    ensures !(n <= k < n + Cells(slot))
  {
    assert IsBlock(PAGE_CELLS * slot, slot, n) && n !in s.live[slot];
    var c: nat, i: nat :| c < CLASS_CNT && i in s.live[c] && i <= k < i + Cells(c);
    OwnedBlock(s, k, c, i);
    if n <= k < n + Cells(slot) {
      OneBlock(k, c, i, slot, n);
    }
  }

  // An allocation takes no word from anyone and changes none; the words it newly hands out are zero.
  lemma AllocKeepsWords(s: PoolState, allocSize: nat, osPtr: nat, k: nat)
    requires Inv(s) && OsFresh(s, osPtr, allocSize) && k < ARENA_CELLS
    ensures var s' := MemAlloc(s, allocSize, osPtr).0;
            && (OwnedCell(s, k) ==> OwnedCell(s', k) && s'.cells[k] == s.cells[k])
            && (OwnedCell(s', k) && !OwnedCell(s, k) ==> s'.cells[k] == 0)
  {
    var s' := MemAlloc(s, allocSize, osPtr).0;
    var slot := ChooseSlotBlockIdByAllocSize(allocSize);
    if slot < CLASS_CNT && s.free[slot] != [] {
      var n := s.free[slot][0];
      assert n in s.free[slot] && IsBlock(PAGE_CELLS * slot, slot, n);
      if c: nat, i: nat :| c < CLASS_CNT && i in s.live[c] && i <= k < i + Cells(c) {
        FreeCellNotHeld(s, slot, n, k);
        assert i in s'.live[c];
      }
    }
  }

  // The block a release puts on its list is nobody's afterwards.
  lemma ReleasedIsFree(s: PoolState, ptr: nat, freeSize: nat, k: nat)
    requires Inv(s) && CanFree(s, ptr, freeSize) && InArena(s.base, ptr) && ptr !in s.os && ptr == Ptr(s.base, k)
    ensures k < ARENA_CELLS && !OwnedCell(MemFree(s, ptr, freeSize), k)
  {
    var s', slot := MemFree(s, ptr, freeSize), ChooseSlotBlockIdByAllocSize(freeSize);
    assert k in s.live[slot] && k !in s'.live[slot];
    MemFreeKeepsInv(s, ptr, freeSize);
    OwnedBlock(s, k, slot, k);
    hide Inv, ChooseSlotBlockIdByAllocSize, IsBlock, MemFree;
    if c: nat, i: nat :| c < CLASS_CNT && i in s'.live[c] && i <= k < i + Cells(c) {
      OwnedBlock(s', k, c, i);
      OneBlock(k, c, i, slot, k);
    }
  }

  // A release changes no word that is still held.
  lemma FreeKeepsWords(s: PoolState, ptr: nat, freeSize: nat, k: nat)
    requires Inv(s) && CanFree(s, ptr, freeSize) && k < ARENA_CELLS && OwnedCell(MemFree(s, ptr, freeSize), k)
    ensures OwnedCell(s, k) && MemFree(s, ptr, freeSize).cells[k] == s.cells[k]
  {
    assert Shape(s);
    FreeWritesOneWord(s, ptr, freeSize);
    if ptr == Ptr(s.base, k) {
      if ptr in s.os {
        RangeTestIsExact(s, ptr, s.os[ptr]);
      } else {
        ReleasedIsFree(s, ptr, freeSize, k);
      }
    }
    hide Inv, ChooseSlotBlockIdByAllocSize, CanFree;
  }

  // ---- Every history ----

  // What a holder last made of the word, read off the history alone: w at the start, zero when its block
  // is handed out, and what is stored there.
  ghost function LastWord(s: PoolState, ops: seq<Op>, k: nat, w: Word): (r: Word)
    requires Shape(s) && Feasible(s, ops)
    decreases |ops|
  {
    if ops == [] then w else LastWord(Apply(s, ops[0]), ops[1..], k, NextWord(s, ops[0], k, w))
  }

  ghost function NextWord(s: PoolState, op: Op, k: nat, w: Word): (r: Word)
    requires Shape(s) && Allowed(s, op)
  {
    if op.Store? && op.cell == k then op.word
    else if op.Alloc? && OwnedCell(Apply(s, op), k) && !OwnedCell(s, k) then 0
    else w
  }

  lemma StepKeepsWords(s: PoolState, op: Op, k: nat, w: Word)
    requires Inv(s) && Allowed(s, op) && k < ARENA_CELLS && (OwnedCell(s, k) ==> s.cells[k] == w)
    ensures OwnedCell(Apply(s, op), k) ==> Apply(s, op).cells[k] == NextWord(s, op, k, w)
  {
    match op {
      case Alloc(size, osPtr) => AllocKeepsWords(s, size, osPtr, k);
      case Free(ptr, freeSize) =>
        if OwnedCell(Apply(s, op), k) {
          FreeKeepsWords(s, ptr, freeSize, k);
        }
      case Store(j, x) =>
        if c, i :| 0 <= c < CLASS_CNT && i in Apply(s, op).live[c] && i <= k < i + Cells(c) {
          OwnedBlock(s, k, c, i);
        }
    }
  }

  lemma {:induction false} WordsFollowHistory(s: PoolState, ops: seq<Op>, k: nat, w: Word)
    requires Inv(s) && Feasible(s, ops) && k < ARENA_CELLS && (OwnedCell(s, k) ==> s.cells[k] == w)
    ensures OwnedCell(Run(s, ops), k) ==> Run(s, ops).cells[k] == LastWord(s, ops, k, w)
    decreases |ops|
  {
    if ops != [] {
      var s' := Apply(s, ops[0]);
      StepKeepsWords(s, ops[0], k, w);
      RunKeepsInv(s, [ops[0]]);
      assert Run(s, [ops[0]]) == s';
      WordsFollowHistory(s', ops[1..], k, NextWord(s, ops[0], k, w));
    }
  }

  // Whatever the history from a fresh pool, every word of every outstanding block is what its holder last
  // stored there, or zero if it stored nothing there since the block was handed out.
  lemma {:induction false} HoldersFindTheirWords(s: PoolState, ops: seq<Op>, k: nat)
    requires Initial(s) && Feasible(s, ops)
    requires OwnedCell(Run(s, ops), k)
    ensures k < ARENA_CELLS && Run(s, ops).cells[k] == LastWord(s, ops, k, 0)
  {
    InitialInv(s);
    RunKeepsInv(s, ops);
    var t := Run(s, ops);
    var c, i :| 0 <= c < CLASS_CNT && i in t.live[c] && i <= k < i + Cells(c);
    OwnedBlock(t, k, c, i);
    WordsFollowHistory(s, ops, k, 0);
  }

  // ---- Work that releases what it allocates ----

  // Filling a block stores its words in order from its start, and changes no other cell.
  lemma FilledWords(s: PoolState, ptr: nat, words: seq<Word>, k: nat)
    requires Shape(s) && MayFill(s, ptr, |words|) && InArena(s.base, ptr) && k < ARENA_CELLS
    ensures var t := Filled((s, ptr), words);
            && (forall j :: 0 <= j < |words| && Ptr(s.base, k) == ptr + 8 * j ==> t.cells[k] == words[j])
            && (!(ptr <= Ptr(s.base, k) < ptr + 8 * |words|) ==> t.cells[k] == s.cells[k])
  {
    var c: nat, i: nat :| LiveBlock(s, ptr, c, i) && |words| <= Cells(c);
    assert ptr == Ptr(s.base, i) && (ptr - s.base) / 8 == i;
  }

  // Allocating and filling a block changes no word someone holds.
  lemma FilledKeepsWords(s: PoolState, allocSize: nat, osPtr: nat, words: seq<Word>, k: nat)
    requires Inv(s) && OsFresh(s, osPtr, allocSize) && k < ARENA_CELLS && OwnedCell(s, k)
    requires ChooseSlotBlockIdByAllocSize(allocSize) < CLASS_CNT ==>
               |words| <= Cells(ChooseSlotBlockIdByAllocSize(allocSize))
    ensures var t := Filled(MemAlloc(s, allocSize, osPtr), words);
            Inv(t) && OwnedCell(t, k) && t.cells[k] == s.cells[k]
  {
    var a := MemAlloc(s, allocSize, osPtr);
    MemAllocKeepsInv(s, allocSize, osPtr);
    AllocKeepsWords(s, allocSize, osPtr, k);
    SameLiveSameOwned(a.0, Filled(a, words), k);
    if InArena(s.base, a.1) {
      NewBlockFilled(s, allocSize, osPtr, words, k);
    }
  }

  lemma NewBlockFilled(s: PoolState, allocSize: nat, osPtr: nat, words: seq<Word>, k: nat)
    requires Inv(s) && OsFresh(s, osPtr, allocSize) && k < ARENA_CELLS && OwnedCell(s, k)
    requires InArena(s.base, MemAlloc(s, allocSize, osPtr).1)
    requires ChooseSlotBlockIdByAllocSize(allocSize) < CLASS_CNT ==>
               |words| <= Cells(ChooseSlotBlockIdByAllocSize(allocSize))
    ensures var a := MemAlloc(s, allocSize, osPtr);
            Inv(Filled(a, words)) && Filled(a, words).cells[k] == a.0.cells[k]
  {
    var a, slot := MemAlloc(s, allocSize, osPtr), ChooseSlotBlockIdByAllocSize(allocSize);
    MemAllocKeepsInv(s, allocSize, osPtr);
    AllocGivesFreshBlock(s, allocSize, osPtr);
    var n := s.free[slot][0];
    FreeCellNotHeld(s, slot, n, k);
    hide Inv, OwnedCell, MemAlloc, ChooseSlotBlockIdByAllocSize, GetSlotBlockSizeByIdx, Cells;
    FilledKeepsInv(a.0, a.1, slot, n, words);
    FilledWords(a.0, a.1, words, k);
  }

  lemma SameLiveSameOwned(s: PoolState, t: PoolState, k: nat)
    requires Shape(s) && Shape(t) && s.live == t.live
    ensures OwnedCell(s, k) <==> OwnedCell(t, k)
  {
  }

  // Well-bracketed work of any depth changes no word that someone holds when it begins.
  lemma {:induction false} WellBracketedKeepsWords(s: PoolState, w: Work, k: nat)
    requires Inv(s) && WellBracketed(s, w) && k < ARENA_CELLS && OwnedCell(s, k)
    ensures OwnedCell(Perform(s, w), k) && Perform(s, w).cells[k] == s.cells[k]
    decreases w
  {
    match w {
      case Idle =>
      case Bracket(allocSize, freeSize, osPtr, fill, inner, after) =>
        var a := MemAlloc(s, allocSize, osPtr);
        FilledKeepsWords(s, allocSize, osPtr, fill, k);
        WellBracketedKeepsWords(Filled(a, fill), inner, k);
        WellBracketedIsNeutral(Filled(a, fill), inner);
        var t := Perform(Filled(a, fill), inner);
        FreeUndoesAlloc(s, allocSize, freeSize, osPtr, t);
        MemFreeKeepsInv(t, a.1, freeSize);
        SameLiveSameOwned(s, PerformBracket(s, w), k);
        FreeKeepsWords(t, a.1, freeSize, k);
        WellBracketedKeepsWords(PerformBracket(s, w), after, k);
    }
  }
}
