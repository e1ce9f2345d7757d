/** What holds of the memory pool over every history of allocations, releases and writes. */
module PoolRuns {
  import opened Blocks
  import opened PoolState

  // ---- Live allocations ----

  // [ptr, ptr + len) is an allocation that has not been released.
  ghost predicate Live(s: PoolState, ptr: nat, len: nat)
    requires Shape(s)
  {
    || (ptr in s.os && len == s.os[ptr])
    || (exists c, i :: LiveBlock(s, ptr, c, i) && len == GetSlotBlockSizeByIdx(c))
  }

  lemma LivePoolBlockInArena(s: PoolState, ptr: nat, c: nat, i: nat)
    requires Inv(s) && LiveBlock(s, ptr, c, i)
    ensures InArena(s.base, ptr) && ptr !in s.os
    ensures s.base + PAGE_SIZE * c <= ptr && ptr + GetSlotBlockSizeByIdx(c) <= s.base + PAGE_SIZE * (c + 1)
  {
    BlockFits(PAGE_CELLS * c, c, i);
  }

  // The one address-range test tells pool blocks from malloc blocks exactly.
  lemma RangeTestIsExact(s: PoolState, ptr: nat, len: nat)
    requires Inv(s) && Live(s, ptr, len)
    ensures InArena(s.base, ptr) <==> exists c, i :: LiveBlock(s, ptr, c, i)
    ensures InArena(s.base, ptr) <==> ptr !in s.os
  {
    if c, i :| LiveBlock(s, ptr, c, i) {
      LivePoolBlockInArena(s, ptr, c, i);
    }
  }

  // No two outstanding allocations overlap, whatever class or source they came from.
  lemma LiveAllocationsDisjoint(s: PoolState, p: nat, m: nat, q: nat, n: nat)
    requires Inv(s) && Live(s, p, m) && Live(s, q, n) && p != q
    ensures Apart(p, m, q, n)
  {
    if p in s.os && q in s.os {
      RangeTestIsExact(s, p, m);
      RangeTestIsExact(s, q, n);
      if c, i :| LiveBlock(s, p, c, i) {
        LivePoolBlockInArena(s, p, c, i);
      }
      if c, i :| LiveBlock(s, q, c, i) {
        LivePoolBlockInArena(s, q, c, i);
      }
    } else if p in s.os {
      var d, j :| LiveBlock(s, q, d, j) && n == GetSlotBlockSizeByIdx(d);
      LivePoolBlockInArena(s, q, d, j);
      if c, i :| LiveBlock(s, p, c, i) {
        LivePoolBlockInArena(s, p, c, i);
      }
    } else if q in s.os {
      var c, i :| LiveBlock(s, p, c, i) && m == GetSlotBlockSizeByIdx(c);
      LivePoolBlockInArena(s, p, c, i);
      if d, j :| LiveBlock(s, q, d, j) {
        LivePoolBlockInArena(s, q, d, j);
      }
    } else {
      var c, i :| LiveBlock(s, p, c, i) && m == GetSlotBlockSizeByIdx(c);
      var d, j :| LiveBlock(s, q, d, j) && n == GetSlotBlockSizeByIdx(d);
      if c == d {
        BlocksSeparate(PAGE_CELLS * c, c, i, j);
      } else {
        ClassesSeparate(c, d, i, j);
      }
    }
  }

  // An allocation is new, large enough, and, when the pool serves it, lies in its class's page,
  // is zero throughout, and came from the head of that class's list.
  lemma AllocGivesFreshBlock(s: PoolState, allocSize: nat, osPtr: nat)
    requires Inv(s) && OsFresh(s, osPtr, allocSize)
    ensures var (s', p) := MemAlloc(s, allocSize, osPtr);
            var slot := ChooseSlotBlockIdByAllocSize(allocSize);
            && p != NULL
            && (forall len :: !Live(s, p, len))
            && (InArena(s.base, p) <==> slot < CLASS_CNT && s.free[slot] != [])
            && (if InArena(s.base, p) then
                  && p == Head(s.base, s.free[slot]) && s'.os == s.os
                  && LiveBlock(s', p, slot, s.free[slot][0])
                  && Live(s', p, GetSlotBlockSizeByIdx(slot)) && allocSize <= GetSlotBlockSizeByIdx(slot)
                  && (forall k :: s.free[slot][0] <= k < s.free[slot][0] + Cells(slot) ==>
                        k < ARENA_CELLS && s'.cells[k] == 0)
                else p == osPtr && Live(s', p, allocSize) && s'.free == s.free && s'.live == s.live)
  {
    var slot := ChooseSlotBlockIdByAllocSize(allocSize);
    if slot < CLASS_CNT && s.free[slot] != [] {
      var i := s.free[slot][0];
      assert i in s.free[slot];
      BlockFits(PAGE_CELLS * slot, slot, i);
      if c, b :| LiveBlock(s, Ptr(s.base, i), c, b) {
        assert b == i;
        BlockFits(PAGE_CELLS * c, c, i);
      }
      var s' := MemAlloc(s, allocSize, osPtr).0;
      assert LiveBlock(s', Ptr(s.base, i), slot, i);
    } else if c, b :| LiveBlock(s, osPtr, c, b) {
      LivePoolBlockInArena(s, osPtr, c, b);
    }
  }

  // ---- Counting ----

  // Free and live blocks always account for the whole page.
  lemma FreePlusLive(s: PoolState, c: nat)
    requires Inv(s) && c < CLASS_CNT
    ensures |s.free[c]| + |s.live[c]| == PAGE_SIZE / GetSlotBlockSizeByIdx(c)
  {
    PageCount(s.base, s.cells, s.free[c], s.live[c], PAGE_CELLS * c, c);
    BlocksPerPage(c);
  }

  // Class c has blocks of 2 to the power c + 3 bytes, 8 up to 2048, as many as fill a page of 4096 bytes.
  lemma ClassSizes(c: nat)
    requires c < CLASS_CNT
    ensures CLASS_CNT == 9 && GetSlotBlockSizeByIdx(c) == [8, 16, 32, 64, 128, 256, 512, 1024, 2048][c]
    ensures |AllBlocks(PAGE_CELLS * c, c)| == [512, 256, 128, 64, 32, 16, 8, 4, 2][c]
  {
    AllBlocksComplete(PAGE_CELLS * c, c);
  }

  lemma BlocksPerPage(c: nat)
    requires c < CLASS_CNT
    ensures PAGE_SIZE / GetSlotBlockSizeByIdx(c) == PAGE_CELLS / Cells(c)
  {
  }

  // Following the links from currMemPtr, for however many steps, meets each free block of the page once
  // and nothing else, and ends at NULL; there are as many as freeBlockCnt says.
  ghost predicate ClassChain(s: PoolState, c: nat)
    requires Shape(s) && c < CLASS_CNT
  {
    && LeadsThrough(s.base, s.cells, Head(s.base, s.free[c]), s.free[c])
    && Distinct(s.free[c])
    && (forall i :: i in s.free[c] <==> IsBlock(PAGE_CELLS * c, c, i) && i !in s.live[c])
    && |s.free[c]| == PAGE_SIZE / GetSlotBlockSizeByIdx(c) - |s.live[c]|
  }

  lemma WalkMeetsFreeBlocks(s: PoolState, c: nat)
    requires Inv(s) && c < CLASS_CNT
    ensures ClassChain(s, c)
  {
    LinkedLeadsThrough(s.base, s.cells, s.free[c]);
    FreePlusLive(s, c);
  }

  // ---- Histories ----

  datatype Op =
    | Alloc(size: nat, osPtr: nat)
    | Free(ptr: nat, freeSize: nat)
    | Store(cell: nat, word: Word)

  ghost predicate Allowed(s: PoolState, op: Op)
    requires Shape(s)
  {
    match op
    case Alloc(size, osPtr) => OsFresh(s, osPtr, size)
    case Free(ptr, freeSize) => CanFree(s, ptr, freeSize)
    case Store(k, _) => OwnedCell(s, k) && k < ARENA_CELLS
  }

  ghost function Apply(s: PoolState, op: Op): (s': PoolState)
    requires Shape(s) && Allowed(s, op)
    ensures Shape(s')
  {
    match op
    case Alloc(size, osPtr) => MemAlloc(s, size, osPtr).0
    case Free(ptr, freeSize) => MemFree(s, ptr, freeSize)
    case Store(k, w) => s.(cells := s.cells[k := w])
  }

  ghost predicate Feasible(s: PoolState, ops: seq<Op>)
    requires Shape(s)
    decreases |ops|
  {
    ops == [] || (Allowed(s, ops[0]) && Feasible(Apply(s, ops[0]), ops[1..]))
  }

  ghost function Run(s: PoolState, ops: seq<Op>): (s': PoolState)
    requires Shape(s) && Feasible(s, ops)
    ensures Shape(s')
    decreases |ops|
  {
    if ops == [] then s else Run(Apply(s, ops[0]), ops[1..])
  }

  lemma {:induction false} RunKeepsInv(s: PoolState, ops: seq<Op>)
    requires Inv(s) && Feasible(s, ops)
    ensures Inv(Run(s, ops))
    decreases |ops|
  {
    if ops != [] {
      match ops[0] {
        case Alloc(size, osPtr) => MemAllocKeepsInv(s, size, osPtr);
        case Free(ptr, freeSize) => MemFreeKeepsInv(s, ptr, freeSize);
        case Store(k, w) => StoreKeepsInv(s, k, w);
      }
      RunKeepsInv(Apply(s, ops[0]), ops[1..]);
    }
  }

  // The state KVMemoryPoolInit leaves: every list complete, nothing handed out.
  ghost predicate Initial(s: PoolState) {
    && Shape(s) && s.os == map[]
    && forall c :: 0 <= c < CLASS_CNT ==>
         s.free[c] == AllBlocks(PAGE_CELLS * c, c) && s.live[c] == {} && Linked(s.base, s.cells, s.free[c])
  }

  lemma InitialInv(s: PoolState)
    requires Initial(s)
    ensures Inv(s)
  {
    forall c | 0 <= c < CLASS_CNT
      ensures ClassInv(s.base, s.cells, s.free[c], s.live[c], c)
    {
      AllBlocksComplete(PAGE_CELLS * c, c);
    }
  }

  // Whatever the history, no two outstanding allocations overlap, and the in-block links of every class
  // lead through exactly the blocks not handed out and end; so with nothing outstanding they lead
  // through all blocks of the page.
  lemma {:induction false} PoolSafeOverEveryRun(s: PoolState, ops: seq<Op>)
    requires Initial(s) && Feasible(s, ops)
    ensures var t := Run(s, ops);
            && Shape(t)
            && (forall p, m, q, n :: Live(t, p, m) && Live(t, q, n) && p != q ==> Apart(p, m, q, n))
            && (forall c :: 0 <= c < CLASS_CNT ==>
                  ClassChain(t, c) && (t.live[c] == {} ==> |t.free[c]| == PAGE_SIZE / GetSlotBlockSizeByIdx(c)))
  {
    InitialInv(s);
    RunKeepsInv(s, ops);
    var t := Run(s, ops);
    forall p, m, q, n | Live(t, p, m) && Live(t, q, n) && p != q
      ensures Apart(p, m, q, n)
    {
      LiveAllocationsDisjoint(t, p, m, q, n);
    }
    forall c | 0 <= c < CLASS_CNT
      ensures ClassChain(t, c) && (t.live[c] == {} ==> |t.free[c]| == PAGE_SIZE / GetSlotBlockSizeByIdx(c))
    {
      WalkMeetsFreeBlocks(t, c);
    }
  }

  // ---- Last in, first out ----

  // The bookkeeping of two states is the same; only block contents may differ.
  ghost predicate SameBookkeeping(s: PoolState, t: PoolState) {
    s.base == t.base && s.free == t.free && s.live == t.live && s.os == t.os
  }

  // Releasing undoes allocating, as long as everything in between was undone too.
  lemma FreeUndoesAlloc(s: PoolState, allocSize: nat, freeSize: nat, osPtr: nat, t: PoolState)
    requires Inv(s) && OsFresh(s, osPtr, allocSize)
    requires ChooseSlotBlockIdByAllocSize(freeSize) == ChooseSlotBlockIdByAllocSize(allocSize)
    requires Shape(t) && SameBookkeeping(MemAlloc(s, allocSize, osPtr).0, t)
    ensures var p := MemAlloc(s, allocSize, osPtr).1;
            CanFree(t, p, freeSize) && SameBookkeeping(MemFree(t, p, freeSize), s)
  {
    hide Linked, Distinct, Live, ChooseSlotBlockIdByAllocSize, GetSlotBlockSizeByIdx;
    AllocGivesFreshBlock(s, allocSize, osPtr);
    var (s', p) := MemAlloc(s, allocSize, osPtr);
    var slot := ChooseSlotBlockIdByAllocSize(allocSize);
    if InArena(s.base, p) {
      var i := s.free[slot][0];
      assert i in s.free[slot] && i !in s.live[slot];
      assert [i] + s.free[slot][1..] == s.free[slot];
      assert (s.live[slot] + {i}) - {i} == s.live[slot];
      assert MemFree(t, p, freeSize).free == s.free;
      assert MemFree(t, p, freeSize).live == s.live;
    } else {
      assert s'.os - {osPtr} == s.os;
    }
  }

  // Well-bracketed work: each allocation is released after the work nested in it, under a size of
  // the same class.  osPtr is malloc's answer should the pool be exhausted at that point, and the
  // owner fills the block with the given words.
  datatype Work =
    | Idle
    | Bracket(allocSize: nat, freeSize: nat, osPtr: nat, fill: seq<Word>, inner: Work, after: Work)

  ghost predicate WellBracketed(s: PoolState, w: Work)
    requires Shape(s)
    decreases w
  {
    match w
    case Idle => true
    case Bracket(allocSize, freeSize, osPtr, fill, inner, after) =>
      && ChooseSlotBlockIdByAllocSize(freeSize) == ChooseSlotBlockIdByAllocSize(allocSize)
      && OsFresh(s, osPtr, allocSize)
      && (ChooseSlotBlockIdByAllocSize(allocSize) < CLASS_CNT ==>
            |fill| <= Cells(ChooseSlotBlockIdByAllocSize(allocSize)))
      && WellBracketed(Filled(MemAlloc(s, allocSize, osPtr), fill), inner)
      && WellBracketed(PerformBracket(s, w), after)
  }

  // The holder of ptr may write n words at its start.
  ghost predicate MayFill(s: PoolState, ptr: nat, n: nat)
    requires Shape(s)
  {
    InArena(s.base, ptr) ==> exists c, i :: LiveBlock(s, ptr, c, i) && n <= Cells(c)
  }

  // The owner writes its words from the start of the block, if that lies in the arena.
  ghost function Filled(a: (PoolState, nat), fill: seq<Word>): (s': PoolState)
    requires Shape(a.0)
    ensures Shape(s') && SameBookkeeping(s', a.0)
  {
    if InArena(a.0.base, a.1) then
      var i := (a.1 - a.0.base) / 8;
      a.0.(cells := seq(ARENA_CELLS, k requires 0 <= k < ARENA_CELLS =>
        if i <= k < i + |fill| then fill[k - i] else a.0.cells[k]))
    else a.0
  }

  ghost function PerformBracket(s: PoolState, w: Work): (s': PoolState)
    requires Shape(s) && w.Bracket?
    ensures Shape(s')
    decreases w, 0
  {
    var a := MemAlloc(s, w.allocSize, w.osPtr);
    MemFree(Perform(Filled(a, w.fill), w.inner), a.1, w.freeSize)
  }

  ghost function Perform(s: PoolState, w: Work): (s': PoolState)
    requires Shape(s)
    ensures Shape(s')
    decreases w, 1
  {
    match w
    case Idle => s
    case Bracket(_, _, _, _, _, after) => Perform(PerformBracket(s, w), after)
  }

  lemma FilledKeepsInv(s: PoolState, ptr: nat, c: nat, i: nat, fill: seq<Word>)
    requires Inv(s) && LiveBlock(s, ptr, c, i) && |fill| <= Cells(c)
    ensures Inv(Filled((s, ptr), fill))
  {
    LivePoolBlockInArena(s, ptr, c, i);
    var s' := Filled((s, ptr), fill);
    forall d | 0 <= d < CLASS_CNT
      ensures ClassInv(s.base, s'.cells, s.free[d], s.live[d], d)
    {
      forall j | j in s.free[d]
        ensures s'.cells[j] == s.cells[j]
      {
        if c == d {
          BlocksSeparate(PAGE_CELLS * c, c, i, j);
        } else {
          ClassesSeparate(c, d, i, j);
        }
      }
      PageFrame(s.base, s.cells, s'.cells, s.free[d], s.live[d], PAGE_CELLS * d, d);
    }
  }

  // A new block may be filled as far as its class's block size.
  lemma NewBlockMayBeFilled(s: PoolState, allocSize: nat, osPtr: nat, n: nat)
    requires Inv(s) && OsFresh(s, osPtr, allocSize)
    requires ChooseSlotBlockIdByAllocSize(allocSize) < CLASS_CNT ==> n <= Cells(ChooseSlotBlockIdByAllocSize(allocSize))
    ensures MayFill(MemAlloc(s, allocSize, osPtr).0, MemAlloc(s, allocSize, osPtr).1, n)
  {
    AllocGivesFreshBlock(s, allocSize, osPtr);
    var (s', p) := MemAlloc(s, allocSize, osPtr);
    if InArena(s.base, p) {
      var slot := ChooseSlotBlockIdByAllocSize(allocSize);
      assert LiveBlock(s', p, slot, s.free[slot][0]);
    }
  }

  // Allocating leaves what was outstanding outstanding.
  lemma AllocKeepsLive(s: PoolState, allocSize: nat, osPtr: nat, p: nat, len: nat)
    requires Inv(s) && OsFresh(s, osPtr, allocSize) && Live(s, p, len)
    ensures Live(MemAlloc(s, allocSize, osPtr).0, p, len)
  {
    var s' := MemAlloc(s, allocSize, osPtr).0;
    if p !in s.os {
      var c, i :| LiveBlock(s, p, c, i) && len == GetSlotBlockSizeByIdx(c);
      assert LiveBlock(s', p, c, i);
    }
  }

  // A release takes back the allocation released and no other.
  lemma FreeTakesBack(s: PoolState, ptr: nat, freeSize: nat, p: nat, len: nat)
    requires Inv(s) && CanFree(s, ptr, freeSize)
    ensures Live(MemFree(s, ptr, freeSize), p, len) <==> Live(s, p, len) && p != ptr
  {
    var s' := MemFree(s, ptr, freeSize);
    forall c: nat, i: nat
      ensures LiveBlock(s', p, c, i) <==> LiveBlock(s, p, c, i) && p != ptr
    {
      BlockTakenBack(s, ptr, freeSize, p, c, i);
    }
    assert p in s'.os <==> p in s.os && p != ptr by {
      if p == ptr && p in s.os {
        RangeTestIsExact(s, ptr, s.os[ptr]);
      }
    }
    hide Inv, CanFree, LiveBlock, MemFree;
  }

  lemma BlockTakenBack(s: PoolState, ptr: nat, freeSize: nat, p: nat, c: nat, i: nat)
    requires Inv(s) && CanFree(s, ptr, freeSize)
    ensures LiveBlock(MemFree(s, ptr, freeSize), p, c, i) <==> LiveBlock(s, p, c, i) && p != ptr
  {
    if LiveBlock(s, p, c, i) && p == ptr {
      LivePoolBlockInArena(s, p, c, i);
      var slot := ChooseSlotBlockIdByAllocSize(freeSize);
      assert LiveBlock(s, p, slot, i);
      LivePoolBlockInArena(s, p, slot, i);
    }
  }

  // An allocation that is not released shows in the bookkeeping.
  lemma AllocIsNotNeutral(s: PoolState, allocSize: nat, osPtr: nat)
    requires Inv(s) && OsFresh(s, osPtr, allocSize)
    ensures exists p, len :: Live(MemAlloc(s, allocSize, osPtr).0, p, len) && !Live(s, p, len)
  {
    AllocGivesFreshBlock(s, allocSize, osPtr);
    var (s', p) := MemAlloc(s, allocSize, osPtr);
    if InArena(s.base, p) {
      assert Live(s', p, GetSlotBlockSizeByIdx(ChooseSlotBlockIdByAllocSize(allocSize)));
    } else {
      assert Live(s', p, allocSize);
    }
  }

  lemma BookkeepingDecidesLive(s: PoolState, t: PoolState, p: nat, len: nat)
    requires Shape(s) && Shape(t) && SameBookkeeping(s, t)
    ensures Live(s, p, len) <==> Live(t, p, len)
  {
    if c, i :| LiveBlock(s, p, c, i) && len == GetSlotBlockSizeByIdx(c) {
      assert LiveBlock(t, p, c, i);
    }
    if c, i :| LiveBlock(t, p, c, i) && len == GetSlotBlockSizeByIdx(c) {
      assert LiveBlock(s, p, c, i);
    }
  }

  // Well-bracketed work of any depth leaves every free list as it was, in the same order, even when
  // its allocations share a class or spill to malloc halfway.
  lemma {:induction false} WellBracketedIsNeutral(s: PoolState, w: Work)
    requires Inv(s) && WellBracketed(s, w)
    ensures Inv(Perform(s, w)) && SameBookkeeping(Perform(s, w), s)
    decreases w
  {
    match w {
      case Idle =>
      case Bracket(allocSize, freeSize, osPtr, fill, inner, after) =>
        var a := MemAlloc(s, allocSize, osPtr);
        MemAllocKeepsInv(s, allocSize, osPtr);
        AllocGivesFreshBlock(s, allocSize, osPtr);
        if InArena(s.base, a.1) {
          var slot := ChooseSlotBlockIdByAllocSize(allocSize);
          FilledKeepsInv(a.0, a.1, slot, s.free[slot][0], fill);
        }
        WellBracketedIsNeutral(Filled(a, fill), inner);
        var t := Perform(Filled(a, fill), inner);
        FreeUndoesAlloc(s, allocSize, freeSize, osPtr, t);
        MemFreeKeepsInv(t, a.1, freeSize);
        WellBracketedIsNeutral(PerformBracket(s, w), after);
    }
  }
}
