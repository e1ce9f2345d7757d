/** The server's memory pool: nine size classes, a page each, with free lists threaded through
    the free blocks, and malloc behind them. */
module KvMemory {
  import opened Blocks
  import opened PoolState
  import opened PoolRuns

  const MEM_POOL_SLOT_CNT: nat := 9

  // One entry of the manager's array.
  datatype KVMemoryPool = KVMemoryPool(memPtr: nat, currMemPtr: nat, memBlockSize: nat, freeBlockCnt: nat)

  function IsAllocByMemoryPool(memPtr: nat, ptr: nat): (r: bool)
    ensures r <==> InArena(memPtr, ptr)
  {
    memPtr <= ptr && ptr < memPtr + MEM_POOL_SLOT_CNT * PAGE_SIZE
  }

  lemma FillableBlock(s: PoolState, ptr: nat, words: seq<Word>)
    requires Inv(s) && MayFill(s, ptr, |words|) && InArena(s.base, ptr)
    ensures (ptr - s.base) / 8 + |words| <= ARENA_CELLS && Inv(Filled((s, ptr), words))
  {
    var c, b :| LiveBlock(s, ptr, c, b) && |words| <= Cells(c);
    FilledKeepsInv(s, ptr, c, b, words);
    BlockFits(PAGE_CELLS * c, c, b);
  }

  // Lists threaded through earlier pages survive the threading of page i.
  lemma ListsInPagesKept(base: nat, cells: seq<Word>, cells': seq<Word>, free: seq<seq<nat>>, i: nat, c: nat)
    requires c < i < CLASS_CNT && |free| == CLASS_CNT
    requires free[c] == AllBlocks(PAGE_CELLS * c, c) && free[i] == AllBlocks(PAGE_CELLS * i, i)
    requires SameOutside(cells, cells', free[i]) && Linked(base, cells, free[c])
    ensures Linked(base, cells', free[c])
  {
    AllBlocksComplete(PAGE_CELLS * c, c);
    AllBlocksComplete(PAGE_CELLS * i, i);
    forall b | b in free[c]
      ensures cells'[b] == cells[b]
    {
      assert IsBlock(PAGE_CELLS * c, c, b) && !IsBlock(PAGE_CELLS * i, i, b);
      assert b < |cells|;
    }
    LinkedFrame(base, cells, cells', free[c]);
  }

  class KVMemoryPoolManager {
    const base: nat
    const cells: array<Word>
    const memoryMangerPool: array<KVMemoryPool>
    ghost var free: seq<seq<nat>>
    ghost var live: seq<set<nat>>
    ghost var os: map<nat, nat>

    ghost function View(): (s: PoolState)
      reads this, cells
    {
      PoolState(base, cells[..], free, live, os)
    }

    // What the pool entry of class c holds.
    ghost function Entry(c: nat): (e: KVMemoryPool)
      reads this
      requires c < CLASS_CNT && |free| == CLASS_CNT
    {
      KVMemoryPool(base + c * PAGE_SIZE, Head(base, free[c]), GetSlotBlockSizeByIdx(c), |free[c]|)
    }

    ghost predicate Valid()
      reads this, cells, memoryMangerPool
    {
      && Inv(View())
      && memoryMangerPool.Length == MEM_POOL_SLOT_CNT
      && forall c :: 0 <= c < CLASS_CNT ==> memoryMangerPool[c] == Entry(c)
    }

    // KVMemoryPoolInit, on the arena malloc answered: only its first page is cleared beforehand.
    constructor (memPtrArray: nat, memory: array<Word>)
      requires memory.Length == ARENA_CELLS
      requires NULL < memPtrArray && memPtrArray + ARENA_BYTES < 0x1_0000_0000_0000_0000
      modifies memory
      ensures Valid() && Initial(View())
      ensures base == memPtrArray && cells == memory && fresh(memoryMangerPool)
    {
      base := memPtrArray;
      cells := memory;
      memoryMangerPool := new KVMemoryPool[MEM_POOL_SLOT_CNT](_ => KVMemoryPool(NULL, NULL, 0, 0));
      free := seq(CLASS_CNT, c requires 0 <= c < CLASS_CNT => AllBlocks(PAGE_CELLS * c, c));
      live := seq(CLASS_CNT, _ => {});
      os := map[];
      new;
      forall k | 0 <= k < PAGE_CELLS {
        memory[k] := 0;
      }
      InitEntries(memPtrArray);
      for i := 0 to MEM_POOL_SLOT_CNT
        modifies memory
        invariant forall c :: 0 <= c < i ==> Linked(base, cells[..], free[c])
      {
        ghost var before := cells[..];
        ThreadFreeList(i);
        forall c | 0 <= c < i
          ensures Linked(base, cells[..], free[c])
        {
          ListsInPagesKept(base, before, cells[..], free, i, c);
        }
      }
      InitialInv(View());
    }

    // The array of pool entries: each class starts with its whole page free.
    method InitEntries(memPtrArray: nat)
      requires memoryMangerPool.Length == MEM_POOL_SLOT_CNT && base == memPtrArray && |free| == CLASS_CNT
      requires forall c :: 0 <= c < CLASS_CNT ==> free[c] == AllBlocks(PAGE_CELLS * c, c)
      modifies memoryMangerPool
      ensures forall c :: 0 <= c < CLASS_CNT ==> memoryMangerPool[c] == Entry(c)
    {
      for i := 0 to MEM_POOL_SLOT_CNT
        invariant forall c :: 0 <= c < i ==> memoryMangerPool[c] == Entry(c)
      {
        AllBlocksComplete(PAGE_CELLS * i, i);
        BlocksPerPage(i);
        assert free[i] == AllBlocks(PAGE_CELLS * i, i) && Head(base, free[i]) == base + i * PAGE_SIZE;
        var blockSize := GetSlotBlockSizeByIdx(i);
        memoryMangerPool[i] :=
          KVMemoryPool(memPtrArray + i * PAGE_SIZE, memPtrArray + i * PAGE_SIZE, blockSize, PAGE_SIZE / blockSize);
      }
    }

    // Thread the list of class i through its page.
    method ThreadFreeList(i: nat)
      requires i < CLASS_CNT && cells.Length == ARENA_CELLS && memoryMangerPool.Length == MEM_POOL_SLOT_CNT
      requires |free| == CLASS_CNT && memoryMangerPool[i] == Entry(i)
      requires free[i] == AllBlocks(PAGE_CELLS * i, i)
      requires base + ARENA_BYTES < 0x1_0000_0000_0000_0000
      modifies cells
      ensures Linked(base, cells[..], free[i])
      ensures SameOutside(old(cells[..]), cells[..], free[i])
    {
      hide Cells, AllBlocks, IsBlock, StepAt, Distinct, Linked, SameOutside, Ptr;
      ghost var list := free[i];
      AllBlocksComplete(PAGE_CELLS * i, i);
      PageListFits(base, PAGE_CELLS * i, i, ARENA_CELLS);
      var pool := memoryMangerPool[i];
      ThreadBlocks(base, cells, (pool.memPtr - base) / 8, pool.memBlockSize / 8, pool.freeBlockCnt, list);
    }

    // The pool's answer, NULL when the size has no class or its list is exhausted.
    method KVMemPoolAlloc(allocSize: nat) returns (ptr: nat)
      requires Valid()
      modifies this, cells, memoryMangerPool
      ensures Valid()
      ensures (View(), ptr) == old(PoolAlloc(View(), allocSize))
    {
      var slot := ChooseSlotBlockIdByAllocSize(allocSize);
      if slot == INVALID_SLOT_INDEX {
        return NULL;
      }
      var memoryPool := memoryMangerPool[slot];
      assert memoryMangerPool[slot] == Entry(slot);
      if memoryPool.freeBlockCnt == 0 {
        return NULL;
      }
      ptr := memoryPool.currMemPtr;
      ghost var after := PoolAlloc(View(), allocSize).0;
      PoolAllocKeepsInv(View(), allocSize);
      FirstFree(base, cells[..], free[slot], live[slot], PAGE_CELLS * slot, slot);
      var i := (ptr - base) / 8;
      var next := cells[i];
      ClearCells(cells, i, memoryPool.memBlockSize / 8);
      memoryMangerPool[slot] := memoryPool.(currMemPtr := next, freeBlockCnt := memoryPool.freeBlockCnt - 1);
      free, live := after.free, after.live;
      assert View() == after;
    }

    method KVMemPoolFree(ptr: nat, freeSize: nat)
      requires Valid() && InArena(base, ptr) && CanFree(View(), ptr, freeSize)
      modifies this, cells, memoryMangerPool
      ensures Valid()
      ensures View() == old(PoolFree(View(), ptr, freeSize))
    {
      var slot := ChooseSlotBlockIdByAllocSize(freeSize);
      ghost var after := PoolFree(View(), ptr, freeSize);
      MemFreeKeepsInv(View(), ptr, freeSize);
      var memoryPool := memoryMangerPool[slot];
      var i := (ptr - base) / 8;
      assert memoryMangerPool[slot] == Entry(slot) && ClassInv(base, cells[..], free[slot], live[slot], slot);
      assert free[slot] != [] ==> free[slot][0] in free[slot];
      assert memoryPool.currMemPtr == AsWord(Head(base, free[slot]));
      cells[i] := memoryPool.currMemPtr;
      memoryMangerPool[slot] := memoryPool.(currMemPtr := ptr, freeBlockCnt := memoryPool.freeBlockCnt + 1);
      free, live := after.free, after.live;
      assert View() == after;
    }

    // osPtr is malloc's answer, used only if the pool has none.
    method KVMemAlloc(allocSize: nat, osPtr: nat) returns (ptr: nat)
      requires Valid() && OsFresh(View(), osPtr, allocSize)
      modifies this, cells, memoryMangerPool
      ensures Valid()
      ensures (View(), ptr) == old(MemAlloc(View(), allocSize, osPtr))
    {
      MemAllocKeepsInv(View(), allocSize, osPtr);
      ptr := KVMemPoolAlloc(allocSize);
      if ptr == NULL {
        ptr := osPtr;
        os := os[osPtr := allocSize];
      }
    }

    method KVMemFree(ptr: nat, allocSize: nat)
      requires Valid() && CanFree(View(), ptr, allocSize)
      modifies this, cells, memoryMangerPool
      ensures Valid()
      ensures View() == old(MemFree(View(), ptr, allocSize))
    {
      if ptr == NULL {
        return;
      }
      MemFreeKeepsInv(View(), ptr, allocSize);
      assert memoryMangerPool[0] == Entry(0);
      if IsAllocByMemoryPool(memoryMangerPool[0].memPtr, ptr) {
        KVMemPoolFree(ptr, allocSize);
        return;
      }
      os := os - {ptr};
    }

    // A client writes words from the start of a block it owns; malloc's memory is not part of the state.
    method OwnerFill(ptr: nat, words: seq<Word>)
      requires Valid() && MayFill(View(), ptr, |words|)
      modifies cells
      ensures Valid()
      ensures View() == old(Filled((View(), ptr), words))
    {
      ghost var s := View();
      if IsAllocByMemoryPool(base, ptr) {
        FillableBlock(s, ptr, words);
        var i := (ptr - base) / 8;
        forall k | i <= k < i + |words| {
          cells[k] := words[k - i];
        }
        assert cells[..] == Filled((s, ptr), words).cells;
      }
    }
  }
}
