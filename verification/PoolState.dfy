/** What the segregated-fit memory pool does, as functions on states.

    A state is the arena's memory (nine pages of 512 cells, one page per size class)
    together with three bookkeeping facts that the C code keeps only implicitly: which
    blocks each free list holds and in which order, which blocks are handed out, and
    which allocations came from the operating system instead. */
module PoolState {
  import opened Blocks

  const ARENA_CELLS: nat := 4608       // MEM_POOL_SLOT_CNT pages
  const ARENA_BYTES: nat := 36864
  const INVALID_SLOT_INDEX: nat := 9

  function GetSlotBlockSizeByIdx(idx: nat): (size: nat)
    requires idx < CLASS_CNT
    ensures size == 8 * Cells(idx)
  {
    if idx == 0 then 8 else if idx == 1 then 16 else if idx == 2 then 32 else if idx == 3 then 64
    else if idx == 4 then 128 else if idx == 5 then 256 else if idx == 6 then 512 else if idx == 7 then 1024
    else 2048
  }

  // The smallest class that holds allocSize bytes.
  function ChooseSlotBlockIdByAllocSize(allocSize: nat): (slot: nat)
    ensures slot <= INVALID_SLOT_INDEX
    ensures slot == INVALID_SLOT_INDEX <==> forall c :: 0 <= c < CLASS_CNT ==> GetSlotBlockSizeByIdx(c) < allocSize
    ensures slot < CLASS_CNT ==> allocSize <= GetSlotBlockSizeByIdx(slot)
    ensures forall c :: 0 <= c < slot && c < CLASS_CNT ==> GetSlotBlockSizeByIdx(c) < allocSize
  {
    if allocSize <= 8 then 0 else if allocSize <= 16 then 1 else if allocSize <= 32 then 2
    else if allocSize <= 64 then 3 else if allocSize <= 128 then 4 else if allocSize <= 256 then 5
    else if allocSize <= 512 then 6 else if allocSize <= 1024 then 7
    else if allocSize <= 2048 then assert GetSlotBlockSizeByIdx(8) == 2048; 8
    else INVALID_SLOT_INDEX
  }

  datatype PoolState = PoolState(
    base: nat,               // address of the arena
    cells: seq<Word>,        // its memory
    free: seq<seq<nat>>,     // per class: the free list, head first
    live: seq<set<nat>>,     // per class: blocks handed out
    os: map<nat, nat>)       // operating-system allocations: address to size

  // Does the address lie in the arena?  The only test a release makes.
  predicate InArena(base: nat, ptr: nat) {
    base <= ptr < base + ARENA_BYTES
  }

  // ---- The invariant ----

  // Each size class has a page of its own.
  ghost predicate ClassInv(base: nat, cells: seq<Word>, free: seq<nat>, live: set<nat>, c: nat)
    requires c < CLASS_CNT && |cells| == ARENA_CELLS
  {
    PageInv(base, cells, free, live, PAGE_CELLS * c, c)
  }

  // A block of n bytes at p, given out by malloc, keeps clear of the arena.
  predicate OutsideArena(base: nat, p: nat, n: nat) {
    NULL < p && ((p < base && p + n <= base) || base + ARENA_BYTES <= p)
  }

  predicate Apart(p: nat, m: nat, q: nat, n: nat) {
    p + m <= q || q + n <= p
  }

  ghost predicate OsInv(base: nat, os: map<nat, nat>) {
    && (forall p :: p in os ==> OutsideArena(base, p, os[p]))
    && (forall p, q :: p in os && q in os && p != q ==> Apart(p, os[p], q, os[q]))
  }

  ghost predicate Shape(s: PoolState) {
    && |s.cells| == ARENA_CELLS && |s.free| == CLASS_CNT && |s.live| == CLASS_CNT
    && NULL < s.base && s.base + ARENA_BYTES < 0x1_0000_0000_0000_0000
  }

  ghost predicate Inv(s: PoolState) {
    && Shape(s)
    && (forall c :: 0 <= c < CLASS_CNT ==> ClassInv(s.base, s.cells, s.free[c], s.live[c], c))
    && OsInv(s.base, s.os)
  }

  // ---- Operations ----

  // Pop the class's free list and clear the block; NULL when no class fits or the list is empty.
  ghost function PoolAlloc(s: PoolState, allocSize: nat): (r: (PoolState, nat))
    requires Shape(s)
  {
    var slot := ChooseSlotBlockIdByAllocSize(allocSize);
    if slot == INVALID_SLOT_INDEX || s.free[slot] == [] then (s, NULL)
    else
      var i := s.free[slot][0];
      (s.(cells := Zeroed(s.cells, i, Cells(slot)),
          free := s.free[slot := s.free[slot][1..]],
          live := s.live[slot := s.live[slot] + {i}]),
       Ptr(s.base, i))
  }

  // Pool first, operating system second; osPtr is what malloc would answer.
  ghost function MemAlloc(s: PoolState, allocSize: nat, osPtr: nat): (r: (PoolState, nat))
    requires Shape(s)
  {
    var (s', ptr) := PoolAlloc(s, allocSize);
    if ptr == NULL then (s'.(os := s'.os[osPtr := allocSize]), osPtr) else (s', ptr)
  }

  // The block's class-c list regains it at the front; its first cell becomes the link.
  ghost function PoolFree(s: PoolState, ptr: nat, freeSize: nat): (s': PoolState)
    requires Shape(s) && InArena(s.base, ptr)
  {
    var slot := ChooseSlotBlockIdByAllocSize(freeSize);
    if slot == INVALID_SLOT_INDEX then s
    else
      var i := (ptr - s.base) / 8;
      s.(cells := s.cells[i := AsWord(Head(s.base, s.free[slot]))],
         free := s.free[slot := [i] + s.free[slot]],
         live := s.live[slot := s.live[slot] - {i}])
  }

  ghost function MemFree(s: PoolState, ptr: nat, freeSize: nat): (s': PoolState)
    requires Shape(s)
  {
    if ptr == NULL then s
    else if InArena(s.base, ptr) then PoolFree(s, ptr, freeSize)
    else s.(os := s.os - {ptr})
  }

  // What malloc promises: a fresh non-null block.
  ghost predicate OsFresh(s: PoolState, osPtr: nat, size: nat) {
    && OutsideArena(s.base, osPtr, size) && osPtr !in s.os
    && forall q :: q in s.os ==> Apart(osPtr, size, q, s.os[q])
  }

  // ptr is the pool block of class c starting at cell i, and it is handed out.
  ghost predicate LiveBlock(s: PoolState, ptr: nat, c: nat, i: nat)
    requires Shape(s)
  {
    c < CLASS_CNT && i in s.live[c] && ptr == Ptr(s.base, i)
  }

  // What releasing demands: an outstanding allocation, named with a size of its own class.
  ghost predicate CanFree(s: PoolState, ptr: nat, freeSize: nat)
    requires Shape(s)
  {
    || ptr == NULL
    || ptr in s.os
    || (&& InArena(s.base, ptr) && (ptr - s.base) % 8 == 0
        && LiveBlock(s, ptr, ChooseSlotBlockIdByAllocSize(freeSize), (ptr - s.base) / 8))
  }

  // Cell k belongs to a block that is handed out.
  ghost predicate OwnedCell(s: PoolState, k: nat)
    requires Shape(s)
  {
    exists c, i :: 0 <= c < CLASS_CNT && i in s.live[c] && i <= k < i + Cells(c)
  }

  // ---- One operation keeps the invariant ----

  // Blocks of two different classes lie in different pages.
  lemma ClassesSeparate(c: nat, d: nat, i: nat, j: nat)
    requires c < CLASS_CNT && d < CLASS_CNT && c != d
    requires IsBlock(PAGE_CELLS * c, c, i) && IsBlock(PAGE_CELLS * d, d, j)
    ensures i + Cells(c) <= j || j + Cells(d) <= i
  {
    PagesSeparate(PAGE_CELLS * c, c, i, PAGE_CELLS * d, d, j);
  }

  lemma PoolAllocKeepsInv(s: PoolState, allocSize: nat)
    requires Inv(s)
    ensures Inv(PoolAlloc(s, allocSize).0)
  {
    var s' := PoolAlloc(s, allocSize).0;
    var slot := ChooseSlotBlockIdByAllocSize(allocSize);
    if slot < CLASS_CNT && s.free[slot] != [] {
      var i := s.free[slot][0];
      PagePop(s.base, s.cells, s.free[slot], s.live[slot], PAGE_CELLS * slot, slot);
      forall c | 0 <= c < CLASS_CNT
        ensures ClassInv(s'.base, s'.cells, s'.free[c], s'.live[c], c)
      {
        if c != slot {
          forall j | j in s.free[c]
            ensures s'.cells[j] == s.cells[j]
          {
            ClassesSeparate(slot, c, i, j);
          }
          PageFrame(s.base, s.cells, s'.cells, s.free[c], s.live[c], PAGE_CELLS * c, c);
        }
      }
    }
  }

  lemma MemAllocKeepsInv(s: PoolState, allocSize: nat, osPtr: nat)
    requires Inv(s) && OsFresh(s, osPtr, allocSize)
    ensures Inv(MemAlloc(s, allocSize, osPtr).0)
  {
    PoolAllocKeepsInv(s, allocSize);
  }

  lemma MemFreeKeepsInv(s: PoolState, ptr: nat, freeSize: nat)
    requires Inv(s) && CanFree(s, ptr, freeSize)
    ensures Inv(MemFree(s, ptr, freeSize))
  {
    var s' := MemFree(s, ptr, freeSize);
    if ptr != NULL && InArena(s.base, ptr) {
      var slot, i := ChooseSlotBlockIdByAllocSize(freeSize), (ptr - s.base) / 8;
      PagePush(s.base, s.cells, s.free[slot], s.live[slot], PAGE_CELLS * slot, slot, i);
      forall c | 0 <= c < CLASS_CNT
        ensures ClassInv(s'.base, s'.cells, s'.free[c], s'.live[c], c)
      {
        if c != slot {
          PageFrame(s.base, s.cells, s'.cells, s.free[c], s.live[c], PAGE_CELLS * c, c);
        }
      }
    }
  }

  // An owner may write anything anywhere in its block.
  lemma StoreKeepsInv(s: PoolState, k: nat, w: Word)
    requires Inv(s) && OwnedCell(s, k)
    ensures k < ARENA_CELLS && Inv(s.(cells := s.cells[k := w]))
  {
    var d, b :| 0 <= d < CLASS_CNT && b in s.live[d] && b <= k < b + Cells(d);
    BlockFits(PAGE_CELLS * d, d, b);
    var cells' := s.cells[k := w];
    forall c | 0 <= c < CLASS_CNT
      ensures ClassInv(s.base, cells', s.free[c], s.live[c], c)
    {
      forall j | j in s.free[c]
        ensures cells'[j] == s.cells[j]
      {
        if c == d {
          BlocksSeparate(PAGE_CELLS * c, c, b, j);
        } else {
          ClassesSeparate(d, c, b, j);
        }
      }
      PageFrame(s.base, s.cells, cells', s.free[c], s.live[c], PAGE_CELLS * c, c);
    }
  }
}
