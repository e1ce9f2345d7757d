/** Arithmetic of equal-sized blocks in a page of 512 eight-byte cells, and free lists
    threaded through the first cell of each free block.  Both allocators of the server,
    the memory pool and the page splitter of the memory contexts, are built on it.

    A block is named by the index of its first cell; its address is base + 8 * index. */
module Blocks {

  const PAGE_SIZE: nat := 4096
  const PAGE_CELLS: nat := 512
  const CLASS_CNT: nat := 9
  const NULL: nat := 0

  // The contents of one 64-bit cell.
  type Word = w: nat | w < 0x1_0000_0000_0000_0000

  // A pointer as stored in one cell.
  function AsWord(p: nat): (w: Word)
    ensures p < 0x1_0000_0000_0000_0000 ==> w == p
  {
    p % 0x1_0000_0000_0000_0000
  }

  // Cells in one block of size class c: blocks are 8, 16, ..., 2048 bytes.
  function Cells(c: nat): (n: nat)
    requires c < CLASS_CNT
  {
    if c == 0 then 1 else if c == 1 then 2 else if c == 2 then 4 else if c == 3 then 8 else if c == 4 then 16
    else if c == 5 then 32 else if c == 6 then 64 else if c == 7 then 128 else 256
  }

  // Is a distance of d cells a whole number of class-c blocks?
  predicate Aligned(c: nat, d: int)
    requires c < CLASS_CNT
  {
    if c == 0 then true else if c == 1 then d % 2 == 0 else if c == 2 then d % 4 == 0
    else if c == 3 then d % 8 == 0 else if c == 4 then d % 16 == 0 else if c == 5 then d % 32 == 0
    else if c == 6 then d % 64 == 0 else if c == 7 then d % 128 == 0 else d % 256 == 0
  }

  // Cell i starts a class-c block of the page whose first cell is o.
  predicate IsBlock(o: nat, c: nat, i: nat)
    requires c < CLASS_CNT
  {
    o <= i < o + PAGE_CELLS && Aligned(c, i - o)
  }

  predicate Distinct(s: seq<nat>) {
    forall j, k :: 0 <= j < k < |s| ==> s[j] != s[k]
  }

  // Entry j + 1 lies step cells after entry j.
  predicate StepAt(s: seq<nat>, step: nat, j: nat) {
    j + 1 < |s| && s[j + 1] == s[j] + step
  }

  // Two multiples of z, the first below the second, differ by at least z.
  lemma MultiplesApart(z: nat, a: int, b: int)
    requires 1 <= z && a % z == 0 && b % z == 0 && a < b
    ensures a + z <= b
  {
    var p, q := a / z, b / z;
    assert a == z * p && b == z * q;
    assert q <= p ==> z * q <= z * p;
    assert p + 1 <= q ==> z * (p + 1) <= z * q;
  }

  lemma AlignedApart(c: nat, a: int, b: int)
    requires c < CLASS_CNT && Aligned(c, a) && Aligned(c, b) && a < b
    ensures a + Cells(c) <= b
  {
    if c == 0 {
    } else if c == 1 {
      MultiplesApart(2, a, b);
    } else if c == 2 {
      MultiplesApart(4, a, b);
    } else if c == 3 {
      MultiplesApart(8, a, b);
    } else if c == 4 {
      MultiplesApart(16, a, b);
    } else if c == 5 {
      MultiplesApart(32, a, b);
    } else if c == 6 {
      MultiplesApart(64, a, b);
    } else if c == 7 {
      MultiplesApart(128, a, b);
    } else {
      MultiplesApart(256, a, b);
    }
  }

  lemma BlockFits(o: nat, c: nat, i: nat)
    requires c < CLASS_CNT && IsBlock(o, c, i)
    ensures i + Cells(c) <= o + PAGE_CELLS
  {
    AlignedApart(c, i - o, PAGE_CELLS);
  }

  lemma BlocksApart(o: nat, c: nat, i: nat, j: nat)
    requires c < CLASS_CNT && IsBlock(o, c, i) && IsBlock(o, c, j) && i < j
    ensures i + Cells(c) <= j
  {
    AlignedApart(c, i - o, j - o);
  }

  lemma BlockAfter(o: nat, c: nat, i: nat)
    requires c < CLASS_CNT && IsBlock(o, c, i) && i + Cells(c) < o + PAGE_CELLS
    ensures IsBlock(o, c, i + Cells(c))
  {
    if c == 0 {
    } else if c == 1 {
      assert (i - o + 2) % 2 == 0;
    } else if c == 2 {
      assert (i - o + 4) % 4 == 0;
    } else if c == 3 {
      assert (i - o + 8) % 8 == 0;
    } else if c == 4 {
      assert (i - o + 16) % 16 == 0;
    } else if c == 5 {
      assert (i - o + 32) % 32 == 0;
    } else if c == 6 {
      assert (i - o + 64) % 64 == 0;
    } else if c == 7 {
      assert (i - o + 128) % 128 == 0;
    } else {
      assert (i - o + 256) % 256 == 0;
    }
  }

  // ---- The list of all blocks of a page, in address order ----

  function BlocksFrom(i: nat, c: nat, end: nat): (s: seq<nat>)
    requires c < CLASS_CNT
    decreases end - i
  {
    if end <= i then [] else [i] + BlocksFrom(i + Cells(c), c, end)
  }

  function AllBlocks(o: nat, c: nat): (s: seq<nat>)
    requires c < CLASS_CNT
  {
    BlocksFrom(o, c, o + PAGE_CELLS)
  }

  // From an aligned cell on, the list holds exactly the blocks at or above it, in increasing order.
  lemma {:induction false} BlocksFromComplete(o: nat, i: nat, c: nat)
    requires c < CLASS_CNT && (i == o + PAGE_CELLS || IsBlock(o, c, i))
    ensures var s := BlocksFrom(i, c, o + PAGE_CELLS);
            && |s| * Cells(c) == o + PAGE_CELLS - i
            && (forall b :: b in s <==> IsBlock(o, c, b) && i <= b)
            && Distinct(s)
            && (forall j :: 0 <= j < |s| - 1 ==> StepAt(s, Cells(c), j))
            && (s != [] ==> s[0] == i)
    decreases o + PAGE_CELLS - i
  {
    hide Cells, Aligned;
    if i < o + PAGE_CELLS {
      BlockFits(o, c, i);
      if i + Cells(c) < o + PAGE_CELLS {
        BlockAfter(o, c, i);
      }
      var rest := BlocksFrom(i + Cells(c), c, o + PAGE_CELLS);
      BlocksFromComplete(o, i + Cells(c), c);
      var s := BlocksFrom(i, c, o + PAGE_CELLS);
      StepsCons(i, rest, Cells(c));
      assert (1 + |rest|) * Cells(c) == Cells(c) + |rest| * Cells(c);
      forall b | IsBlock(o, c, b) && i < b
        ensures i + Cells(c) <= b
      {
        BlocksApart(o, c, i, b);
      }
    }
  }

  // Entries at a fixed distance, and one more in front.
  lemma StepsCons(i: nat, rest: seq<nat>, step: nat)
    requires rest != [] ==> rest[0] == i + step
    requires forall j :: 0 <= j < |rest| - 1 ==> StepAt(rest, step, j)
    ensures forall j :: 0 <= j < |rest| ==> StepAt([i] + rest, step, j)
  {
    forall j | 0 <= j < |rest|
      ensures StepAt([i] + rest, step, j)
    {
      assert j > 0 ==> StepAt(rest, step, j - 1);
    }
  }

  lemma AllBlocksComplete(o: nat, c: nat)
    requires c < CLASS_CNT
    ensures |AllBlocks(o, c)| == PAGE_CELLS / Cells(c)
    ensures forall b :: b in AllBlocks(o, c) <==> IsBlock(o, c, b)
    ensures Distinct(AllBlocks(o, c))
    ensures AllBlocks(o, c) != [] && AllBlocks(o, c)[0] == o
    ensures forall j :: 0 <= j < |AllBlocks(o, c)| - 1 ==> StepAt(AllBlocks(o, c), Cells(c), j)
  {
    BlocksFromComplete(o, o, c);
    var n := |AllBlocks(o, c)|;
    assert n * Cells(c) == PAGE_CELLS;
  }

  // The blocks of a page lie in any memory that holds the page, and have addresses.
  lemma PageListFits(base: nat, o: nat, c: nat, cellCnt: nat)
    requires c < CLASS_CNT && o + PAGE_CELLS <= cellCnt && base + 8 * cellCnt < 0x1_0000_0000_0000_0000
    ensures var list := AllBlocks(o, c);
            forall j :: 0 <= j < |list| ==> list[j] < cellCnt && Ptr(base, list[j]) < 0x1_0000_0000_0000_0000
  {
    AllBlocksComplete(o, c);
    var list := AllBlocks(o, c);
    assert forall j :: 0 <= j < |list| ==> list[j] in list;
  }

  function Elems(s: seq<nat>): set<nat> {
    set b | b in s
  }

  lemma {:induction false} DistinctSize(s: seq<nat>)
    requires Distinct(s)
    ensures |Elems(s)| == |s|
  {
    if s != [] {
      DistinctSize(s[1..]);
      assert Elems(s) == {s[0]} + Elems(s[1..]);
    }
  }

  // ---- Free lists threaded through the blocks ----

  function Ptr(base: nat, i: nat): (p: nat) {
    base + 8 * i
  }

  function Head(base: nat, list: seq<nat>): (p: nat) {
    if list == [] then NULL else Ptr(base, list[0])
  }

  // The word a list keeps in the first cell of its j-th block.
  function LinkAfter(base: nat, list: seq<nat>, j: nat): (p: nat)
    requires j < |list|
  {
    if j + 1 < |list| then Ptr(base, list[j + 1]) else NULL
  }

  ghost predicate Linked(base: nat, cells: seq<Word>, list: seq<nat>) {
    && (forall j :: 0 <= j < |list| ==> list[j] < |cells|)
    && (forall j {:trigger LinkAfter(base, list, j)} {:trigger cells[list[j]]} ::
          0 <= j < |list| ==> cells[list[j]] == LinkAfter(base, list, j))
  }

  // Reading memory only: start at ptr and follow the in-block links for at most n steps.
  function Walk(base: nat, cells: seq<Word>, ptr: nat, n: nat): (s: seq<nat>)
    decreases n
  {
    if n == 0 || ptr < base || base + 8 * |cells| <= ptr then []
    else [(ptr - base) / 8] + Walk(base, cells, cells[(ptr - base) / 8], n - 1)
  }

  // Walking the links meets exactly the blocks of the list, in order, and then stops at NULL.
  lemma {:induction false} WalkVisitsList(base: nat, cells: seq<Word>, list: seq<nat>, n: nat)
    requires base > NULL && Linked(base, cells, list) && |list| <= n
    ensures Walk(base, cells, Head(base, list), n) == list
  {
    if list != [] {
      var rest := list[1..];
      assert cells[list[0]] == LinkAfter(base, list, 0) == Head(base, rest);
      LinkedTail(base, cells, list);
      WalkVisitsList(base, cells, rest, n - 1);
    }
  }

  // Following the links from head for any number of steps that suffices meets exactly the blocks of the
  // list, in order; the last of them, or head itself when there is none, is NULL.
  ghost predicate LeadsThrough(base: nat, cells: seq<Word>, head: nat, list: seq<nat>) {
    && (forall n :: |list| <= n ==> Walk(base, cells, head, n) == list)
    && (forall j :: 0 <= j < |list| ==> list[j] < |cells|)
    && NULL == if list == [] then head else cells[list[|list| - 1]]
  }

  lemma LinkedLeadsThrough(base: nat, cells: seq<Word>, list: seq<nat>)
    requires base > NULL && Linked(base, cells, list)
    ensures LeadsThrough(base, cells, Head(base, list), list)
  {
    forall n | |list| <= n
      ensures Walk(base, cells, Head(base, list), n) == list
    {
      WalkVisitsList(base, cells, list, n);
    }
    assert list != [] ==> cells[list[|list| - 1]] == LinkAfter(base, list, |list| - 1);
  }

  lemma LinkedTail(base: nat, cells: seq<Word>, list: seq<nat>)
    requires Linked(base, cells, list) && list != []
    ensures Linked(base, cells, list[1..])
  {
    forall j | 0 <= j < |list[1..]|
      ensures cells[list[1..][j]] == LinkAfter(base, list[1..], j)
    {
      assert cells[list[j + 1]] == LinkAfter(base, list, j + 1);
    }
  }

  // A list is untouched by changes to cells that start none of its blocks.
  lemma LinkedFrame(base: nat, cells: seq<Word>, cells': seq<Word>, list: seq<nat>)
    requires Linked(base, cells, list) && |cells'| == |cells|
    requires forall b :: b in list ==> cells'[b] == cells[b]
    ensures Linked(base, cells', list)
  {
    forall j | 0 <= j < |list|
      ensures cells'[list[j]] == LinkAfter(base, list, j)
    {
      assert list[j] in list;
      assert cells[list[j]] == LinkAfter(base, list, j);
    }
  }

  lemma LinkedCons(base: nat, cells: seq<Word>, list: seq<nat>, i: nat)
    requires Linked(base, cells, list) && i < |cells| && i !in list
    requires Head(base, list) < 0x1_0000_0000_0000_0000
    ensures Linked(base, cells[i := Head(base, list)], [i] + list)
  {
    var cells', list' := cells[i := Head(base, list)], [i] + list;
    forall j | 0 <= j < |list'|
      ensures cells'[list'[j]] == LinkAfter(base, list', j)
    {
      if j > 0 {
        assert list'[j] == list[j - 1] && list[j - 1] in list;
        assert cells[list[j - 1]] == LinkAfter(base, list, j - 1);
      }
    }
  }

  // The first n blocks of the list hold their links.
  ghost predicate LinkedUpTo(base: nat, cells: seq<Word>, list: seq<nat>, n: nat)
    requires n <= |list| && forall j :: 0 <= j < |list| ==> list[j] < |cells|
  {
    forall j :: 0 <= j < n ==> LinkedAt(base, cells, list, j)
  }

  ghost predicate LinkedAt(base: nat, cells: seq<Word>, list: seq<nat>, j: nat)
    requires j < |list| && list[j] < |cells|
  {
    cells[list[j]] == LinkAfter(base, list, j)
  }

  // Storing the link of block n leaves those of the blocks before it.
  lemma LinkedUpToNext(base: nat, cells: seq<Word>, list: seq<nat>, n: nat, w: Word)
    requires Distinct(list) && (forall j :: 0 <= j < |list| ==> list[j] < |cells|)
    requires n < |list| && LinkedUpTo(base, cells, list, n) && w == LinkAfter(base, list, n)
    ensures LinkedUpTo(base, cells[list[n] := w], list, n + 1)
  {
    var cells' := cells[list[n] := w];
    forall j | 0 <= j < n + 1
      ensures LinkedAt(base, cells', list, j)
    {
      assert j < n ==> LinkedAt(base, cells, list, j) && list[j] != list[n];
    }
  }

  lemma LinkedWhole(base: nat, cells: seq<Word>, list: seq<nat>)
    requires forall j :: 0 <= j < |list| ==> list[j] < |cells|
    requires LinkedUpTo(base, cells, list, |list|)
    ensures Linked(base, cells, list)
  {
    forall j | 0 <= j < |list|
      ensures cells[list[j]] == LinkAfter(base, list, j)
    {
      assert LinkedAt(base, cells, list, j);
    }
  }

  // Only cells that start blocks of the list differ.
  ghost predicate SameOutside(cells: seq<Word>, cells': seq<Word>, list: seq<nat>) {
    |cells'| == |cells| && forall k :: 0 <= k < |cells| && k !in list ==> cells'[k] == cells[k]
  }

  // Store in each of n blocks, step cells apart, the address of the next one, and NULL in the last.
  method ThreadBlocks(base: nat, cells: array<Word>, first: nat, step: nat, n: nat, ghost list: seq<nat>)
    requires |list| == n > 0 && list[0] == first
    requires forall j :: 0 <= j < n - 1 ==> StepAt(list, step, j)
    requires Distinct(list)
    requires forall j :: 0 <= j < n ==> list[j] < cells.Length && Ptr(base, list[j]) < 0x1_0000_0000_0000_0000
    modifies cells
    ensures Linked(base, cells[..], list)
    ensures SameOutside(old(cells[..]), cells[..], list)
  {
    var pCurList := first;
    for j := 0 to n - 1
      invariant pCurList == list[j]
      invariant LinkedUpTo(base, cells[..], list, j)
      invariant SameOutside(old(cells[..]), cells[..], list)
    {
      assert StepAt(list, step, j);
      StoreLink(base, cells, pCurList, Ptr(base, pCurList + step), list, j);
      pCurList := pCurList + step;
    }
    StoreLink(base, cells, pCurList, NULL, list, n - 1);
    LinkedWhole(base, cells[..], list);
  }

  // The store of one link.
  method StoreLink(base: nat, cells: array<Word>, block: nat, link: Word, ghost list: seq<nat>, ghost j: nat)
    requires forall i :: 0 <= i < |list| ==> list[i] < cells.Length
    requires Distinct(list) && j < |list| && block == list[j] && link == LinkAfter(base, list, j)
    requires LinkedUpTo(base, cells[..], list, j)
    modifies cells
    ensures LinkedUpTo(base, cells[..], list, j + 1)
    ensures SameOutside(old(cells[..]), cells[..], list)
  {
    LinkedUpToNext(base, cells[..], list, j, link);
    assert block in list;
    cells[block] := link;
    assert cells[..] == old(cells[..])[block := link];
  }

  // ---- One page of equal blocks ----

  function Zeroed(cells: seq<Word>, i: nat, n: nat): (r: seq<Word>)
    ensures |r| == |cells|
    ensures forall k :: 0 <= k < |cells| ==> r[k] == if i <= k < i + n then 0 else cells[k]
  {
    seq(|cells|, k requires 0 <= k < |cells| => if i <= k < i + n then 0 else cells[k])
  }

  // memset of n cells to zero.
  method ClearCells(cells: array<Word>, i: nat, n: nat)
    requires i + n <= cells.Length
    modifies cells
    ensures cells[..] == Zeroed(old(cells[..]), i, n)
  {
    forall k | i <= k < i + n {
      cells[k] := 0;
    }
  }

  // The page starting at cell o is cut into class-c blocks, each either on the free list or live.
  ghost predicate PageInv(base: nat, cells: seq<Word>, free: seq<nat>, live: set<nat>, o: nat, c: nat)
    requires c < CLASS_CNT && o + PAGE_CELLS <= |cells|
  {
    && Linked(base, cells, free)
    && Distinct(free)
    && (forall i :: i in free ==> IsBlock(o, c, i) && i !in live)
    && (forall i :: i in live ==> IsBlock(o, c, i))
    && (forall i :: IsBlock(o, c, i) ==> i in free || i in live)
  }

  lemma BlocksSeparate(o: nat, c: nat, i: nat, j: nat)
    requires c < CLASS_CNT && i != j && IsBlock(o, c, i) && IsBlock(o, c, j)
    ensures i + Cells(c) <= j || j + Cells(c) <= i
  {
    if i < j {
      BlocksApart(o, c, i, j);
    } else {
      BlocksApart(o, c, j, i);
    }
  }

  // Blocks of different pages do not overlap.
  lemma PagesSeparate(o: nat, c: nat, i: nat, p: nat, d: nat, j: nat)
    requires c < CLASS_CNT && d < CLASS_CNT && (o + PAGE_CELLS <= p || p + PAGE_CELLS <= o)
    requires IsBlock(o, c, i) && IsBlock(p, d, j)
    ensures i + Cells(c) <= j || j + Cells(d) <= i
  {
    BlockFits(o, c, i);
    BlockFits(p, d, j);
  }

  lemma PageFrame(base: nat, cells: seq<Word>, cells': seq<Word>, free: seq<nat>, live: set<nat>, o: nat, c: nat)
    requires c < CLASS_CNT && |cells| == |cells'| && o + PAGE_CELLS <= |cells|
    requires PageInv(base, cells, free, live, o, c)
    requires forall i :: i in free ==> cells'[i] == cells[i]
    ensures PageInv(base, cells', free, live, o, c)
  {
    LinkedFrame(base, cells, cells', free);
  }

  // Taking the first free block and clearing it.
  lemma PagePop(base: nat, cells: seq<Word>, free: seq<nat>, live: set<nat>, o: nat, c: nat)
    requires c < CLASS_CNT && o + PAGE_CELLS <= |cells| && free != []
    requires PageInv(base, cells, free, live, o, c)
    ensures PageInv(base, Zeroed(cells, free[0], Cells(c)), free[1..], live + {free[0]}, o, c)
  {
    var cells', rest := Zeroed(cells, free[0], Cells(c)), free[1..];
    LinkedTail(base, cells, free);
    forall i | i in rest
      ensures cells'[i] == cells[i] && i in free && i != free[0]
    {
      BlocksSeparate(o, c, free[0], i);
    }
    LinkedFrame(base, cells, cells', rest);
    assert free == [free[0]] + rest;
  }

  // Returning a live block to the front of the list.
  lemma PagePush(base: nat, cells: seq<Word>, free: seq<nat>, live: set<nat>, o: nat, c: nat, i: nat)
    requires c < CLASS_CNT && o + PAGE_CELLS <= |cells| && i in live
    requires base + 8 * |cells| < 0x1_0000_0000_0000_0000
    requires PageInv(base, cells, free, live, o, c)
    ensures Head(base, free) < 0x1_0000_0000_0000_0000
    ensures PageInv(base, cells[i := Head(base, free)], [i] + free, live - {i}, o, c)
  {
    assert free != [] ==> free[0] in free;
    LinkedCons(base, cells, free, i);
  }

  // The first free block lies in the page and holds the link to the rest of its list.
  lemma FirstFree(base: nat, cells: seq<Word>, free: seq<nat>, live: set<nat>, o: nat, c: nat)
    requires c < CLASS_CNT && o + PAGE_CELLS <= |cells| && free != []
    requires PageInv(base, cells, free, live, o, c)
    ensures o <= free[0] && free[0] + Cells(c) <= o + PAGE_CELLS
    ensures cells[free[0]] == Head(base, free[1..])
  {
    assert free[0] in free;
    BlockFits(o, c, free[0]);
    assert cells[free[0]] == LinkAfter(base, free, 0);
  }

  // Free and live blocks account for the whole page.
  lemma PageCount(base: nat, cells: seq<Word>, free: seq<nat>, live: set<nat>, o: nat, c: nat)
    requires c < CLASS_CNT && o + PAGE_CELLS <= |cells| && PageInv(base, cells, free, live, o, c)
    ensures |free| + |live| == PAGE_CELLS / Cells(c)
  {
    var all := AllBlocks(o, c);
    AllBlocksComplete(o, c);
    DistinctSize(all);
    DistinctSize(free);
    assert Elems(all) == Elems(free) + live && Elems(free) !! live;
  }

  // A page whose list is complete has nothing handed out.
  lemma CompleteListInv(base: nat, cells: seq<Word>, o: nat, c: nat)
    requires c < CLASS_CNT && o + PAGE_CELLS <= |cells| && Linked(base, cells, AllBlocks(o, c))
    ensures PageInv(base, cells, AllBlocks(o, c), {}, o, c)
  {
    AllBlocksComplete(o, c);
  }
}
