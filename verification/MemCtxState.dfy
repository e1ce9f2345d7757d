/** What the memory contexts do, as functions on states: a tree of contexts that borrow pages from
    their ancestors and cut them into slots.

    The slot layer is modelled as its comments intend, in two places where the code differs from
    them: splitting a page clears the page's contents, not its header (memctx_main.c:358-360), and
    the search for a slot ends at a missing page, not at a page without a successor
    (memctx_main.c:381). */
module MemCtxState {
  import opened Blocks

  const MEM_FIX_SIZE_LEVEL: nat := 8
  const MEM_BIG_ALLOC_SIZE: nat := 1024

  // Where a page is: on a context's free list, on a context's list of one slot size, or taken off a
  // free list and not yet split.
  datatype Owner = FreeOf(ctx: nat) | SlotsOf(ctx: nat, level: nat) | Taken

  datatype CtxState = CtxState(
    base: nat,                      // address of the first page
    cells: seq<Word>,               // memory of all pages
    parents: seq<int>,              // per context: its parent, -1 for a top context
    free: seq<seq<nat>>,            // per context: the free pages, head first
    levels: seq<seq<seq<nat>>>,     // per context and level: the split pages, newest first
    owner: seq<Owner>,              // per page
    slots: seq<seq<nat>>,           // per page: free slots in link order
    out: seq<set<nat>>)             // per page: slots handed out

  // ---- The invariant ----

  ghost predicate Shape(s: CtxState) {
    && |s.free| == |s.levels| == |s.parents|
    && (forall c :: 0 <= c < |s.levels| ==> |s.levels[c]| == MEM_FIX_SIZE_LEVEL)
    && (forall c :: 0 <= c < |s.parents| ==> -1 <= s.parents[c] < c)
    && |s.slots| == |s.out| == |s.owner|
    && |s.cells| == PAGE_CELLS * |s.owner|
    && NULL < s.base && s.base + 8 * |s.cells| < 0x1_0000_0000_0000_0000
  }

  // The list holds exactly the pages of this owner, each once.
  ghost predicate Holds(owner: seq<Owner>, list: seq<nat>, o: Owner) {
    && Distinct(list)
    && (forall p :: p in list ==> p < |owner| && owner[p] == o)
    && (forall p :: 0 <= p < |owner| && owner[p] == o ==> p in list)
  }

  ghost predicate ListsInv(s: CtxState)
    requires Shape(s)
  {
    && (forall c :: 0 <= c < |s.free| ==> Holds(s.owner, s.free[c], FreeOf(c)))
    && (forall c, l :: 0 <= c < |s.levels| && 0 <= l < MEM_FIX_SIZE_LEVEL ==>
          Holds(s.owner, s.levels[c][l], SlotsOf(c, l)))
    && (forall p :: 0 <= p < |s.owner| ==> OwnerOk(s.owner[p], |s.parents|))
  }

  predicate OwnerOk(o: Owner, n: nat) {
    match o
    case FreeOf(c) => c < n
    case SlotsOf(c, l) => c < n && l < MEM_FIX_SIZE_LEVEL
    case Taken => true
  }

  // A split page's slots are its free chain and the slots handed out; other pages hand out nothing.
  ghost predicate PageOk(s: CtxState, p: nat)
    requires Shape(s) && p < |s.owner|
  {
    match s.owner[p]
    case SlotsOf(c, l) =>
      l < MEM_FIX_SIZE_LEVEL && PageFits(s, p) && PageInv(s.base, s.cells, s.slots[p], s.out[p], PAGE_CELLS * p, l)
    case _ => s.out[p] == {}
  }

  ghost predicate PageFits(s: CtxState, p: nat) {
    PAGE_CELLS * p + PAGE_CELLS <= |s.cells|
  }

  ghost predicate Inv(s: CtxState) {
    && Shape(s)
    && ListsInv(s)
    && forall p :: 0 <= p < |s.owner| ==> PageOk(s, p)
  }

  function UpTo(n: nat): (s: seq<nat>)
    ensures |s| == n && forall i :: 0 <= i < n ==> s[i] == i
  {
    seq(n, i => i)
  }

  // All pages on the list of context 0, in address order; the tree of contexts is given.
  ghost function InitialState(base: nat, cells: seq<Word>, parents: seq<int>, pageCnt: nat): (s: CtxState) {
    CtxState(base, cells, parents,
             seq(|parents|, c => if c == 0 then UpTo(pageCnt) else []),
             seq(|parents|, _ => seq(MEM_FIX_SIZE_LEVEL, _ => [])),
             seq(pageCnt, _ => FreeOf(0)), seq(pageCnt, _ => []), seq(pageCnt, _ => {}))
  }

  lemma InitialInv(base: nat, cells: seq<Word>, parents: seq<int>, pageCnt: nat)
    requires 0 < |parents| && forall c :: 0 <= c < |parents| ==> -1 <= parents[c] < c
    requires |cells| == PAGE_CELLS * pageCnt && NULL < base && base + 8 * |cells| < 0x1_0000_0000_0000_0000
    ensures Inv(InitialState(base, cells, parents, pageCnt))
  {
    var s := InitialState(base, cells, parents, pageCnt);
    forall p | 0 <= p < pageCnt
      ensures p in s.free[0]
    {
      assert UpTo(pageCnt)[p] == p;
    }
  }

  // ---- Borrowing ----

  // The contexts asked in turn: c, its parent, and so on up to a top context.
  function Chain(parents: seq<int>, c: int): (chain: seq<nat>)
    requires c < |parents| && forall i :: 0 <= i < |parents| ==> -1 <= parents[i] < i
    ensures forall k :: 0 <= k < |chain| ==> chain[k] <= c
    decreases if c < 0 then 0 else c + 1
  {
    if c < 0 then [] else [c] + Chain(parents, parents[c])
  }

  // The nearest context from c on that has a free page; -1 if the whole chain is empty.
  function NearestDonor(s: CtxState, c: int): (d: int)
    requires |s.free| == |s.parents| && c < |s.parents|
    requires forall i :: 0 <= i < |s.parents| ==> -1 <= s.parents[i] < i
    ensures -1 <= d <= c || d == -1
    ensures d >= 0 ==> s.free[d] != []
    decreases if c < 0 then 0 else c + 1
  {
    if c < 0 then -1 else if s.free[c] != [] then c else NearestDonor(s, s.parents[c])
  }

  // The first n contexts of the chain have no free page.
  ghost predicate EmptyUpTo(s: CtxState, chain: seq<nat>, n: nat)
    requires n <= |chain| && forall k :: 0 <= k < |chain| ==> chain[k] < |s.free|
  {
    forall k :: 0 <= k < n ==> s.free[chain[k]] == []
  }

  // It is the first of the chain with a free page, and there is none exactly when all are empty.
  lemma {:induction false} NearestDonorIsFirst(s: CtxState, c: int)
    requires |s.free| == |s.parents| && c < |s.parents|
    requires forall i :: 0 <= i < |s.parents| ==> -1 <= s.parents[i] < i
    ensures var chain, d := Chain(s.parents, c), NearestDonor(s, c);
            && (d == -1 <==> EmptyUpTo(s, chain, |chain|))
            && (d >= 0 ==> exists k :: 0 <= k < |chain| && chain[k] == d && EmptyUpTo(s, chain, k))
    decreases if c < 0 then 0 else c + 1
  {
    if c >= 0 {
      var rest := Chain(s.parents, s.parents[c]);
      var chain, d := Chain(s.parents, c), NearestDonor(s, c);
      assert chain == [c] + rest;
      NearestDonorIsFirst(s, s.parents[c]);
      if s.free[c] != [] {
        assert chain[0] == d && EmptyUpTo(s, chain, 0);
      } else {
        forall n: nat | n <= |rest|
          ensures EmptyUpTo(s, chain, n + 1) <==> EmptyUpTo(s, rest, n)
        {
          EmptyUpToCons(s, c, rest, n);
        }
        assert EmptyUpTo(s, chain, |rest| + 1) <==> EmptyUpTo(s, rest, |rest|);
        if d >= 0 {
          var k :| 0 <= k < |rest| && rest[k] == d && EmptyUpTo(s, rest, k);
          assert chain[k + 1] == d && EmptyUpTo(s, chain, k + 1);
        }
      }
    }
  }

  lemma EmptyUpToCons(s: CtxState, c: nat, rest: seq<nat>, n: nat)
    requires n <= |rest| && c < |s.free| && s.free[c] == [] && forall k :: 0 <= k < |rest| ==> rest[k] < |s.free|
    ensures EmptyUpTo(s, [c] + rest, n + 1) <==> EmptyUpTo(s, rest, n)
  {
    var chain := [c] + rest;
    assert forall k :: 0 <= k < n ==> rest[k] == chain[k + 1];
    assert forall k :: 0 < k < n + 1 ==> chain[k] == rest[k - 1];
  }

  // Move the donor's head page to the front of the borrower's list.
  function MovePage(s: CtxState, d: nat, m: nat): (s': CtxState)
    requires d < |s.free| && m < |s.free| && d != m && s.free[d] != [] && s.free[d][0] < |s.owner|
  {
    var p := s.free[d][0];
    s.(free := s.free[d := s.free[d][1..]][m := [p] + s.free[m]], owner := s.owner[p := FreeOf(m)])
  }

  // A page request up the chain from parent on behalf of m: false when the chain has no page.
  ghost function Borrow(s: CtxState, parent: int, m: nat): (r: (CtxState, bool))
    requires Inv(s) && parent < m < |s.parents|
  {
    var d := NearestDonor(s, parent);
    if d < 0 then (s, false)
    else
      assert s.free[d][0] in s.free[d] && Holds(s.owner, s.free[d], FreeOf(d));
      (MovePage(s, d, m), true)
  }

  lemma HoldsTail(owner: seq<Owner>, list: seq<nat>, o: Owner, o': Owner)
    requires Holds(owner, list, o) && list != [] && o' != o
    ensures list[0] in list && Holds(owner[list[0] := o'], list[1..], o)
  {
    var p, rest := list[0], list[1..];
    assert list == [p] + rest;
    forall q | q in rest
      ensures q != p && q in list
    {
      var k :| 0 <= k < |rest| && rest[k] == q;
      assert list[k + 1] == q;
    }
  }

  lemma HoldsCons(owner: seq<Owner>, list: seq<nat>, o: Owner, p: nat)
    requires Holds(owner, list, o) && p < |owner| && owner[p] != o
    ensures Holds(owner[p := o], [p] + list, o)
  {
  }

  lemma HoldsOther(owner: seq<Owner>, list: seq<nat>, o: Owner, p: nat, o': Owner)
    requires Holds(owner, list, o) && p < |owner| && owner[p] != o && o' != o
    ensures Holds(owner[p := o'], list, o)
  {
  }

  // Pages keep exactly one place each: the lists stay right when page p changes hands, given that the
  // two lists concerned are right.
  lemma ListsAfterChange(s: CtxState, s': CtxState, p: nat, o: Owner, o': Owner)
    requires Shape(s) && Shape(s') && ListsInv(s) && p < |s.owner| && s.owner[p] == o && o != o'
    requires s'.parents == s.parents && s'.owner == s.owner[p := o'] && OwnerOk(o', |s.parents|)
    requires forall c :: 0 <= c < |s.free| && (o == FreeOf(c) || o' == FreeOf(c))
               ==> Holds(s'.owner, s'.free[c], FreeOf(c))
    requires forall c :: 0 <= c < |s.free| && o != FreeOf(c) && o' != FreeOf(c) ==> s'.free[c] == s.free[c]
    requires forall c, l :: 0 <= c < |s.levels| && 0 <= l < MEM_FIX_SIZE_LEVEL
                            && (o == SlotsOf(c, l) || o' == SlotsOf(c, l))
               ==> Holds(s'.owner, s'.levels[c][l], SlotsOf(c, l))
    requires forall c, l :: 0 <= c < |s.levels| && 0 <= l < MEM_FIX_SIZE_LEVEL
                            && o != SlotsOf(c, l) && o' != SlotsOf(c, l)
               ==> s'.levels[c][l] == s.levels[c][l]
    ensures ListsInv(s')
  {
    forall c | 0 <= c < |s.free|
      ensures Holds(s'.owner, s'.free[c], FreeOf(c))
    {
      if o != FreeOf(c) && o' != FreeOf(c) {
        HoldsOther(s.owner, s.free[c], FreeOf(c), p, o');
      }
    }
    forall c, l | 0 <= c < |s.levels| && 0 <= l < MEM_FIX_SIZE_LEVEL
      ensures Holds(s'.owner, s'.levels[c][l], SlotsOf(c, l))
    {
      if o != SlotsOf(c, l) && o' != SlotsOf(c, l) {
        HoldsOther(s.owner, s.levels[c][l], SlotsOf(c, l), p, o');
      }
    }
  }

  // A page request takes the head page of the nearest context that has one and gives it to the
  // borrower; nothing else changes, no page is lost or doubled.
  lemma BorrowKeepsInv(s: CtxState, parent: int, m: nat)
    requires Inv(s) && parent < m < |s.parents|
    ensures Inv(Borrow(s, parent, m).0)
  {
    var d := NearestDonor(s, parent);
    if d >= 0 {
      var s' := Borrow(s, parent, m).0;
      var p := s.free[d][0];
      HoldsTail(s.owner, s.free[d], FreeOf(d), FreeOf(m));
      HoldsCons(s.owner, s.free[m], FreeOf(m), p);
      ListsAfterChange(s, s', p, FreeOf(d), FreeOf(m));
      forall q | 0 <= q < |s.owner|
        ensures PageOk(s', q)
      {
        assert PageOk(s, q);
      }
    }
  }

  // It is the donor's head page, and it heads the borrower's list.
  lemma BorrowMovesHeadPage(s: CtxState, parent: int, m: nat)
    requires Inv(s) && parent < m < |s.parents|
    ensures var (s', moved) := Borrow(s, parent, m);
            var d := NearestDonor(s, parent);
            && (moved <==> d >= 0) && (!moved ==> s' == s) && |s'.free| == |s.free|
            && (moved ==> s'.free[m] == [s.free[d][0]] + s.free[m] && s'.free[d] == s.free[d][1..])
            && (forall c :: 0 <= c < |s.free| && c != m && c != d ==> s'.free[c] == s.free[c])
            && s'.cells == s.cells && s'.levels == s.levels && s'.slots == s.slots && s'.out == s.out
  {
  }

  // ---- Taking a page ----

  // From the context's own list, after borrowing if that is empty; -1 when there is no page.
  ghost function TakePage(s: CtxState, m: nat): (r: (CtxState, int))
    requires Inv(s) && m < |s.parents|
    ensures Shape(r.0) && |r.0.owner| == |s.owner| && r.0.parents == s.parents && r.1 < |s.owner|
  {
    var s1 := if s.free[m] == [] then Borrow(s, s.parents[m], m).0 else s;
    BorrowIfNeededInv(s, m);
    var none: int := -1;
    if s1.free[m] == [] then (s1, none)
    else
      var p: int := s1.free[m][0];
      assert p in s1.free[m] && Holds(s1.owner, s1.free[m], FreeOf(m));
      (s1.(free := s1.free[m := s1.free[m][1..]], owner := s1.owner[p := Taken]), p)
  }

  lemma BorrowIfNeededInv(s: CtxState, m: nat)
    requires Inv(s) && m < |s.parents|
    ensures Inv(if s.free[m] == [] then Borrow(s, s.parents[m], m).0 else s)
  {
    if s.free[m] == [] {
      BorrowKeepsInv(s, s.parents[m], m);
    }
  }

  lemma TakePageKeepsInv(s: CtxState, m: nat)
    requires Inv(s) && m < |s.parents|
    ensures var (s', p) := TakePage(s, m);
            && Inv(s')
            && (p >= 0 ==> s'.owner[p] == Taken)
  {
    BorrowIfNeededInv(s, m);
    var s1 := if s.free[m] == [] then Borrow(s, s.parents[m], m).0 else s;
    if s1.free[m] != [] {
      var (s', p) := TakePage(s, m);
      HoldsTail(s1.owner, s1.free[m], FreeOf(m), Taken);
      ListsAfterChange(s1, s', p, FreeOf(m), Taken);
      forall q | 0 <= q < |s.owner|
        ensures PageOk(s', q)
      {
        assert PageOk(s1, q);
      }
    }
  }

  // Taking a page removes the head page of the nearest context, the requester first, that has one,
  // and changes no other list; it fails exactly when the requester's whole chain is empty, and then
  // changes nothing.
  lemma {:induction false} TakePageIsNearest(s: CtxState, m: nat)
    requires Inv(s) && m < |s.parents|
    ensures var (s', p) := TakePage(s, m);
            var d := NearestDonor(s, m);
            && (p == -1 <==> d == -1)
            && (d == -1 ==> s' == s)
            && (d >= 0 ==> p == s.free[d][0]
                           && s' == s.(free := s.free[d := s.free[d][1..]], owner := s.owner[p := Taken]))
  {
    var d := NearestDonor(s, m);
    if s.free[m] == [] && d >= 0 {
      var s1 := Borrow(s, s.parents[m], m).0;
      var p := s.free[d][0];
      assert ([p] + s.free[m])[1..] == s.free[m];
      var (s', q) := TakePage(s, m);
      assert s1.free[m] == [p] + s.free[m] && q == p;
      assert s'.free == s.free[d := s.free[d][1..]];
      assert s'.owner == s.owner[p := Taken];
    }
  }

  // ---- Splitting a page ----

  // The page's memory after it is cleared and threaded.
  ghost function SplitCells(base: nat, cells: seq<Word>, o: nat, l: nat): (r: seq<Word>)
    requires l < MEM_FIX_SIZE_LEVEL
    ensures |r| == |cells|
  {
    seq(|cells|, k requires 0 <= k < |cells| =>
      if !(o <= k < o + PAGE_CELLS) then cells[k]
      else if IsBlock(o, l, k) && k + Cells(l) < o + PAGE_CELLS then AsWord(Ptr(base, k + Cells(l)))
      else 0)
  }

  lemma SplitCellsLinked(base: nat, cells: seq<Word>, o: nat, l: nat)
    requires l < MEM_FIX_SIZE_LEVEL && o + PAGE_CELLS <= |cells|
    requires base + 8 * |cells| < 0x1_0000_0000_0000_0000
    ensures Linked(base, SplitCells(base, cells, o, l), AllBlocks(o, l))
  {
    hide BlocksFrom, SplitCells;
    var cells', list := SplitCells(base, cells, o, l), AllBlocks(o, l);
    AllBlocksComplete(o, l);
    forall j | 0 <= j < |list|
      ensures list[j] < |cells| && cells'[list[j]] == LinkAfter(base, list, j)
    {
      assert list[j] in list && IsBlock(o, l, list[j]);
      SplitCellAt(base, cells, o, l, list[j]);
      if j + 1 < |list| {
        assert StepAt(list, Cells(l), j);
        assert list[j + 1] in list;
      } else {
        LastBlockIsLast(o, l, j);
      }
    }
  }

  // The link of a block: the next one, or NULL when the page ends.
  lemma SplitCellAt(base: nat, cells: seq<Word>, o: nat, l: nat, i: nat)
    requires l < MEM_FIX_SIZE_LEVEL && o + PAGE_CELLS <= |cells| && IsBlock(o, l, i)
    ensures SplitCells(base, cells, o, l)[i]
            == if i + Cells(l) < o + PAGE_CELLS then AsWord(Ptr(base, i + Cells(l))) else 0
  {
  }

  // Every other word of the page is zero, and no word outside it is written.
  lemma SplitCellElsewhere(base: nat, cells: seq<Word>, o: nat, l: nat, k: nat)
    requires l < MEM_FIX_SIZE_LEVEL && o + PAGE_CELLS <= |cells| && k < |cells| && !IsBlock(o, l, k)
    ensures SplitCells(base, cells, o, l)[k] == if o <= k < o + PAGE_CELLS then 0 else cells[k]
  {
  }

  // Behind the last block of a page there is no room for another.
  lemma LastBlockIsLast(o: nat, l: nat, j: nat)
    requires l < CLASS_CNT && j + 1 == |AllBlocks(o, l)|
    ensures AllBlocks(o, l)[j] + Cells(l) == o + PAGE_CELLS
  {
    BlocksFromEnd(o, o, l);
  }

  lemma {:induction false} BlocksFromEnd(o: nat, i: nat, c: nat)
    requires c < CLASS_CNT && IsBlock(o, c, i)
    ensures var s := BlocksFrom(i, c, o + PAGE_CELLS); s != [] && s[|s| - 1] + Cells(c) == o + PAGE_CELLS
    decreases o + PAGE_CELLS - i
  {
    BlockFits(o, c, i);
    var rest := BlocksFrom(i + Cells(c), c, o + PAGE_CELLS);
    assert BlocksFrom(i, c, o + PAGE_CELLS) == [i] + rest;
    if i + Cells(c) < o + PAGE_CELLS {
      BlockAfter(o, c, i);
      BlocksFromEnd(o, i + Cells(c), c);
      assert ([i] + rest)[|rest|] == rest[|rest| - 1];
    }
  }

  // Cut a taken page into slots of level l and put it at the head of the context's list.
  ghost function SplitPage(s: CtxState, m: nat, l: nat, p: nat): (s': CtxState)
    requires Shape(s) && m < |s.levels| && l < MEM_FIX_SIZE_LEVEL && p < |s.owner|
  {
    s.(cells := SplitCells(s.base, s.cells, PAGE_CELLS * p, l),
       levels := s.levels[m := s.levels[m][l := [p] + s.levels[m][l]]],
       owner := s.owner[p := SlotsOf(m, l)],
       slots := s.slots[p := AllBlocks(PAGE_CELLS * p, l)],
       out := s.out[p := {}])
  }

  // A page changes only if a cell of it changes.
  lemma PageOkFrame(s: CtxState, s': CtxState, q: nat)
    requires Shape(s) && Shape(s') && q < |s.owner| == |s'.owner| && PageOk(s, q)
    requires s'.base == s.base && s'.owner[q] == s.owner[q] && s'.slots[q] == s.slots[q] && s'.out[q] == s.out[q]
    requires |s'.cells| == |s.cells|
    requires forall k :: PAGE_CELLS * q <= k < PAGE_CELLS * q + PAGE_CELLS && k < |s.cells| ==>
               s'.cells[k] == s.cells[k]
    ensures PageOk(s', q)
  {
    match s.owner[q] {
      case SlotsOf(c, l) => PageFrame(s.base, s.cells, s'.cells, s.slots[q], s.out[q], PAGE_CELLS * q, l);
      case FreeOf(_) =>
      case Taken =>
    }
  }

  lemma PageWithin(s: CtxState, p: nat)
    requires Shape(s) && p < |s.owner|
    ensures PageFits(s, p)
  {
    assert |s.cells| - PAGE_CELLS * p == PAGE_CELLS * (|s.owner| - p);
  }

  lemma SplitKeepsInv(s: CtxState, m: nat, l: nat, p: nat)
    requires Inv(s) && m < |s.levels| && l < MEM_FIX_SIZE_LEVEL && p < |s.owner| && s.owner[p] == Taken
    ensures Inv(SplitPage(s, m, l, p))
  {
    var s' := SplitPage(s, m, l, p);
    HoldsCons(s.owner, s.levels[m][l], SlotsOf(m, l), p);
    ListsAfterChange(s, s', p, Taken, SlotsOf(m, l));
    PageWithin(s, p);
    SplitCellsLinked(s.base, s.cells, PAGE_CELLS * p, l);
    CompleteListInv(s.base, s'.cells, PAGE_CELLS * p, l);
    forall q | 0 <= q < |s.owner|
      ensures PageOk(s', q)
    {
      if q != p {
        PageOkFrame(s, s', q);
      }
    }
  }

  // ---- Slots ----

  function DbPageGetSizeByLevel(level: nat): (size: nat)
    requires level < MEM_FIX_SIZE_LEVEL
    ensures size == 8 * Cells(level)
  {
    if level == 0 then 8 else if level == 1 then 16 else if level == 2 then 32 else if level == 3 then 64
    else if level == 4 then 128 else if level == 5 then 256 else if level == 6 then 512 else 1024
  }

  // Level l has slots of 2 to the power l + 3 bytes, 8 up to 1024.
  lemma LevelSizes(level: nat)
    requires level < MEM_FIX_SIZE_LEVEL
    ensures MEM_FIX_SIZE_LEVEL == 8 && DbPageGetSizeByLevel(level) == [8, 16, 32, 64, 128, 256, 512, 1024][level]
  {
  }

  // The smallest level whose slots hold allocSize bytes.
  function DbGetFixSizeLevel(allocSize: nat): (level: nat)
    requires 0 < allocSize <= MEM_BIG_ALLOC_SIZE
    ensures level < MEM_FIX_SIZE_LEVEL && allocSize <= DbPageGetSizeByLevel(level)
    ensures forall l :: 0 <= l < level ==> DbPageGetSizeByLevel(l) < allocSize
  {
    if allocSize <= 8 then 0 else if allocSize <= 16 then 1 else if allocSize <= 32 then 2
    else if allocSize <= 64 then 3 else if allocSize <= 128 then 4 else if allocSize <= 256 then 5
    else if allocSize <= 512 then 6 else 7
  }

  // The first page of the list with a free slot; -1 if every page is full.
  function OpenPage(slots: seq<seq<nat>>, list: seq<nat>): (p: int)
    requires forall q :: q in list ==> q < |slots|
    ensures p == -1 <==> forall q :: q in list ==> slots[q] == []
    ensures p != -1 ==> p in list && slots[p] != []
  {
    if list == [] then -1
    else
      assert list[0] in list && forall q :: q in list[1..] ==> q in list;
      if slots[list[0]] != [] then list[0] else OpenPage(slots, list[1..])
  }

  // Hand out the first free slot of page p, cleared.
  ghost function PopSlot(s: CtxState, p: nat, l: nat): (r: (CtxState, nat))
    requires Shape(s) && p < |s.owner| && s.slots[p] != [] && l < MEM_FIX_SIZE_LEVEL
  {
    var i := s.slots[p][0];
    (s.(cells := Zeroed(s.cells, i, Cells(l)), slots := s.slots[p := s.slots[p][1..]],
        out := s.out[p := s.out[p] + {i}]),
     Ptr(s.base, i))
  }

  lemma PopSlotKeepsInv(s: CtxState, m: nat, p: nat, l: nat)
    requires Inv(s) && p < |s.owner| && s.owner[p] == SlotsOf(m, l) && s.slots[p] != [] && l < MEM_FIX_SIZE_LEVEL
    ensures Inv(PopSlot(s, p, l).0)
  {
    var s' := PopSlot(s, p, l).0;
    PageWithin(s, p);
    assert PageOk(s, p);
    PagePop(s.base, s.cells, s.slots[p], s.out[p], PAGE_CELLS * p, l);
    FirstFree(s.base, s.cells, s.slots[p], s.out[p], PAGE_CELLS * p, l);
    forall q | 0 <= q < |s.owner|
      ensures PageOk(s', q)
    {
      if q != p {
        PageOkFrame(s, s', q);
      }
    }
  }

  // DbMemGetAndSplitPage: false when no page can be had.
  ghost function GetAndSplit(s: CtxState, m: nat, l: nat): (r: (CtxState, bool))
    requires Inv(s) && m < |s.parents| && l < MEM_FIX_SIZE_LEVEL
    ensures Shape(r.0)
  {
    var (s1, p) := TakePage(s, m);
    if p < 0 then (s1, false) else (SplitPage(s1, m, l, p), true)
  }

  // DbDynMemCtxAlloc for small sizes: an open page of the level if there is one, else a new page.
  ghost function SlotAlloc(s: CtxState, m: nat, allocSize: nat): (r: (CtxState, nat))
    requires Inv(s) && m < |s.parents| && 0 < allocSize <= MEM_BIG_ALLOC_SIZE
  {
    var l := DbGetFixSizeLevel(allocSize);
    assert Holds(s.owner, s.levels[m][l], SlotsOf(m, l));
    var q := OpenPage(s.slots, s.levels[m][l]);
    if q >= 0 then PopSlot(s, q, l)
    else
      var (s1, ok) := GetAndSplit(s, m, l);
      if !ok then (s1, NULL)
      else
        NewPageOpen(s, m, l);
        PopSlot(s1, s1.levels[m][l][0], l)
  }

  lemma GetAndSplitKeepsInv(s: CtxState, m: nat, l: nat)
    requires Inv(s) && m < |s.parents| && l < MEM_FIX_SIZE_LEVEL
    ensures Inv(GetAndSplit(s, m, l).0)
  {
    TakePageKeepsInv(s, m);
    var (s1, p) := TakePage(s, m);
    if p >= 0 {
      SplitKeepsInv(s1, m, l, p);
    }
  }

  // The page just split heads its list and is open.
  lemma NewPageOpen(s: CtxState, m: nat, l: nat)
    requires Inv(s) && m < |s.parents| && l < MEM_FIX_SIZE_LEVEL && GetAndSplit(s, m, l).1
    ensures var s1 := GetAndSplit(s, m, l).0;
            && s1.levels[m][l] != [] && s1.levels[m][l][0] < |s1.owner|
            && s1.slots[s1.levels[m][l][0]] != []
            && s1.owner[s1.levels[m][l][0]] == SlotsOf(m, l)
  {
    var (s1, p) := TakePage(s, m);
    AllBlocksComplete(PAGE_CELLS * p, l);
  }

  lemma SlotAllocKeepsInv(s: CtxState, m: nat, allocSize: nat)
    requires Inv(s) && m < |s.parents| && 0 < allocSize <= MEM_BIG_ALLOC_SIZE
    ensures Inv(SlotAlloc(s, m, allocSize).0)
  {
    var l := DbGetFixSizeLevel(allocSize);
    assert Holds(s.owner, s.levels[m][l], SlotsOf(m, l));
    var q := OpenPage(s.slots, s.levels[m][l]);
    if q >= 0 {
      PopSlotKeepsInv(s, m, q, l);
    } else {
      GetAndSplitKeepsInv(s, m, l);
      var (s1, ok) := GetAndSplit(s, m, l);
      if ok {
        NewPageOpen(s, m, l);
        PopSlotKeepsInv(s1, m, s1.levels[m][l][0], l);
      }
    }
  }
}
