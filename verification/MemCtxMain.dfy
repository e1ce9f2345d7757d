/** The memory contexts as the server keeps them: an array of page headers linked through their next
    fields, and contexts that hold list heads and counters. */
module MemCtxMain {
  import opened Blocks
  import opened MemCtxState
  import opened MemCtxRuns

  // Page headers are named by their index in the header array; -1 is NULL.
  const NO_PAGE: int := -1

  datatype DbMemPage = DbMemPage(nextPage: int, pageAddr: nat, slotAllocSize: nat, freeSlotCnt: nat,
                                 totalSlotCnt: nat, nextFreeAddr: nat)

  datatype DbMemCtx = DbMemCtx(freePageCnt: nat, freePageList: int, parentMemCtx: int, fixSizeLevelList: seq<int>)

  // The header of page i of a list of pageCnt pages that starts at pageAddr.
  function FreshPage(i: nat, pageCnt: nat, pageAddr: nat): (page: DbMemPage) {
    DbMemPage(if i == pageCnt - 1 then NO_PAGE else i + 1, pageAddr + i * PAGE_SIZE, 0, 0, 0, NULL)
  }

  // ---- Page lists through the headers ----

  function HeadPage(list: seq<nat>): (p: int) {
    if list == [] then NO_PAGE else list[0]
  }

  function NextAfter(list: seq<nat>, j: nat): (p: int)
    requires j < |list|
  {
    if j + 1 < |list| then list[j + 1] else NO_PAGE
  }

  ghost predicate Threaded(next: seq<int>, list: seq<nat>) {
    && (forall j :: 0 <= j < |list| ==> list[j] < |next|)
    && (forall j {:trigger NextAfter(list, j)} {:trigger next[list[j]]} ::
          0 <= j < |list| ==> next[list[j]] == NextAfter(list, j))
  }

  lemma ThreadedTail(next: seq<int>, list: seq<nat>)
    requires Threaded(next, list) && list != []
    ensures next[list[0]] == HeadPage(list[1..]) && Threaded(next, list[1..])
  {
    assert next[list[0]] == NextAfter(list, 0);
    forall j | 0 <= j < |list[1..]|
      ensures next[list[1..][j]] == NextAfter(list[1..], j)
    {
      assert next[list[j + 1]] == NextAfter(list, j + 1);
    }
  }

  lemma ThreadedCons(next: seq<int>, list: seq<nat>, p: nat)
    requires Threaded(next, list) && p < |next| && p !in list
    ensures Threaded(next[p := HeadPage(list)], [p] + list)
  {
    var next', list' := next[p := HeadPage(list)], [p] + list;
    forall j | 0 <= j < |list'|
      ensures next'[list'[j]] == NextAfter(list', j)
    {
      if j > 0 {
        assert list'[j] == list[j - 1] && list[j - 1] in list;
        assert next[list[j - 1]] == NextAfter(list, j - 1);
      }
    }
  }

  lemma ThreadedOther(next: seq<int>, list: seq<nat>, p: nat, v: int)
    requires Threaded(next, list) && p < |next| && p !in list
    ensures Threaded(next[p := v], list)
  {
    forall j | 0 <= j < |list|
      ensures next[p := v][list[j]] == NextAfter(list, j)
    {
      assert list[j] in list && next[list[j]] == NextAfter(list, j);
    }
  }

  ghost predicate AllThreaded(s: CtxState, next: seq<int>)
    requires Shape(s)
  {
    && (forall c :: 0 <= c < |s.free| ==> Threaded(next, s.free[c]))
    && (forall c, l :: 0 <= c < |s.levels| && 0 <= l < MEM_FIX_SIZE_LEVEL ==> Threaded(next, s.levels[c][l]))
  }

  // Relinking a page that is on none of the lists of s' except those whose threading is given.
  lemma AllThreadedAfter(s: CtxState, s': CtxState, next: seq<int>, p: nat, v: int, o: Owner, o': Owner)
    requires Shape(s) && ListsInv(s) && AllThreaded(s, next) && p < |next| == |s.owner| && s.owner[p] == o
    requires Shape(s') && s'.parents == s.parents
    requires forall c :: 0 <= c < |s.free| && (o == FreeOf(c) || o' == FreeOf(c)) ==> Threaded(next[p := v], s'.free[c])
    requires forall c :: 0 <= c < |s.free| && o != FreeOf(c) && o' != FreeOf(c) ==> s'.free[c] == s.free[c]
    requires forall c, l :: 0 <= c < |s.levels| && 0 <= l < MEM_FIX_SIZE_LEVEL
                            && (o == SlotsOf(c, l) || o' == SlotsOf(c, l))
               ==> Threaded(next[p := v], s'.levels[c][l])
    requires forall c, l :: 0 <= c < |s.levels| && 0 <= l < MEM_FIX_SIZE_LEVEL
                            && o != SlotsOf(c, l) && o' != SlotsOf(c, l)
               ==> s'.levels[c][l] == s.levels[c][l]
    ensures AllThreaded(s', next[p := v])
  {
    forall c | 0 <= c < |s.free|
      ensures Threaded(next[p := v], s'.free[c])
    {
      if o != FreeOf(c) && o' != FreeOf(c) {
        assert Holds(s.owner, s.free[c], FreeOf(c));
        ThreadedOther(next, s.free[c], p, v);
      }
    }
    forall c, l | 0 <= c < |s.levels| && 0 <= l < MEM_FIX_SIZE_LEVEL
      ensures Threaded(next[p := v], s'.levels[c][l])
    {
      if o != SlotsOf(c, l) && o' != SlotsOf(c, l) {
        assert Holds(s.owner, s.levels[c][l], SlotsOf(c, l));
        ThreadedOther(next, s.levels[c][l], p, v);
      }
    }
  }

  // Relinking the donor's head page in front of the borrower's list threads both lists again.
  lemma MoveThreads(s: CtxState, next: seq<int>, donor: nat, memCtx: nat)
    requires Inv(s) && |next| == |s.owner| && AllThreaded(s, next)
    requires donor < |s.free| && memCtx < |s.free| && donor != memCtx && s.free[donor] != []
    ensures s.free[donor][0] < |s.owner| && next[s.free[donor][0]] == HeadPage(s.free[donor][1..])
    ensures Shape(MovePage(s, donor, memCtx))
    ensures AllThreaded(MovePage(s, donor, memCtx), next[s.free[donor][0] := HeadPage(s.free[memCtx])])
  {
    assert Holds(s.owner, s.free[donor], FreeOf(donor)) && Holds(s.owner, s.free[memCtx], FreeOf(memCtx));
    HoldsTail(s.owner, s.free[donor], FreeOf(donor), FreeOf(memCtx));
    ThreadedTail(next, s.free[donor]);
    var p, v := s.free[donor][0], HeadPage(s.free[memCtx]);
    ThreadedOther(next, s.free[donor][1..], p, v);
    ThreadedCons(next, s.free[memCtx], p);
    AllThreadedAfter(s, MovePage(s, donor, memCtx), next, p, v, FreeOf(donor), FreeOf(memCtx));
  }

  // The headers of a fresh top context link all pages in order.
  lemma InitialThreaded(base: nat, cells: seq<Word>, parents: seq<int>, pageCnt: nat, next: seq<int>)
    requires Shape(InitialState(base, cells, parents, pageCnt)) && |next| == pageCnt
    requires forall i :: 0 <= i < pageCnt ==> next[i] == if i == pageCnt - 1 then NO_PAGE else i + 1
    ensures AllThreaded(InitialState(base, cells, parents, pageCnt), next)
  {
    var list := UpTo(pageCnt);
    assert Threaded(next, list);
    assert Threaded(next, []);
  }

  // ---- Headers and contexts stand for a state ----

  // The context's heads and counter are those of its lists.
  ghost predicate CtxOk(s: CtxState, ctx: DbMemCtx, c: nat)
    requires Shape(s) && c < |s.parents|
  {
    && ctx.parentMemCtx == s.parents[c]
    && ctx.freePageCnt == |s.free[c]| && ctx.freePageList == HeadPage(s.free[c])
    && |ctx.fixSizeLevelList| == MEM_FIX_SIZE_LEVEL
    && forall l :: 0 <= l < MEM_FIX_SIZE_LEVEL ==> ctx.fixSizeLevelList[l] == HeadPage(s.levels[c][l])
  }

  // The page's address, and, once it is split, its slot size, counters and first free slot.
  ghost predicate HeaderOk(s: CtxState, page: DbMemPage, p: nat)
    requires Shape(s) && p < |s.owner|
  {
    && page.pageAddr == s.base + PAGE_SIZE * p
    && (s.owner[p].SlotsOf? && s.owner[p].level < MEM_FIX_SIZE_LEVEL ==>
          && page.slotAllocSize == DbPageGetSizeByLevel(s.owner[p].level)
          && page.totalSlotCnt == PAGE_SIZE / page.slotAllocSize
          && page.freeSlotCnt == |s.slots[p]| && page.nextFreeAddr == Head(s.base, s.slots[p]))
  }

  function NextOf(pages: seq<DbMemPage>): (next: seq<int>)
    ensures |next| == |pages| && forall p :: 0 <= p < |pages| ==> next[p] == pages[p].nextPage
  {
    seq(|pages|, p requires 0 <= p < |pages| => pages[p].nextPage)
  }

  lemma NextOfUpdate(pages: seq<DbMemPage>, p: nat, page: DbMemPage)
    requires p < |pages|
    ensures NextOf(pages[p := page]) == NextOf(pages)[p := page.nextPage]
  {
  }

  ghost predicate Represents(s: CtxState, pages: seq<DbMemPage>, ctxs: seq<DbMemCtx>)
    requires Shape(s)
  {
    && |pages| == |s.owner| && |ctxs| == |s.parents|
    && AllThreaded(s, NextOf(pages))
    && (forall c :: 0 <= c < |ctxs| ==> CtxOk(s, ctxs[c], c))
    && (forall p :: 0 <= p < |pages| ==> HeaderOk(s, pages[p], p))
  }

  // Moving a donor's head page.
  lemma MoveRepresented(s: CtxState, pages: seq<DbMemPage>, ctxs: seq<DbMemCtx>, donor: nat, memCtx: nat,
                        d: DbMemCtx, m: DbMemCtx)
    requires Inv(s) && Represents(s, pages, ctxs)
    requires donor < |ctxs| && memCtx < |ctxs| && donor != memCtx && s.free[donor] != []
    requires d == ctxs[donor].(freePageList := HeadPage(s.free[donor][1..]), freePageCnt := |s.free[donor]| - 1)
    requires s.free[donor][0] < |pages| && Shape(MovePage(s, donor, memCtx))
    requires m == ctxs[memCtx].(freePageList := s.free[donor][0], freePageCnt := |s.free[memCtx]| + 1)
    ensures var p := s.free[donor][0];
            var page := pages[p].(nextPage := HeadPage(s.free[memCtx]));
            Represents(MovePage(s, donor, memCtx), pages[p := page], ctxs[donor := d][memCtx := m])
  {
    var p := s.free[donor][0];
    var page := pages[p].(nextPage := HeadPage(s.free[memCtx]));
    MoveThreads(s, NextOf(pages), donor, memCtx);
    NextOfUpdate(pages, p, page);
    var s', pages', ctxs' := MovePage(s, donor, memCtx), pages[p := page], ctxs[donor := d][memCtx := m];
    forall c | 0 <= c < |ctxs'|
      ensures CtxOk(s', ctxs'[c], c)
    {
      assert CtxOk(s, ctxs[c], c);
    }
    forall q | 0 <= q < |pages|
      ensures HeaderOk(s', pages'[q], q)
    {
      assert HeaderOk(s, pages[q], q);
    }
  }

  // Cutting the head page off a free list.
  lemma PopRepresented(s: CtxState, pages: seq<DbMemPage>, ctxs: seq<DbMemCtx>, memCtx: nat, s': CtxState)
    requires Inv(s) && Represents(s, pages, ctxs) && memCtx < |ctxs| && s.free[memCtx] != []
    requires s.free[memCtx][0] < |pages| && Shape(s')
    requires s' == s.(free := s.free[memCtx := s.free[memCtx][1..]], owner := s.owner[s.free[memCtx][0] := Taken])
    ensures var p := s.free[memCtx][0];
            var ctx := ctxs[memCtx].(freePageList := HeadPage(s.free[memCtx][1..]),
                                     freePageCnt := |s.free[memCtx]| - 1);
            Represents(s', pages[p := pages[p].(nextPage := NO_PAGE)], ctxs[memCtx := ctx])
  {
    var p, rest := s.free[memCtx][0], s.free[memCtx][1..];
    var pages' := pages[p := pages[p].(nextPage := NO_PAGE)];
    var ctxs' := ctxs[memCtx := ctxs[memCtx].(freePageList := HeadPage(rest), freePageCnt := |rest|)];
    assert Holds(s.owner, s.free[memCtx], FreeOf(memCtx));
    HoldsTail(s.owner, s.free[memCtx], FreeOf(memCtx), Taken);
    ThreadedTail(NextOf(pages), s.free[memCtx]);
    ThreadedOther(NextOf(pages), rest, p, NO_PAGE);
    AllThreadedAfter(s, s', NextOf(pages), p, NO_PAGE, FreeOf(memCtx), Taken);
    NextOfUpdate(pages, p, pages[p].(nextPage := NO_PAGE));
    forall c | 0 <= c < |ctxs'|
      ensures CtxOk(s', ctxs'[c], c)
    {
      assert CtxOk(s, ctxs[c], c);
    }
    forall q | 0 <= q < |pages|
      ensures HeaderOk(s', pages'[q], q)
    {
      assert HeaderOk(s, pages[q], q);
    }
  }

  // Splitting a page and hanging it at the head of its level list.
  lemma SplitRepresented(s: CtxState, pages: seq<DbMemPage>, ctxs: seq<DbMemCtx>, memCtx: nat, l: nat, p: nat,
                         page: DbMemPage, ctx: DbMemCtx)
    requires Inv(s) && Represents(s, pages, ctxs) && memCtx < |ctxs| && l < MEM_FIX_SIZE_LEVEL && p < |pages|
    requires s.owner[p] == Taken && Shape(SplitPage(s, memCtx, l, p))
    requires page.nextPage == HeadPage(s.levels[memCtx][l]) && HeaderOk(SplitPage(s, memCtx, l, p), page, p)
    requires |ctxs[memCtx].fixSizeLevelList| == MEM_FIX_SIZE_LEVEL
    requires ctx == ctxs[memCtx].(fixSizeLevelList := ctxs[memCtx].fixSizeLevelList[l := p])
    ensures Represents(SplitPage(s, memCtx, l, p), pages[p := page], ctxs[memCtx := ctx])
  {
    var s', list := SplitPage(s, memCtx, l, p), s.levels[memCtx][l];
    var pages', ctxs' := pages[p := page], ctxs[memCtx := ctx];
    assert Holds(s.owner, list, SlotsOf(memCtx, l));
    ThreadedCons(NextOf(pages), list, p);
    AllThreadedAfter(s, s', NextOf(pages), p, HeadPage(list), Taken, SlotsOf(memCtx, l));
    NextOfUpdate(pages, p, page);
    forall c | 0 <= c < |ctxs|
      ensures CtxOk(s', ctxs'[c], c)
    {
      assert CtxOk(s, ctxs[c], c);
    }
    forall q | 0 <= q < |pages|
      ensures HeaderOk(s', pages'[q], q)
    {
      assert HeaderOk(s, pages[q], q);
    }
  }

  // Handing out a slot changes one header.
  lemma SlotRepresented(s: CtxState, pages: seq<DbMemPage>, ctxs: seq<DbMemCtx>, l: nat, p: nat, page: DbMemPage)
    requires Inv(s) && Represents(s, pages, ctxs) && p < |pages| && l < MEM_FIX_SIZE_LEVEL && s.slots[p] != []
    requires Shape(PopSlot(s, p, l).0) && page.nextPage == pages[p].nextPage && HeaderOk(PopSlot(s, p, l).0, page, p)
    ensures Represents(PopSlot(s, p, l).0, pages[p := page], ctxs)
  {
    var s', pages' := PopSlot(s, p, l).0, pages[p := page];
    NextOfUpdate(pages, p, page);
    assert NextOf(pages)[p := page.nextPage] == NextOf(pages);
    forall c | 0 <= c < |ctxs|
      ensures CtxOk(s', ctxs[c], c)
    {
      assert CtxOk(s, ctxs[c], c);
    }
    forall q | 0 <= q < |pages|
      ensures HeaderOk(s', pages'[q], q)
    {
      assert HeaderOk(s, pages[q], q);
    }
  }

  // ---- The manager ----

  class DbMemCtxManager {
    const base: nat
    const cells: array<Word>
    const pages: array<DbMemPage>
    const ctxs: array<DbMemCtx>
    ghost var st: CtxState

    ghost predicate Valid()
      reads this, cells, pages, ctxs
    {
      Inv(st) && st.base == base && st.cells == cells[..] && Represents(st, pages[..], ctxs[..])
    }

    // DbInitTopMemCtx: all pages to the top context, which is context 0 of the given tree.
    constructor (pageAddr: nat, memory: array<Word>, pageCnt: nat, parents: seq<int>)
      requires 0 < |parents| && forall c :: 0 <= c < |parents| ==> -1 <= parents[c] < c
      requires 0 < pageCnt && memory.Length == PAGE_CELLS * pageCnt
      requires NULL < pageAddr && pageAddr + 8 * memory.Length < 0x1_0000_0000_0000_0000
      ensures Valid() && AllPlaced(st) && fresh(pages) && fresh(ctxs) && cells == memory
      ensures st == InitialState(pageAddr, memory[..], parents, pageCnt)
    {
      base := pageAddr;
      cells := memory;
      pages := new DbMemPage[pageCnt](_ => DbMemPage(NO_PAGE, NULL, 0, 0, 0, NULL));
      ctxs := new DbMemCtx[|parents|](c requires 0 <= c < |parents| =>
        DbMemCtx(if c == 0 then pageCnt else 0, if c == 0 then 0 else NO_PAGE, parents[c],
                 seq(MEM_FIX_SIZE_LEVEL, _ => NO_PAGE)));
      st := InitialState(pageAddr, memory[..], parents, pageCnt);
      new;
      InitialInv(pageAddr, memory[..], parents, pageCnt);
      DbInitFreeList(pages, pageCnt, pageAddr);
      InitialThreaded(pageAddr, memory[..], parents, pageCnt, NextOf(pages[..]));
      assert forall c :: 0 <= c < |parents| ==> CtxOk(st, ctxs[..][c], c);
      assert forall p :: 0 <= p < pageCnt ==> HeaderOk(st, pages[..][p], p);
    }

    static method DbInitFreeList(freePageList: array<DbMemPage>, pageCnt: nat, pageAddr: nat)
      requires freePageList.Length == pageCnt
      modifies freePageList
      ensures forall i :: 0 <= i < pageCnt ==>
                freePageList[i] == FreshPage(i, pageCnt, pageAddr)
    {
      for i := 0 to pageCnt
        invariant forall j :: 0 <= j < i ==>
                    freePageList[j] == FreshPage(j, pageCnt, pageAddr)
      {
        freePageList[i] := FreshPage(i, pageCnt, pageAddr);
      }
    }

    // Takes the donor's head page to the front of the borrower's list.
    method MoveHeadPage(donor: nat, memCtx: nat)
      requires Valid() && donor < ctxs.Length && memCtx < ctxs.Length && donor != memCtx && st.free[donor] != []
      requires st.free[donor][0] < |st.owner|
      requires Inv(MovePage(st, donor, memCtx))
      modifies this, pages, ctxs
      ensures Valid() && st == old(MovePage(st, donor, memCtx))
    {
      ghost var s, headers, contexts := st, pages[..], ctxs[..];
      assert CtxOk(s, contexts[donor], donor) && CtxOk(s, contexts[memCtx], memCtx);
      MoveThreads(s, NextOf(headers), donor, memCtx);
      var freePage := ctxs[donor].freePageList;
      ctxs[donor] := ctxs[donor].(freePageList := pages[freePage].nextPage, freePageCnt := ctxs[donor].freePageCnt - 1);
      var childOldFreePageList := ctxs[memCtx].freePageList;
      ctxs[memCtx] := ctxs[memCtx].(freePageList := freePage, freePageCnt := ctxs[memCtx].freePageCnt + 1);
      pages[freePage] := pages[freePage].(nextPage := childOldFreePageList);
      st := MovePage(s, donor, memCtx);
      MoveRepresented(s, headers, contexts, donor, memCtx, ctxs[donor], ctxs[memCtx]);
      assert ctxs[..] == contexts[donor := ctxs[donor]][memCtx := ctxs[memCtx]];
      assert pages[..] == headers[freePage := pages[freePage]];
    }

    // Up the chain from parentMemCtx, on behalf of memCtx.
    method DbGetFreePageFromParentMemCtx(parentMemCtx: int, memCtx: nat) returns (ok: bool)
      requires Valid() && -1 <= parentMemCtx < memCtx < ctxs.Length
      modifies this, pages, ctxs
      ensures Valid()
      ensures (st, ok) == old(Borrow(st, parentMemCtx, memCtx))
      decreases parentMemCtx + 1
    {
      if parentMemCtx == -1 {
        return false;
      }
      assert CtxOk(st, ctxs[parentMemCtx], parentMemCtx);
      if ctxs[parentMemCtx].freePageCnt == 0 {
        ok := DbGetFreePageFromParentMemCtx(ctxs[parentMemCtx].parentMemCtx, memCtx);
      } else {
        BorrowKeepsInv(st, parentMemCtx, memCtx);
        MoveHeadPage(parentMemCtx, memCtx);
        ok := true;
      }
    }

    // A page of the context's own, borrowed first if it has none; NO_PAGE when the chain is empty.
    method DbAllocPageFromCurrMemCtx(memCtx: nat) returns (page: int)
      requires Valid() && memCtx < ctxs.Length
      modifies this, pages, ctxs
      ensures Valid()
      ensures (st, page) == old(TakePage(st, memCtx))
      ensures page >= 0 ==> pages[page].nextPage == NO_PAGE
    {
      assert CtxOk(st, ctxs[memCtx], memCtx);
      TakePageKeepsInv(st, memCtx);
      if ctxs[memCtx].freePageCnt == 0 {
        var ok := DbGetFreePageFromParentMemCtx(ctxs[memCtx].parentMemCtx, memCtx);
        if !ok {
          return NO_PAGE;
        }
      }
      page := PopFreePage(memCtx);
    }

    // The head of the context's free list, cut off from its successor.
    method PopFreePage(memCtx: nat) returns (page: int)
      requires Valid() && memCtx < ctxs.Length && st.free[memCtx] != [] && st.free[memCtx][0] < |st.owner|
      requires Inv(st.(free := st.free[memCtx := st.free[memCtx][1..]], owner := st.owner[st.free[memCtx][0] := Taken]))
      modifies this, pages, ctxs
      ensures Valid()
      ensures page == old(st).free[memCtx][0]
      ensures st == old(st).(free := old(st).free[memCtx := old(st).free[memCtx][1..]],
                             owner := old(st).owner[page := Taken])
      ensures pages[page].nextPage == NO_PAGE
    {
      ghost var s, headers, contexts := st, pages[..], ctxs[..];
      assert CtxOk(s, contexts[memCtx], memCtx);
      ThreadedTail(NextOf(headers), s.free[memCtx]);
      var freePage := ctxs[memCtx].freePageList;
      ctxs[memCtx] := ctxs[memCtx].(freePageList := pages[freePage].nextPage,
                                    freePageCnt := ctxs[memCtx].freePageCnt - 1);
      pages[freePage] := pages[freePage].(nextPage := NO_PAGE);
      page := freePage;
      st := s.(free := s.free[memCtx := s.free[memCtx][1..]], owner := s.owner[freePage := Taken]);
      PopRepresented(s, headers, contexts, memCtx, st);
      assert ctxs[..] == contexts[memCtx := ctxs[memCtx]];
      assert pages[..] == headers[freePage := pages[freePage]];
    }

    // The memory of a page, cleared and threaded into slots of the level.
    method ClearAndThread(page: nat, levelIdx: nat)
      requires levelIdx < MEM_FIX_SIZE_LEVEL && PAGE_CELLS * page + PAGE_CELLS <= cells.Length
      requires base + 8 * cells.Length < 0x1_0000_0000_0000_0000
      modifies cells
      ensures cells[..] == SplitCells(base, old(cells[..]), PAGE_CELLS * page, levelIdx)
    {
      hide AllBlocks, IsBlock, StepAt, Distinct, Linked, SameOutside, Ptr, SplitCells, Zeroed;
      ghost var list := AllBlocks(PAGE_CELLS * page, levelIdx);
      var first, step := PAGE_CELLS * page, DbPageGetSizeByLevel(levelIdx) / 8;
      AllBlocksComplete(first, levelIdx);
      PageListFits(base, first, levelIdx, cells.Length);
      ClearCells(cells, first, PAGE_CELLS);
      ghost var cleared := cells[..];
      ThreadBlocks(base, cells, first, step, PAGE_SIZE / DbPageGetSizeByLevel(levelIdx), list);
      SplitCellsLinked(base, old(cells[..]), first, levelIdx);
      SameSplit(base, old(cells[..]), cleared, cells[..], first, levelIdx);
    }

    // DbMemInitAndSplitPage and the hanging of the page at the head of its level list.
    method SplitAndHang(memCtx: nat, levelIdx: nat, page: nat)
      requires Valid() && memCtx < ctxs.Length && levelIdx < MEM_FIX_SIZE_LEVEL && page < pages.Length
      requires st.owner[page] == Taken
      modifies this, cells, pages, ctxs
      ensures Valid() && st == old(SplitPage(st, memCtx, levelIdx, page))
    {
      ghost var s, s', headers, contexts := st, SplitPage(st, memCtx, levelIdx, page), pages[..], ctxs[..];
      SplitKeepsInv(s, memCtx, levelIdx, page);
      PageWithin(s, page);
      ClearAndThread(page, levelIdx);
      NewPageList(page, levelIdx);
      var slotSize := DbPageGetSizeByLevel(levelIdx);
      var slotCnt := PAGE_SIZE / slotSize;
      assert CtxOk(s, contexts[memCtx], memCtx) && HeaderOk(s, headers[page], page);
      var oldPage := ctxs[memCtx].fixSizeLevelList[levelIdx];
      pages[page] := DbMemPage(oldPage, pages[page].pageAddr, slotSize, slotCnt, slotCnt, pages[page].pageAddr);
      ctxs[memCtx] := ctxs[memCtx].(fixSizeLevelList := ctxs[memCtx].fixSizeLevelList[levelIdx := page]);
      st := s';
      SplitRepresented(s, headers, contexts, memCtx, levelIdx, page, pages[page], ctxs[memCtx]);
      assert ctxs[..] == contexts[memCtx := ctxs[memCtx]];
      assert pages[..] == headers[page := pages[page]];
    }

    method DbMemGetAndSplitPage(memCtx: nat, levelIdx: nat) returns (ok: bool)
      requires Valid() && memCtx < ctxs.Length && levelIdx < MEM_FIX_SIZE_LEVEL
      modifies this, cells, pages, ctxs
      ensures Valid()
      ensures (st, ok) == old(GetAndSplit(st, memCtx, levelIdx))
    {
      TakePageKeepsInv(st, memCtx);
      var page := DbAllocPageFromCurrMemCtx(memCtx);
      if page < 0 {
        return false;
      }
      SplitAndHang(memCtx, levelIdx, page);
      ok := true;
    }

    // Along the page list from levelPageList, which stands for the given pages: a slot of the first
    // page that has one, NULL when none has.
    method DbMemPageFindSlotWithLevelList(levelPageList: int, ghost list: seq<nat>, ghost memCtx: nat,
                                          ghost levelIdx: nat)
      returns (slotAddr: nat)
      requires Valid() && levelIdx < MEM_FIX_SIZE_LEVEL
      requires Threaded(NextOf(pages[..]), list) && levelPageList == HeadPage(list)
      requires forall q :: q in list ==> q < |st.owner| && st.owner[q] == SlotsOf(memCtx, levelIdx)
      modifies this, cells, pages
      ensures Valid()
      ensures var q := OpenPage(old(st).slots, list);
              if q == -1 then slotAddr == NULL && st == old(st)
              else (st, slotAddr) == old(PopSlot(st, q, levelIdx))
      decreases |list|
    {
      if levelPageList == NO_PAGE {
        return NULL;
      }
      assert list[0] in list && HeaderOk(st, pages[levelPageList], levelPageList);
      if pages[levelPageList].freeSlotCnt > 0 {
        slotAddr := TakeSlot(levelPageList, memCtx, levelIdx);
        return;
      }
      ThreadedTail(NextOf(pages[..]), list);
      assert forall q :: q in list[1..] ==> q in list;
      slotAddr := DbMemPageFindSlotWithLevelList(pages[levelPageList].nextPage, list[1..], memCtx, levelIdx);
    }

    // The first free slot of an open page, cleared.
    method TakeSlot(page: nat, ghost memCtx: nat, ghost levelIdx: nat) returns (slotAddr: nat)
      requires Valid() && page < pages.Length && levelIdx < MEM_FIX_SIZE_LEVEL
      requires st.owner[page] == SlotsOf(memCtx, levelIdx) && st.slots[page] != []
      modifies this, cells, pages
      ensures Valid()
      ensures (st, slotAddr) == old(PopSlot(st, page, levelIdx))
    {
      ghost var s, s', headers := st, PopSlot(st, page, levelIdx).0, pages[..];
      PopSlotKeepsInv(s, memCtx, page, levelIdx);
      PageWithin(s, page);
      assert PageOk(s, page) && HeaderOk(s, headers[page], page);
      FirstFree(s.base, s.cells, s.slots[page], s.out[page], PAGE_CELLS * page, levelIdx);
      slotAddr := pages[page].nextFreeAddr;
      var i := (slotAddr - base) / 8;
      var n := pages[page].slotAllocSize / 8;
      pages[page] := pages[page].(nextFreeAddr := cells[i], freeSlotCnt := pages[page].freeSlotCnt - 1);
      ClearCells(cells, i, n);
      st := s';
      SlotRepresented(s, headers, ctxs[..], levelIdx, page, pages[page]);
      assert pages[..] == headers[page := pages[page]];
    }

    // Small sizes.
    method DbDynMemCtxAlloc(memCtx: nat, allocSize: nat) returns (slotAddr: nat)
      requires Valid() && memCtx < ctxs.Length && 0 < allocSize <= 1024
      modifies this, cells, pages, ctxs
      ensures Valid()
      ensures (st, slotAddr) == old(SlotAlloc(st, memCtx, allocSize))
    {
      var levelIdx := DbGetFixSizeLevel(allocSize);
      slotAddr := FindInLevel(memCtx, levelIdx);
      if slotAddr != NULL {
        return;
      }
      GetAndSplitKeepsInv(st, memCtx, levelIdx);
      ghost var s := st;
      var ok := DbMemGetAndSplitPage(memCtx, levelIdx);
      if !ok {
        return NULL;
      }
      NewPageOpen(s, memCtx, levelIdx);
      slotAddr := FindInLevel(memCtx, levelIdx);
    }

    // A slot of the context's pages of this level, if it has such pages and one is open.
    method FindInLevel(memCtx: nat, levelIdx: nat) returns (slotAddr: nat)
      requires Valid() && memCtx < ctxs.Length && levelIdx < MEM_FIX_SIZE_LEVEL
      modifies this, cells, pages
      ensures Valid()
      ensures Holds(old(st).owner, old(st).levels[memCtx][levelIdx], SlotsOf(memCtx, levelIdx))
      ensures var q := OpenPage(old(st).slots, old(st).levels[memCtx][levelIdx]);
              if q == -1 then slotAddr == NULL && st == old(st)
              else (st, slotAddr) == old(PopSlot(st, q, levelIdx)) && slotAddr != NULL
    {
      ghost var list := st.levels[memCtx][levelIdx];
      assert CtxOk(st, ctxs[memCtx], memCtx);
      assert Holds(st.owner, list, SlotsOf(memCtx, levelIdx));
      if ctxs[memCtx].fixSizeLevelList[levelIdx] == NO_PAGE {
        return NULL;
      }
      slotAddr := DbMemPageFindSlotWithLevelList(ctxs[memCtx].fixSizeLevelList[levelIdx], list, memCtx, levelIdx);
    }
  }

  // What the header of a page just split has to say about its list of slots.
  lemma NewPageList(page: nat, l: nat)
    requires l < MEM_FIX_SIZE_LEVEL
    ensures |AllBlocks(PAGE_CELLS * page, l)| == PAGE_SIZE / DbPageGetSizeByLevel(l)
    ensures forall base: nat :: Head(base, AllBlocks(PAGE_CELLS * page, l)) == base + PAGE_SIZE * page
  {
    AllBlocksComplete(PAGE_CELLS * page, l);
  }

  // Clearing a page and threading it gives the split page's memory.
  lemma SameSplit(base: nat, cells: seq<Word>, cleared: seq<Word>, threaded: seq<Word>, o: nat, l: nat)
    requires l < MEM_FIX_SIZE_LEVEL && |cells| == |cleared| == |threaded| && o + PAGE_CELLS <= |cells|
    requires forall k :: 0 <= k < |cells| ==> cleared[k] == if o <= k < o + PAGE_CELLS then 0 else cells[k]
    requires Linked(base, threaded, AllBlocks(o, l)) && Linked(base, SplitCells(base, cells, o, l), AllBlocks(o, l))
    requires SameOutside(cleared, threaded, AllBlocks(o, l))
    ensures threaded == SplitCells(base, cells, o, l)
  {
    var split, list := SplitCells(base, cells, o, l), AllBlocks(o, l);
    AllBlocksComplete(o, l);
    forall k | 0 <= k < |cells|
      ensures threaded[k] == split[k]
    {
      if k in list {
        var j :| 0 <= j < |list| && list[j] == k;
        assert threaded[list[j]] == LinkAfter(base, list, j) == split[list[j]];
      }
    }
  }
}
