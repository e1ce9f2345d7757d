/** What holds of the memory contexts over every run of small allocations from any contexts of the
    tree, with owners writing to their slots in between. */
module MemCtxRuns {
  import opened Blocks
  import opened MemCtxState

  // ---- Slots handed out ----

  // Slot i of page p, of level l, is handed out.
  ghost predicate OutSlot(s: CtxState, p: nat, m: nat, l: nat, i: nat)
    requires Shape(s)
  {
    p < |s.owner| && l < MEM_FIX_SIZE_LEVEL && s.owner[p] == SlotsOf(m, l) && i in s.out[p]
  }

  ghost predicate Live(s: CtxState, ptr: nat, len: nat)
    requires Shape(s)
  {
    exists p, m, l, i :: OutSlot(s, p, m, l, i) && ptr == Ptr(s.base, i) && len == DbPageGetSizeByLevel(l)
  }

  lemma OutSlotIsBlock(s: CtxState, p: nat, m: nat, l: nat, i: nat)
    requires Inv(s) && OutSlot(s, p, m, l, i)
    ensures IsBlock(PAGE_CELLS * p, l, i) && i + Cells(l) <= |s.cells|
  {
    PageWithin(s, p);
    assert PageOk(s, p);
    BlockFits(PAGE_CELLS * p, l, i);
  }

  lemma PagesApart(p: nat, q: nat)
    requires p != q
    ensures PAGE_CELLS * p + PAGE_CELLS <= PAGE_CELLS * q || PAGE_CELLS * q + PAGE_CELLS <= PAGE_CELLS * p
  {
  }

  // No two slots handed out overlap, whatever their contexts, levels and pages.
  lemma OutSlotsDisjoint(s: CtxState, ptr: nat, len: nat, ptr': nat, len': nat)
    requires Inv(s) && Live(s, ptr, len) && Live(s, ptr', len') && ptr != ptr'
    ensures ptr + len <= ptr' || ptr' + len' <= ptr
  {
    var p, m, l, i :| OutSlot(s, p, m, l, i) && ptr == Ptr(s.base, i) && len == DbPageGetSizeByLevel(l);
    var q, n, k, j :| OutSlot(s, q, n, k, j) && ptr' == Ptr(s.base, j) && len' == DbPageGetSizeByLevel(k);
    OutSlotIsBlock(s, p, m, l, i);
    OutSlotIsBlock(s, q, n, k, j);
    if p == q {
      BlocksSeparate(PAGE_CELLS * p, l, i, j);
    } else {
      PagesApart(p, q);
      PagesSeparate(PAGE_CELLS * p, l, i, PAGE_CELLS * q, k, j);
    }
  }

  // ---- One allocation ----

  // Handing out a slot of page p adds that slot, which was not handed out before, and no other.
  lemma PopSlotGives(s: CtxState, m: nat, p: nat, l: nat)
    requires Inv(s) && p < |s.owner| && l < MEM_FIX_SIZE_LEVEL && s.owner[p] == SlotsOf(m, l) && s.slots[p] != []
    ensures var (s', ptr) := PopSlot(s, p, l);
            && Inv(s') && ptr != NULL
            && Live(s', ptr, DbPageGetSizeByLevel(l)) && (forall len :: !Live(s, ptr, len))
            && (forall q, len :: Live(s, q, len) ==> Live(s', q, len))
            && (forall k :: s.slots[p][0] <= k < s.slots[p][0] + Cells(l) ==> k < |s'.cells| && s'.cells[k] == 0)
  {
    PopSlotKeepsInv(s, m, p, l);
    PageWithin(s, p);
    assert PageOk(s, p);
    FirstFree(s.base, s.cells, s.slots[p], s.out[p], PAGE_CELLS * p, l);
    var (s', ptr) := PopSlot(s, p, l);
    var i := s.slots[p][0];
    assert i in s.slots[p];
    assert OutSlot(s', p, m, l, i);
    forall len
      ensures !Live(s, ptr, len)
    {
      if q, n, k, j :| OutSlot(s, q, n, k, j) && ptr == Ptr(s.base, j) && len == DbPageGetSizeByLevel(k) {
        OutSlotIsBlock(s, q, n, k, j);
        if q != p {
          PagesApart(p, q);
        }
        assert false;
      }
    }
    forall q, len | Live(s, q, len)
      ensures Live(s', q, len)
    {
      var r, n, k, j :| OutSlot(s, r, n, k, j) && q == Ptr(s.base, j) && len == DbPageGetSizeByLevel(k);
      assert OutSlot(s', r, n, k, j);
    }
  }

  // Splitting a page hands out nothing and takes nothing back.
  lemma SplitKeepsLive(s: CtxState, m: nat, l: nat, ptr: nat, len: nat)
    requires Inv(s) && m < |s.parents| && l < MEM_FIX_SIZE_LEVEL
    ensures Live(GetAndSplit(s, m, l).0, ptr, len) <==> Live(s, ptr, len)
  {
    var s' := GetAndSplit(s, m, l).0;
    TakePageIsNearest(s, m);
    var p := TakePage(s, m).1;
    var d := NearestDonor(s, m);
    if p >= 0 {
      assert p in s.free[d] && Holds(s.owner, s.free[d], FreeOf(d));
      assert PageOk(s, p) && s.out[p] == {};
      if q, n, k, i :| OutSlot(s, q, n, k, i) && ptr == Ptr(s.base, i) && len == DbPageGetSizeByLevel(k) {
        assert OutSlot(s', q, n, k, i);
      }
      if q, n, k, i :| OutSlot(s', q, n, k, i) && ptr == Ptr(s.base, i) && len == DbPageGetSizeByLevel(k) {
        assert OutSlot(s, q, n, k, i);
      }
    }
  }

  ghost predicate LevelFull(s: CtxState, m: nat, l: nat)
    requires Shape(s) && m < |s.levels| && l < MEM_FIX_SIZE_LEVEL
  {
    forall q :: q in s.levels[m][l] && q < |s.slots| ==> s.slots[q] == []
  }

  // A page is split only when every page of the level is full; the request fails exactly when, on top
  // of that, no context from the requester up has a free page.  A slot handed out is new, non-null and
  // large enough, and nothing handed out earlier is affected.
  lemma {:induction false} SlotAllocGives(s: CtxState, m: nat, allocSize: nat)
    requires Inv(s) && m < |s.parents| && 0 < allocSize <= 1024
    ensures var (s', ptr) := SlotAlloc(s, m, allocSize);
            var l := DbGetFixSizeLevel(allocSize);
            && Inv(s')
            && (ptr == NULL <==> LevelFull(s, m, l) && NearestDonor(s, m) == -1)
            && (ptr == NULL ==> s' == s)
            && (!LevelFull(s, m, l) ==> s'.levels == s.levels && s'.free == s.free)
            && (ptr != NULL ==> Live(s', ptr, DbPageGetSizeByLevel(l)) && allocSize <= DbPageGetSizeByLevel(l)
                                && forall len :: !Live(s, ptr, len))
            && (forall q, len :: Live(s, q, len) ==> Live(s', q, len))
  {
    SlotAllocKeepsInv(s, m, allocSize);
    var l := DbGetFixSizeLevel(allocSize);
    assert Holds(s.owner, s.levels[m][l], SlotsOf(m, l));
    var q := OpenPage(s.slots, s.levels[m][l]);
    if q >= 0 {
      PopSlotGives(s, m, q, l);
    } else {
      TakePageIsNearest(s, m);
      GetAndSplitKeepsInv(s, m, l);
      var (s1, ok) := GetAndSplit(s, m, l);
      if ok {
        NewPageOpen(s, m, l);
        PopSlotGives(s1, m, s1.levels[m][l][0], l);
        forall r, len
          ensures Live(s1, r, len) <==> Live(s, r, len)
        {
          SplitKeepsLive(s, m, l, r, len);
        }
      }
    }
  }

  // ---- Owners write to their slots ----

  ghost predicate OwnedCell(s: CtxState, k: nat)
    requires Shape(s)
  {
    exists p: nat, m: nat, l: nat, i: nat :: OutSlot(s, p, m, l, i) && i <= k < i + Cells(l)
  }

  lemma StoreKeepsInv(s: CtxState, k: nat, w: Word)
    requires Inv(s) && OwnedCell(s, k)
    ensures k < |s.cells| && Inv(s.(cells := s.cells[k := w]))
  {
    var p: nat, m: nat, l: nat, i: nat :| OutSlot(s, p, m, l, i) && i <= k < i + Cells(l);
    OutSlotIsBlock(s, p, m, l, i);
    BlockFits(PAGE_CELLS * p, l, i);
    var s' := s.(cells := s.cells[k := w]);
    forall q | 0 <= q < |s.owner|
      ensures PageOk(s', q)
    {
      if q == p {
        assert PageOk(s, p);
        forall j | j in s.slots[p]
          ensures s'.cells[j] == s.cells[j]
        {
          BlocksSeparate(PAGE_CELLS * p, l, i, j);
        }
        PageFrame(s.base, s.cells, s'.cells, s.slots[p], s.out[p], PAGE_CELLS * p, l);
      } else {
        PagesApart(p, q);
        PageOkFrame(s, s', q);
      }
    }
  }

  // ---- Every page has one place ----

  // Page p is on the list that belongs to this owner.
  ghost predicate OnListOf(s: CtxState, p: nat, o: Owner)
    requires Shape(s)
  {
    match o
    case FreeOf(c) => c < |s.free| && p in s.free[c]
    case SlotsOf(c, l) => c < |s.levels| && l < MEM_FIX_SIZE_LEVEL && p in s.levels[c][l]
    case Taken => false
  }

  // No page is between lists.
  ghost predicate AllPlaced(s: CtxState) {
    forall p :: 0 <= p < |s.owner| ==> s.owner[p] != Taken
  }

  // Each page is on exactly one free list or level list, once.
  lemma EachPageOnOneList(s: CtxState, p: nat, o: Owner)
    requires Inv(s) && AllPlaced(s) && p < |s.owner|
    ensures OnListOf(s, p, o) <==> o == s.owner[p]
  {
    assert OwnerOk(s.owner[p], |s.parents|);
    match o {
      case FreeOf(c) =>
        if c < |s.free| {
          assert Holds(s.owner, s.free[c], o);
        }
      case SlotsOf(c, l) =>
        if c < |s.levels| && l < MEM_FIX_SIZE_LEVEL {
          assert Holds(s.owner, s.levels[c][l], o);
        }
      case Taken =>
    }
  }

  lemma SlotAllocKeepsPlaced(s: CtxState, m: nat, allocSize: nat)
    requires Inv(s) && AllPlaced(s) && m < |s.parents| && 0 < allocSize <= 1024
    ensures AllPlaced(SlotAlloc(s, m, allocSize).0)
  {
    TakePageIsNearest(s, m);
  }

  // ---- Every run ----

  datatype Op = AllocSlot(ctx: nat, size: nat) | Store(cell: nat, word: Word)

  ghost predicate Allowed(s: CtxState, op: Op)
    requires Inv(s)
  {
    match op
    case AllocSlot(m, size) => m < |s.parents| && 0 < size <= 1024
    case Store(k, _) => OwnedCell(s, k)
  }

  ghost function Apply(s: CtxState, op: Op): (s': CtxState)
    requires Inv(s) && Allowed(s, op)
    ensures Inv(s')
  {
    match op
    case AllocSlot(m, size) => SlotAllocKeepsInv(s, m, size); SlotAlloc(s, m, size).0
    case Store(k, w) => StoreKeepsInv(s, k, w); s.(cells := s.cells[k := w])
  }

  ghost predicate Feasible(s: CtxState, ops: seq<Op>)
    requires Inv(s)
    decreases |ops|
  {
    ops == [] || (Allowed(s, ops[0]) && Feasible(Apply(s, ops[0]), ops[1..]))
  }

  ghost function Run(s: CtxState, ops: seq<Op>): (s': CtxState)
    requires Inv(s) && Feasible(s, ops)
    ensures Inv(s')
    decreases |ops|
  {
    if ops == [] then s else Run(Apply(s, ops[0]), ops[1..])
  }

  lemma ApplyKeeps(s: CtxState, op: Op, ptr: nat, len: nat)
    requires Inv(s) && Allowed(s, op) && AllPlaced(s)
    ensures AllPlaced(Apply(s, op))
    ensures Live(s, ptr, len) ==> Live(Apply(s, op), ptr, len)
  {
    match op {
      case AllocSlot(m, size) =>
        SlotAllocGives(s, m, size);
        SlotAllocKeepsPlaced(s, m, size);
      case Store(k, w) =>
        StoreKeepsInv(s, k, w);
        var s' := s.(cells := s.cells[k := w]);
        if p, m, l, i :| OutSlot(s, p, m, l, i) && ptr == Ptr(s.base, i) && len == DbPageGetSizeByLevel(l) {
          assert OutSlot(s', p, m, l, i);
        }
    }
  }

  lemma {:induction false} RunKeeps(s: CtxState, ops: seq<Op>, ptr: nat, len: nat)
    requires Inv(s) && Feasible(s, ops) && AllPlaced(s)
    ensures AllPlaced(Run(s, ops))
    ensures Live(s, ptr, len) ==> Live(Run(s, ops), ptr, len)
    decreases |ops|
  {
    if ops != [] {
      ApplyKeeps(s, ops[0], ptr, len);
      RunKeeps(Apply(s, ops[0]), ops[1..], ptr, len);
    }
  }

  // Following the in-page links of a split page, for however many steps, meets each of its slots not
  // handed out once and nothing else, and ends at NULL; free and handed-out slots make up the page.
  ghost predicate ChainOk(s: CtxState, p: nat)
    requires Shape(s) && p < |s.owner|
  {
    s.owner[p].SlotsOf? && s.owner[p].level < MEM_FIX_SIZE_LEVEL ==>
      && LeadsThrough(s.base, s.cells, Head(s.base, s.slots[p]), s.slots[p])
      && Distinct(s.slots[p])
      && (forall i :: i in s.slots[p] <==> IsBlock(PAGE_CELLS * p, s.owner[p].level, i) && i !in s.out[p])
      && |s.slots[p]| + |s.out[p]| == PAGE_CELLS / Cells(s.owner[p].level)
  }

  lemma ChainsOk(s: CtxState, p: nat)
    requires Inv(s) && p < |s.owner|
    ensures ChainOk(s, p)
  {
    if s.owner[p].SlotsOf? {
      assert PageOk(s, p);
      LinkedLeadsThrough(s.base, s.cells, s.slots[p]);
      PageCount(s.base, s.cells, s.slots[p], s.out[p], PAGE_CELLS * p, s.owner[p].level);
    }
  }

  // No two slots handed out overlap, every page is on exactly one list, and the in-page links of a split
  // page lead through exactly its slots not handed out, as many as its total less those, and end.
  ghost predicate SafeState(t: CtxState) {
    && Shape(t)
    && (forall p, m, q, n :: Live(t, p, m) && Live(t, q, n) && p != q ==> p + m <= q || q + n <= p)
    && (forall p, o :: 0 <= p < |t.owner| ==> (OnListOf(t, p, o) <==> o == t.owner[p]))
    && (forall p :: 0 <= p < |t.owner| ==> ChainOk(t, p))
  }

  // Any run from any contexts of the tree ends in a safe state, and takes back nothing handed out.
  lemma {:induction false} SlotsSafeOverEveryRun(s: CtxState, ops: seq<Op>)
    requires Inv(s) && Feasible(s, ops) && AllPlaced(s)
    ensures SafeState(Run(s, ops))
    ensures forall p, m :: Live(s, p, m) ==> Live(Run(s, ops), p, m)
  {
    var t := Run(s, ops);
    RunKeeps(s, ops, 0, 0);
    forall p, m, q, n | Live(t, p, m) && Live(t, q, n) && p != q
      ensures p + m <= q || q + n <= p
    {
      OutSlotsDisjoint(t, p, m, q, n);
    }
    forall p, m | Live(s, p, m)
      ensures Live(t, p, m)
    {
      RunKeeps(s, ops, p, m);
    }
    forall p, o | 0 <= p < |t.owner|
      ensures OnListOf(t, p, o) <==> o == t.owner[p]
    {
      EachPageOnOneList(t, p, o);
    }
    forall p | 0 <= p < |t.owner|
      ensures ChainOk(t, p)
    {
      ChainsOk(t, p);
    }
  }

  // From the state the server starts in, over any tree.
  lemma {:induction false} FreshContextsSafe(base: nat, cells: seq<Word>, parents: seq<int>, pageCnt: nat, ops: seq<Op>)
    requires 0 < |parents| && forall c :: 0 <= c < |parents| ==> -1 <= parents[c] < c
    requires |cells| == PAGE_CELLS * pageCnt && NULL < base && base + 8 * |cells| < 0x1_0000_0000_0000_0000
    ensures Inv(InitialState(base, cells, parents, pageCnt))
    ensures Feasible(InitialState(base, cells, parents, pageCnt), ops) ==>
              SafeState(Run(InitialState(base, cells, parents, pageCnt), ops))
  {
    InitialInv(base, cells, parents, pageCnt);
    if Feasible(InitialState(base, cells, parents, pageCnt), ops) {
      SlotsSafeOverEveryRun(InitialState(base, cells, parents, pageCnt), ops);
    }
  }
}
