/** Where a slot of a memory context comes from, and that what owners wrote to their slots stays. */
module MemCtxWords {
  import opened Blocks
  import opened MemCtxState
  import opened MemCtxRuns

  // ---- Which slot ----

  // Entry k of the list is the first page with a free slot.
  ghost predicate FirstOpen(slots: seq<seq<nat>>, list: seq<nat>, k: nat)
    requires k < |list| && forall j :: 0 <= j < |list| ==> list[j] < |slots|
  {
    slots[list[k]] != [] && forall j :: 0 <= j < k ==> slots[list[j]] == []
  }

  lemma {:induction false} OpenPageIsFirst(slots: seq<seq<nat>>, list: seq<nat>)
    requires (forall q :: q in list ==> q < |slots|) && OpenPage(slots, list) >= 0
    ensures forall j :: 0 <= j < |list| ==> list[j] < |slots|
    ensures exists k: nat :: k < |list| && list[k] == OpenPage(slots, list) && FirstOpen(slots, list, k)
  {
    assert forall j :: 0 <= j < |list| ==> list[j] in list;
    assert list[0] in list && forall q :: q in list[1..] ==> q in list;
    if slots[list[0]] == [] {
      var rest := list[1..];
      OpenPageIsFirst(slots, rest);
      var k: nat :| k < |rest| && rest[k] == OpenPage(slots, rest) && FirstOpen(slots, rest, k);
      assert forall j :: 0 < j < k + 1 ==> list[j] == rest[j - 1];
      assert list[k + 1] == OpenPage(slots, list) && FirstOpen(slots, list, k + 1);
    } else {
      assert list[0] == OpenPage(slots, list) && FirstOpen(slots, list, 0);
    }
  }

  // The slots of page p lose their first to its holder; no other page and no list changes.
  ghost predicate TakesFirstSlot(s: CtxState, s': CtxState, p: nat, ptr: nat)
    requires p < |s.slots| == |s.out| && s.slots[p] != []
  {
    && ptr == Ptr(s.base, s.slots[p][0])
    && s'.base == s.base && s'.parents == s.parents
    && s'.free == s.free && s'.levels == s.levels && s'.owner == s.owner
    && s'.slots == s.slots[p := s.slots[p][1..]] && s'.out == s.out[p := s.out[p] + {s.slots[p][0]}]
  }

  // Page p leaves the list of context d and heads the context's list of the level, its first slot handed
  // out and all others free; no other page and no other list changes.
  ghost predicate SplitsPage(s: CtxState, s': CtxState, m: nat, l: nat, d: nat, p: nat, ptr: nat)
    requires d < |s.free| && s.free[d] != [] && m < |s.levels| && l < |s.levels[m]| && l < CLASS_CNT
    requires p < |s.owner| == |s.slots| == |s.out|
  {
    && p == s.free[d][0] && ptr == Ptr(s.base, 512 * p)
    && s'.base == s.base && s'.parents == s.parents
    && s'.free == s.free[d := s.free[d][1..]]
    && s'.levels == s.levels[m := s.levels[m][l := [p] + s.levels[m][l]]]
    && s'.owner == s.owner[p := SlotsOf(m, l)]
    && s'.slots == s.slots[p := AllBlocks(512 * p, l)[1..]] && s'.out == s.out[p := {512 * p}]
  }

  // A slot is the first of the first page of the level with a free one; when there is none, the head page
  // of the nearest context, the requester first, that has one is split, and the slot is its first.
  lemma {:induction false} SlotComesFrom(s: CtxState, m: nat, allocSize: nat)
    requires Inv(s) && m < |s.parents| && 0 < allocSize <= 1024
    ensures var (s', ptr) := SlotAlloc(s, m, allocSize);
            var l, d := DbGetFixSizeLevel(allocSize), NearestDonor(s, m);
            var list := s.levels[m][l];
            && (forall j :: 0 <= j < |list| ==> list[j] < |s.slots|)
            && (!LevelFull(s, m, l) ==>
                  exists k: nat :: k < |list| && FirstOpen(s.slots, list, k) && TakesFirstSlot(s, s', list[k], ptr))
            && (LevelFull(s, m, l) && d >= 0 ==>
                  s.free[d][0] < |s.owner| && SplitsPage(s, s', m, l, d, s.free[d][0], ptr))
  {
    var l, d := DbGetFixSizeLevel(allocSize), NearestDonor(s, m);
    var list := s.levels[m][l];
    assert Holds(s.owner, list, SlotsOf(m, l));
    assert forall j :: 0 <= j < |list| ==> list[j] in list;
    var q := OpenPage(s.slots, list);
    if q >= 0 {
      OpenPageIsFirst(s.slots, list);
      assert TakesFirstSlot(s, SlotAlloc(s, m, allocSize).0, q, SlotAlloc(s, m, allocSize).1);
    } else if d >= 0 {
      TakePageIsNearest(s, m);
      var p := TakePage(s, m).1;
      assert p in s.free[d] && Holds(s.owner, s.free[d], FreeOf(d));
      assert PageOk(s, p) && s.out[p] == {};
      AllBlocksComplete(PAGE_CELLS * p, l);
      NewPageOpen(s, m, l);
      assert {} + {PAGE_CELLS * p} == {PAGE_CELLS * p};
    }
  }

  // ---- Words that are held ----

  // A cell of a slot handed out lies in no free slot and in no page that is not split.
  lemma HeldCell(s: CtxState, k: nat)
    requires Inv(s) && OwnedCell(s, k)
    ensures k < |s.cells|
    ensures forall p: nat, m: nat, l: nat, n: nat :: p < |s.owner| && s.owner[p] == SlotsOf(m, l) && n in s.slots[p] ==>
              l < MEM_FIX_SIZE_LEVEL && !(n <= k < n + Cells(l))
    ensures forall p :: 0 <= p < |s.owner| && !s.owner[p].SlotsOf? ==>
              !(PAGE_CELLS * p <= k < PAGE_CELLS * p + PAGE_CELLS)
  {
    var q: nat, a: nat, c: nat, i: nat :| OutSlot(s, q, a, c, i) && i <= k < i + Cells(c);
    OutSlotIsBlock(s, q, a, c, i);
    BlockFits(PAGE_CELLS * q, c, i);
    forall p: nat, m: nat, l: nat, n: nat | p < |s.owner| && s.owner[p] == SlotsOf(m, l) && n in s.slots[p]
      ensures l < MEM_FIX_SIZE_LEVEL && !(n <= k < n + Cells(l))
    {
      assert PageOk(s, p);
      BlockFits(PAGE_CELLS * p, l, n);
      if p == q {
        assert PageOk(s, q);
        BlocksSeparate(PAGE_CELLS * p, l, i, n);
      } else {
        PagesApart(p, q);
      }
    }
    forall p | 0 <= p < |s.owner| && !s.owner[p].SlotsOf?
      ensures !(PAGE_CELLS * p <= k < PAGE_CELLS * p + PAGE_CELLS)
    {
      PagesApart(p, q);
    }
  }

  lemma PopSlotKeepsWords(s: CtxState, m: nat, p: nat, l: nat, k: nat)
    requires Inv(s) && p < |s.owner| && l < MEM_FIX_SIZE_LEVEL && s.owner[p] == SlotsOf(m, l) && s.slots[p] != []
    requires k < |s.cells|
    ensures var s' := PopSlot(s, p, l).0;
            && Shape(s')
            && (OwnedCell(s, k) ==> OwnedCell(s', k) && s'.cells[k] == s.cells[k])
            && (OwnedCell(s', k) && !OwnedCell(s, k) ==> s'.cells[k] == 0)
  {
    var s' := PopSlot(s, p, l).0;
    PopSlotKeepsInv(s, m, p, l);
    if OwnedCell(s, k) {
      HeldCell(s, k);
      assert s.slots[p][0] in s.slots[p];
      var q: nat, a: nat, c: nat, i: nat :| OutSlot(s, q, a, c, i) && i <= k < i + Cells(c);
      assert OutSlot(s', q, a, c, i);
    } else if q: nat, a: nat, c: nat, i: nat :| OutSlot(s', q, a, c, i) && i <= k < i + Cells(c) {
      if q != p || i != s.slots[p][0] {
        assert OutSlot(s, q, a, c, i);
      }
    }
  }

  lemma SplitKeepsWords(s: CtxState, m: nat, l: nat, k: nat)
    requires Inv(s) && m < |s.parents| && l < MEM_FIX_SIZE_LEVEL && k < |s.cells|
    ensures var s' := GetAndSplit(s, m, l).0;
            && (OwnedCell(s', k) <==> OwnedCell(s, k)) && |s'.cells| == |s.cells|
            && (OwnedCell(s, k) ==> s'.cells[k] == s.cells[k])
  {
    var s' := GetAndSplit(s, m, l).0;
    TakePageIsNearest(s, m);
    var p, d := TakePage(s, m).1, NearestDonor(s, m);
    if p >= 0 {
      assert p in s.free[d] && Holds(s.owner, s.free[d], FreeOf(d));
      assert PageOk(s, p) && s.out[p] == {};
      if q: nat, a: nat, c: nat, i: nat :| OutSlot(s, q, a, c, i) && i <= k < i + Cells(c) {
        HeldCell(s, k);
        assert OutSlot(s', q, a, c, i);
      }
      if q: nat, a: nat, c: nat, i: nat :| OutSlot(s', q, a, c, i) && i <= k < i + Cells(c) {
        assert OutSlot(s, q, a, c, i);
      }
    }
  }

  // An allocation takes no word from anyone and changes none; the words it newly hands out are zero.
  lemma {:induction false} SlotAllocKeepsWords(s: CtxState, m: nat, allocSize: nat, k: nat)
    requires Inv(s) && m < |s.parents| && 0 < allocSize <= 1024 && k < |s.cells|
    ensures var s' := SlotAlloc(s, m, allocSize).0;
            && Shape(s') && |s'.cells| == |s.cells|
            && (OwnedCell(s, k) ==> OwnedCell(s', k) && s'.cells[k] == s.cells[k])
            && (OwnedCell(s', k) && !OwnedCell(s, k) ==> s'.cells[k] == 0)
  {
    var l := DbGetFixSizeLevel(allocSize);
    assert Holds(s.owner, s.levels[m][l], SlotsOf(m, l));
    var q := OpenPage(s.slots, s.levels[m][l]);
    if q >= 0 {
      PopSlotKeepsWords(s, m, q, l, k);
    } else {
      GetAndSplitKeepsInv(s, m, l);
      SplitKeepsWords(s, m, l, k);
      var (s1, ok) := GetAndSplit(s, m, l);
      if ok {
        NewPageOpen(s, m, l);
        PopSlotKeepsWords(s1, m, s1.levels[m][l][0], l, k);
      }
    }
  }

  // ---- Every run ----

  // What a holder last made of the word, read off the run alone: w at the start, zero when its slot is
  // handed out, and what is stored there.
  ghost function LastWord(s: CtxState, ops: seq<Op>, k: nat, w: Word): (r: Word)
    requires Inv(s) && Feasible(s, ops)
    decreases |ops|
  {
    if ops == [] then w else LastWord(Apply(s, ops[0]), ops[1..], k, NextWord(s, ops[0], k, w))
  }

  ghost function NextWord(s: CtxState, op: Op, k: nat, w: Word): (r: Word)
    requires Inv(s) && Allowed(s, op)
  {
    if op.Store? && op.cell == k then op.word
    else if op.AllocSlot? && OwnedCell(Apply(s, op), k) && !OwnedCell(s, k) then 0
    else w
  }

  lemma StepKeepsWords(s: CtxState, op: Op, k: nat, w: Word)
    requires Inv(s) && Allowed(s, op) && k < |s.cells| && (OwnedCell(s, k) ==> s.cells[k] == w)
    ensures |Apply(s, op).cells| == |s.cells|
    ensures OwnedCell(Apply(s, op), k) ==> Apply(s, op).cells[k] == NextWord(s, op, k, w)
  {
    match op {
      case AllocSlot(m, size) => SlotAllocKeepsWords(s, m, size, k);
      case Store(j, x) =>
        StoreKeepsInv(s, j, x);
        if p: nat, m: nat, l: nat, i: nat :| OutSlot(Apply(s, op), p, m, l, i) && i <= k < i + Cells(l) {
          assert OutSlot(s, p, m, l, i);
        }
    }
  }

  lemma {:induction false} WordsFollowRun(s: CtxState, ops: seq<Op>, k: nat, w: Word)
    requires Inv(s) && Feasible(s, ops) && k < |s.cells| && (OwnedCell(s, k) ==> s.cells[k] == w)
    ensures |Run(s, ops).cells| == |s.cells|
    ensures OwnedCell(Run(s, ops), k) ==> Run(s, ops).cells[k] == LastWord(s, ops, k, w)
    decreases |ops|
  {
    hide Inv, OwnedCell, Allowed, Apply, NextWord;
    if ops != [] {
      StepKeepsWords(s, ops[0], k, w);
      WordsFollowRun(Apply(s, ops[0]), ops[1..], k, NextWord(s, ops[0], k, w));
    }
  }

  // Whatever the run from the state the server starts in, every word of every slot handed out is what its
  // holder last stored there, or zero if it stored nothing there.
  lemma {:induction false} HoldersFindTheirWords(base: nat, cells: seq<Word>, parents: seq<int>, pageCnt: nat,
                                                 ops: seq<Op>, k: nat)
    requires 0 < |parents| && forall c :: 0 <= c < |parents| ==> -1 <= parents[c] < c
    requires |cells| == PAGE_CELLS * pageCnt && NULL < base && base + 8 * |cells| < 0x1_0000_0000_0000_0000
    ensures var s := InitialState(base, cells, parents, pageCnt);
            && Inv(s)
            && (Feasible(s, ops) && k < |cells| && OwnedCell(Run(s, ops), k) ==>
                  |Run(s, ops).cells| == |cells| && Run(s, ops).cells[k] == LastWord(s, ops, k, 0))
  {
    InitialInv(base, cells, parents, pageCnt);
    var s := InitialState(base, cells, parents, pageCnt);
    if Feasible(s, ops) && k < |cells| {
      WordsFollowRun(s, ops, k, 0);
    }
  }
}
