/** The growable vector: a flat byte buffer of equal-sized items that refines a sequence. */
module VectorUtil {
  import opened Arith
  import opened Bytes

  const DB_VECTOR_INIT_CAPACITY: nat := 5

  function Pow2(k: nat): (p: nat)
    ensures p >= 1
  {
    if k == 0 then 1 else 2 * Pow2(k - 1)
  }

  // ---- The sequence a vector stands for ----

  // Items, and the history that decides how much was copied: doublings of the capacity, appends,
  // and items copied by reallocation.
  datatype VectorView = VectorView(items: seq<seq<byte>>, doublings: nat, appends: nat, copied: nat)

  function Capacity(v: VectorView): (c: nat) {
    DB_VECTOR_INIT_CAPACITY * Pow2(v.doublings)
  }

  // What callers do to a vector; Write is a store through a pointer that DbVectorGetItem answered.
  datatype VectorOp = Append(item: seq<byte>) | Remove(index: nat) | Clear | Write(at: nat, bytes: seq<byte>)

  const EMPTY_VECTOR := VectorView([], 0, 0, 0)

  function Step(v: VectorView, op: VectorOp): (v': VectorView) {
    match op
    case Append(item) =>
      if |v.items| >= Capacity(v)
      then VectorView(v.items + [item], v.doublings + 1, v.appends + 1, v.copied + |v.items|)
      else v.(items := v.items + [item], appends := v.appends + 1)
    case Remove(i) => if i < |v.items| then v.(items := v.items[..i] + v.items[i + 1..]) else v
    case Clear => v.(items := [])
    case Write(i, item) => if i < |v.items| then v.(items := v.items[i := item]) else v
  }

  // What a call asks of its caller: items of the vector's item size, a pointer that was answered, and a
  // buffer that stays within 32 bits when it has to grow.
  predicate Callable(v: VectorView, op: VectorOp, itemSize: nat) {
    match op
    case Append(item) =>
      && |item| == itemSize
      && (|v.items| == Capacity(v) ==> Capacity(v) * 2 < TWO_TO_THE_32 && Capacity(v) * itemSize * 2 < TWO_TO_THE_32)
    case Write(i, item) => i < |v.items| && |item| == itemSize
    case Remove(_) => true
    case Clear => true
  }

  ghost predicate ViewInv(v: VectorView) {
    && |v.items| <= Capacity(v)
    && |v.items| <= v.appends
    && v.copied + DB_VECTOR_INIT_CAPACITY == Capacity(v)
    && (v.doublings == 0 || Capacity(v) < 2 * v.appends)
  }

  lemma StepKeepsInv(v: VectorView, op: VectorOp)
    requires ViewInv(v)
    ensures ViewInv(Step(v, op))
  {
    assert Pow2(v.doublings + 1) == 2 * Pow2(v.doublings);
  }

  // An append doubles the capacity of a full vector and no other.
  lemma DoublesWhenFull(v: VectorView, item: seq<byte>)
    ensures Capacity(Step(v, Append(item))) == if |v.items| >= Capacity(v) then 2 * Capacity(v) else Capacity(v)
  {
  }

  function Run(v: VectorView, ops: seq<VectorOp>): (v': VectorView) {
    if ops == [] then v else Step(Run(v, ops[..|ops| - 1]), ops[|ops| - 1])
  }

  function AppendCount(ops: seq<VectorOp>): (n: nat) {
    if ops == [] then 0 else AppendCount(ops[..|ops| - 1]) + if ops[|ops| - 1].Append? then 1 else 0
  }

  // After any run from init, n appends (and any other calls) have copied fewer than 2n items in all,
  // and the capacity is the start capacity plus what was copied.
  lemma {:induction false} AppendsCopyFewerThanTwice(ops: seq<VectorOp>)
    ensures ViewInv(Run(EMPTY_VECTOR, ops)) && Run(EMPTY_VECTOR, ops).appends == AppendCount(ops)
    ensures AppendCount(ops) > 0 ==> Run(EMPTY_VECTOR, ops).copied < 2 * AppendCount(ops)
    ensures AppendCount(ops) == 0 ==> Run(EMPTY_VECTOR, ops).copied == 0
  {
    if ops == [] {
      assert Capacity(EMPTY_VECTOR) == DB_VECTOR_INIT_CAPACITY * Pow2(0);
    } else {
      var front := ops[..|ops| - 1];
      AppendsCopyFewerThanTwice(front);
      StepKeepsInv(Run(EMPTY_VECTOR, front), ops[|ops| - 1]);
    }
    var v := Run(EMPTY_VECTOR, ops);
    assert v.doublings == 0 ==> Pow2(v.doublings) == 1;
  }

  // ---- Items in a flat buffer ----

  // Start of item i.  Summed, so that proofs about positions stay linear; it is the product the C
  // code computes.
  function Start(i: nat, itemSize: nat): (at: nat) {
    if i == 0 then 0 else Start(i - 1, itemSize) + itemSize
  }

  lemma {:induction false} StartIsProduct(i: nat, itemSize: nat)
    ensures Start(i, itemSize) == i * itemSize
  {
    if i > 0 {
      StartIsProduct(i - 1, itemSize);
      MulStep(i - 1, itemSize);
    }
  }

  // Item i ends no later than item n starts.
  lemma {:induction false} StartsGrow(i: nat, n: nat, itemSize: nat)
    requires i < n
    ensures Start(i, itemSize) + itemSize <= Start(n, itemSize)
    decreases n
  {
    if i < n - 1 {
      StartsGrow(i, n - 1, itemSize);
    }
  }

  // The first n items of a buffer.
  ghost function ItemsOf(data: seq<byte>, itemSize: nat, n: nat): (items: seq<seq<byte>>)
    requires Start(n, itemSize) <= |data|
    ensures |items| == n
  {
    if n == 0 then []
    else ItemsOf(data, itemSize, n - 1) + [data[Start(n - 1, itemSize)..Start(n, itemSize)]]
  }

  lemma {:induction false} ItemsOfAt(data: seq<byte>, itemSize: nat, n: nat, i: nat)
    requires Start(n, itemSize) <= |data| && i < n
    ensures Start(i, itemSize) + itemSize <= |data|
    ensures ItemsOf(data, itemSize, n)[i] == data[Start(i, itemSize)..Start(i, itemSize) + itemSize]
  {
    if i < n - 1 {
      ItemsOfAt(data, itemSize, n - 1, i);
    }
  }

  // Items depend on no bytes behind them.
  lemma {:induction false} ItemsFrame(data: seq<byte>, data': seq<byte>, itemSize: nat, n: nat)
    requires Start(n, itemSize) <= |data| && Start(n, itemSize) <= |data'|
    requires data'[..Start(n, itemSize)] == data[..Start(n, itemSize)]
    ensures ItemsOf(data', itemSize, n) == ItemsOf(data, itemSize, n)
  {
    if n > 0 {
      var a, b := Start(n - 1, itemSize), Start(n, itemSize);
      assert data'[..a] == data'[..b][..a] == data[..b][..a] == data[..a];
      assert data'[a..b] == data'[..b][a..] == data[..b][a..] == data[a..b];
      ItemsFrame(data, data', itemSize, n - 1);
    }
  }

  // Writing an item behind the last one appends it.
  lemma ItemsAppend(data: seq<byte>, data': seq<byte>, itemSize: nat, n: nat, item: seq<byte>)
    requires Start(n, itemSize) + itemSize <= |data'| && Start(n, itemSize) <= |data|
    requires data'[..Start(n, itemSize)] == data[..Start(n, itemSize)]
    requires data'[Start(n, itemSize)..Start(n, itemSize) + itemSize] == item
    ensures ItemsOf(data', itemSize, n + 1) == ItemsOf(data, itemSize, n) + [item]
  {
    ItemsFrame(data, data', itemSize, n);
  }

  // Writing over the item at index leaves item i, unless it is that one.
  lemma {:induction false} ItemWritten(data: seq<byte>, itemSize: nat, n: nat, index: nat, item: seq<byte>, i: nat)
    requires index < n && i < n && Start(n, itemSize) <= |data| && |item| == itemSize
    requires Start(index, itemSize) + itemSize <= |data|
    ensures ItemsOf(Splice(data, Start(index, itemSize), item), itemSize, n)[i]
            == if i == index then item else ItemsOf(data, itemSize, n)[i]
  {
    hide ItemsOf, Start, Splice;
    var at, from := Start(index, itemSize), Start(i, itemSize);
    ItemsOfAt(data, itemSize, n, i);
    ItemsOfAt(Splice(data, at, item), itemSize, n, i);
    if i < index {
      StartsGrow(i, index, itemSize);
      SliceBefore(data, at, item, from, from + itemSize);
    } else if index < i {
      StartsGrow(index, i, itemSize);
      SliceBehind(data, at, item, from, from + itemSize);
    } else {
      SpliceReads(data, at, item);
    }
  }

  lemma {:induction false} ItemsWrite(data: seq<byte>, itemSize: nat, n: nat, index: nat, item: seq<byte>)
    requires index < n && Start(n, itemSize) <= |data| && |item| == itemSize
    ensures Start(index, itemSize) + itemSize <= |data|
    ensures ItemsOf(Splice(data, Start(index, itemSize), item), itemSize, n)
            == ItemsOf(data, itemSize, n)[index := item]
  {
    hide ItemsOf, Start, Splice;
    StartsGrow(index, n, itemSize);
    forall i | 0 <= i < n
      ensures ItemsOf(Splice(data, Start(index, itemSize), item), itemSize, n)[i]
              == if i == index then item else ItemsOf(data, itemSize, n)[i]
    {
      ItemWritten(data, itemSize, n, index, item, i);
    }
  }

  ghost predicate MovedAt(data: seq<byte>, data': seq<byte>, gap: nat, i: nat)
    requires i + gap < |data| && i < |data'|
  {
    data'[i] == data[i + gap]
  }

  // The bytes from to + gap up to end were moved down by gap; nothing before to changed.
  ghost predicate MovedDown(data: seq<byte>, data': seq<byte>, to: nat, gap: nat, end: nat) {
    && |data'| == |data| && to + gap <= end <= |data|
    && data'[..to] == data[..to]
    && forall i :: to <= i < end - gap ==> MovedAt(data, data', gap, i)
  }

  lemma MovedSlice(data: seq<byte>, data': seq<byte>, gap: nat, a: nat, b: nat)
    requires a <= b && b + gap <= |data| && b <= |data'| && forall i :: a <= i < b ==> MovedAt(data, data', gap, i)
    ensures data'[a..b] == data[a + gap..b + gap]
  {
    forall k | 0 <= k < b - a
      ensures data'[a..b][k] == data[a + gap..b + gap][k]
    {
      assert MovedAt(data, data', gap, a + k);
    }
  }

  // Moving the items behind index down by one item drops the item at index.
  lemma {:induction false} ItemsRemove(data: seq<byte>, data': seq<byte>, itemSize: nat, n: nat, index: nat)
    requires index < n && Start(n, itemSize) <= |data|
    requires MovedDown(data, data', Start(index, itemSize), itemSize, Start(n, itemSize))
    ensures Start(n - 1, itemSize) <= |data|
    ensures ItemsOf(data', itemSize, n - 1)
            == ItemsOf(data, itemSize, n)[..index] + ItemsOf(data, itemSize, n)[index + 1..]
    decreases n
  {
    StartsLow(n - 1, n, itemSize);
    var items := ItemsOf(data, itemSize, n);
    if index == n - 1 {
      ItemsFrame(data, data', itemSize, n - 1);
      LastItemRemoved(data, itemSize, n);
    } else {
      StartsGrow(index, n - 1, itemSize);
      ItemsRemove(data, data', itemSize, n - 1, index);
      var a, b := Start(n - 2, itemSize), Start(n - 1, itemSize);
      StartsLow(index, n - 2, itemSize);
      MovedSlice(data, data', itemSize, a, b);
      var front := ItemsOf(data, itemSize, n - 1);
      assert items[..index] + items[index + 1..] == front[..index] + front[index + 1..] + [data[b..b + itemSize]];
    }
  }

  // Dropping the last item needs no move.
  lemma LastItemRemoved(data: seq<byte>, itemSize: nat, n: nat)
    requires 0 < n && Start(n, itemSize) <= |data|
    ensures Start(n - 1, itemSize) <= |data|
    ensures var items := ItemsOf(data, itemSize, n);
            ItemsOf(data, itemSize, n - 1) == items[..n - 1] + items[n..]
  {
    StartsLow(n - 1, n, itemSize);
  }

  lemma {:induction false} StartsLow(i: nat, n: nat, itemSize: nat)
    requires i <= n
    ensures Start(i, itemSize) <= Start(n, itemSize)
  {
    if i < n {
      StartsGrow(i, n, itemSize);
    }
  }

  // ---- The vector ----

  // What DbVectorGetItem answers: a place in the buffer, or NULL.
  datatype Pointer = NoItem | At(offset: nat)

  // The bytes of a buffer, with size, capacity and item size as the vector's fields have them, stand
  // for the view.
  ghost predicate Stands(data: seq<byte>, itemSize: nat, size: nat, capacity: nat, v: VectorView) {
    && size == |v.items| && capacity == Capacity(v) && ViewInv(v)
    && Start(size, itemSize) <= Start(capacity, itemSize) <= |data|
    && ItemsOf(data, itemSize, size) == v.items
  }

  // Writing an item behind the last one of a buffer that kept the items, and may have been moved.
  lemma {:induction false} AppendStands(data: seq<byte>, data': seq<byte>, itemSize: nat, v: VectorView,
                                        item: seq<byte>)
    requires Stands(data, itemSize, |v.items|, Capacity(v), v) && |item| == itemSize
    requires Start(Capacity(Step(v, Append(item))), itemSize) <= |data'|
    requires Start(|v.items|, itemSize) <= |data'|
    requires data'[..Start(|v.items|, itemSize)] == data[..Start(|v.items|, itemSize)]
    ensures var at, v' := Start(|v.items|, itemSize), Step(v, Append(item));
            at + itemSize <= |data'| && Stands(Splice(data', at, item), itemSize, |v.items| + 1, Capacity(v'), v')
  {
    var n, v' := |v.items|, Step(v, Append(item));
    var at := Start(n, itemSize);
    StepKeepsInv(v, Append(item));
    StartsLow(n + 1, Capacity(v'), itemSize);
    SliceBefore(data', at, item, 0, at);
    SpliceReads(data', at, item);
    ItemsAppend(data, Splice(data', at, item), itemSize, n, item);
  }

  // Moving the items behind index down by one place drops the item at index.
  lemma {:induction false} RemoveStands(data: seq<byte>, data': seq<byte>, itemSize: nat, v: VectorView, index: nat)
    requires Stands(data, itemSize, |v.items|, Capacity(v), v) && index < |v.items| && |data'| == |data|
    requires ItemsOf(data', itemSize, |v.items| - 1) == v.items[..index] + v.items[index + 1..]
    ensures Stands(data', itemSize, |v.items| - 1, Capacity(v), Step(v, Remove(index)))
  {
    StepKeepsInv(v, Remove(index));
    StartsLow(|v.items| - 1, Capacity(v), itemSize);
  }

  class DbVector {
    var size: nat
    var capacity: nat
    const itemSize: nat
    var data: array<byte>
    ghost var view: VectorView

    ghost predicate Valid()
      reads this, data
    {
      Stands(data[..], itemSize, size, capacity, view)
    }

    // DbVectorInit; the buffer holds 25 items although the capacity is 5.
    constructor (itemSize: nat)
      requires 25 * itemSize < TWO_TO_THE_32
      ensures Valid() && view == EMPTY_VECTOR && this.itemSize == itemSize && fresh(data)
      ensures size == 0 && capacity == 5 && data.Length == 25 * itemSize
    {
      this.itemSize := itemSize;
      size := 0;
      capacity := DB_VECTOR_INIT_CAPACITY;
      data := new byte[DB_VECTOR_INIT_CAPACITY * itemSize * DB_VECTOR_INIT_CAPACITY];
      view := EMPTY_VECTOR;
      new;
      StartIsProduct(DB_VECTOR_INIT_CAPACITY, itemSize);
      AppendsCopyFewerThanTwice([]);
    }

    // realloc: keeps the common prefix of the buffer, which may grow or shrink.
    method Realloc(newAllocSize: nat)
      modifies `data
      ensures fresh(data) && data.Length == newAllocSize
      ensures forall n :: 0 <= n <= newAllocSize && n <= old(data.Length) ==> data[..n] == old(data[..n])
    {
      var kept := if newAllocSize <= data.Length then newAllocSize else data.Length;
      var block := new byte[newAllocSize];
      MemCpy(block, 0, data[..kept]);
      data := block;
    }

    // Double the capacity.
    method Extend()
      requires Valid() && size == capacity
      requires capacity * 2 < TWO_TO_THE_32 && capacity * itemSize * 2 < TWO_TO_THE_32
      modifies `data, `capacity
      ensures capacity == 2 * old(capacity) && fresh(data)
      ensures Start(size, itemSize) <= Start(capacity, itemSize) == data.Length
      ensures data[..Start(size, itemSize)] == old(data[..Start(size, itemSize)])
    {
      var newAllocSize := capacity * itemSize * 2;
      assert newAllocSize == Start(capacity * 2, itemSize) by {
        StartIsProduct(capacity * 2, itemSize);
      }
      StartsLow(size, capacity * 2, itemSize);
      Realloc(newAllocSize);
      capacity := capacity * 2;
    }

    method DbVectorAppendItem(item: seq<byte>)
      requires Valid() && Callable(view, Append(item), itemSize)
      modifies this, data
      ensures Valid() && (data == old(data) || fresh(data))
      ensures view == Step(old(view), Append(item))
      ensures size == old(size) + 1 && view.items == old(view.items) + [item]
      ensures old(size) < old(capacity) ==> capacity == old(capacity) && data == old(data)
      ensures old(size) == old(capacity) ==>
                capacity == 2 * old(capacity) && data.Length == Start(2 * old(capacity), itemSize)
    {
      ghost var before := data[..];
      if size >= capacity {
        Extend();
      }
      assert capacity == Capacity(Step(view, Append(item))) by {
        DoublesWhenFull(view, item);
      }
      AppendStands(before, data[..], itemSize, view, item);
      var at := size * itemSize;
      assert at == Start(size, itemSize) by {
        StartIsProduct(size, itemSize);
      }
      MemCpy(data, at, item);
      size := size + 1;
      view := Step(view, Append(item));
    }

    // A pointer into the buffer, as an offset, or none when the index is out of range.
    function DbVectorGetItem(index: nat): (p: Pointer)
      reads this, data
      requires Valid()
      ensures p.At? <==> index < size
      ensures p.At? ==> p.offset + itemSize <= data.Length
                        && data[p.offset..p.offset + itemSize] == view.items[index]
                        && p.offset == index * itemSize
    {
      if index >= size then NoItem
      else
        ItemsOfAt(data[..], itemSize, size, index);
        StartIsProduct(index, itemSize);
        assert data[index * itemSize..index * itemSize + itemSize]
            == data[..][index * itemSize..index * itemSize + itemSize];
        At(index * itemSize)
    }

    // A caller writes the item through the pointer it got.
    method WriteItem(index: nat, item: seq<byte>)
      requires Valid() && Callable(view, Write(index, item), itemSize)
      modifies data, `view
      ensures Valid()
      ensures view == Step(old(view), Write(index, item)) && view.items == old(view.items)[index := item]
    {
      ItemsWrite(data[..], itemSize, size, index, item);
      StepKeepsInv(view, Write(index, item));
      StartIsProduct(index, itemSize);
      var p := DbVectorGetItem(index);
      MemCpy(data, p.offset, item);
      view := Step(view, Write(index, item));
    }

    method DbVectorRemoveItem(index: nat)
      requires Valid()
      modifies this, data
      ensures Valid() && data == old(data)
      ensures view == Step(old(view), Remove(index)) && capacity == old(capacity)
      ensures size == |view.items|
      ensures view.items == if index < old(size) then old(view.items[..index] + view.items[index + 1..])
                            else old(view.items)
    {
      if index >= size {
        return;
      }
      ghost var before := data[..];
      if index == size - 1 {
        LastItemRemoved(before, itemSize, size);
      } else {
        MoveDown(index);
      }
      RemoveStands(before, data[..], itemSize, view, index);
      size := size - 1;
      view := Step(view, Remove(index));
    }

    // The place of the item behind index is end of the item at index; all are products in the C code.
    method MoveDown(index: nat)
      requires index < size && Start(size, itemSize) <= data.Length
      modifies data
      ensures Start(size - 1, itemSize) <= data.Length
      ensures ItemsOf(data[..], itemSize, size - 1)
              == old(ItemsOf(data[..], itemSize, size)[..index] + ItemsOf(data[..], itemSize, size)[index + 1..])
    {
      StartIsProduct(index, itemSize);
      StartIsProduct(index + 1, itemSize);
      StartIsProduct(size, itemSize);
      MoveBytes(index, index * itemSize, (index + 1) * itemSize, size * itemSize);
    }

    // The memmove of a removal.
    method MoveBytes(ghost index: nat, to: nat, from: nat, end: nat)
      requires index < size && Start(size, itemSize) <= data.Length
      requires to == Start(index, itemSize) && from == Start(index + 1, itemSize) && end == Start(size, itemSize)
      modifies data
      ensures Start(size - 1, itemSize) <= data.Length
      ensures ItemsOf(data[..], itemSize, size - 1)
              == old(ItemsOf(data[..], itemSize, size)[..index] + ItemsOf(data[..], itemSize, size)[index + 1..])
    {
      ghost var before := data[..];
      StartsGrow(index, size, itemSize);
      MemMoveDown(to, from - to, end);
      ItemsRemove(before, data[..], itemSize, size, index);
    }

    method MemMoveDown(to: nat, gap: nat, end: nat)
      requires to + gap <= end <= data.Length
      modifies data
      ensures MovedDown(old(data[..]), data[..], to, gap, end)
    {
      forall i | to <= i < end - gap {
        data[i] := data[i + gap];
      }
      assert data[..][..to] == old(data[..])[..to];
    }

    method DbVectorClear()
      requires Valid()
      modifies `size, `view
      ensures Valid()
      ensures view == Step(old(view), Clear) && size == 0 && view.items == []
    {
      StepKeepsInv(view, Clear);
      StartsLow(0, capacity, itemSize);
      size := 0;
      view := Step(view, Clear);
    }
  }
}
