/** The catalogue's lists as the vectors the server keeps them in.  An item holds pointers, whose bytes the
    model does not know: what bytes stand for what item is an arbitrary relation. */
module CatalogueVectors {
  import opened Arith
  import opened Bytes
  import opened VectorUtil
  import Schema
  import C = Catalogue

  // ---- A list and its vector ----

  // What one request does to a list.
  datatype Change<T> = Unchanged | Added(x: T) | Removed(at: nat) | Replaced(at: nat, y: T)

  function Changed<T>(list: seq<T>, c: Change<T>): (list': seq<T>)
    requires ChangeFits(list, c)
  {
    match c
    case Unchanged => list
    case Added(x) => list + [x]
    case Removed(i) => list[..i] + list[i + 1..]
    case Replaced(i, y) => list[i := y]
  }

  predicate ChangeFits<T>(list: seq<T>, c: Change<T>) {
    (c.Removed? ==> c.at < |list|) && (c.Replaced? ==> c.at < |list|)
  }

  // The call it makes on the vector, if any, storing these bytes.
  function Calls<T>(c: Change<T>, bytes: seq<byte>): (ops: seq<VectorOp>) {
    match c
    case Unchanged => []
    case Added(_) => [Append(bytes)]
    case Removed(i) => [Remove(i)]
    case Replaced(i, _) => [Write(i, bytes)]
  }

  // The bytes stored, if any, have an item's length and stand for the item.
  predicate BytesMean<T>(c: Change<T>, bytes: seq<byte>, itemSize: nat, means: (seq<byte>, T) -> bool) {
    && (c.Added? ==> |bytes| == itemSize && means(bytes, c.x))
    && (c.Replaced? ==> |bytes| == itemSize && means(bytes, c.y))
  }

  // The vector stands for the list, item for item.
  ghost predicate VectorMeans<T>(w: VectorView, list: seq<T>, means: (seq<byte>, T) -> bool) {
    ViewInv(w) && |w.items| == |list| && forall i :: 0 <= i < |list| ==> means(w.items[i], list[i])
  }

  function StepAll(w: VectorView, ops: seq<VectorOp>): (w': VectorView)
    requires |ops| <= 1
  {
    if ops == [] then w else Step(w, ops[0])
  }

  lemma ChangeMeans<T>(w: VectorView, list: seq<T>, c: Change<T>, bytes: seq<byte>, itemSize: nat,
                       means: (seq<byte>, T) -> bool)
    requires VectorMeans(w, list, means) && ChangeFits(list, c) && BytesMean(c, bytes, itemSize, means)
    ensures VectorMeans(StepAll(w, Calls(c, bytes)), Changed(list, c), means)
  {
    hide ViewInv, Capacity;
    if !c.Unchanged? {
      StepKeepsInv(w, Calls(c, bytes)[0]);
    }
    var items, list' := StepAll(w, Calls(c, bytes)).items, Changed(list, c);
    forall i | 0 <= i < |list'|
      ensures means(items[i], list'[i])
    {
      if c.Removed? && c.at <= i {
        assert means(w.items[i + 1], list[i + 1]);
      } else if i < |list| {
        assert means(w.items[i], list[i]);
      }
    }
  }

  // n appends to a vector of such items keep its buffer's size within 32 bits.
  predicate Within32(appends: nat, itemSize: nat) {
    1 <= itemSize && 2 * (appends * itemSize) < TWO_TO_THE_32
  }

  lemma FewAppendsCallable(w: VectorView, op: VectorOp, itemSize: nat)
    requires ViewInv(w) && Within32(w.appends, itemSize)
    requires match op
             case Append(item) => |item| == itemSize
             case Write(i, item) => i < |w.items| && |item| == itemSize
             case _ => true
    ensures Callable(w, op, itemSize)
  {
    if |w.items| == Capacity(w) {
      MulMono(Capacity(w), w.appends, itemSize);
      MulMono(1, itemSize, w.appends);
    }
  }

  // ---- Any number of changes ----

  function ListAfter<T>(list: seq<T>, changes: seq<Change<T>>): (list': seq<T>)
    requires ChangesFit(list, changes)
    decreases |changes|
  {
    if changes == [] then list else ListAfter(Changed(list, changes[0]), changes[1..])
  }

  predicate ChangesFit<T>(list: seq<T>, changes: seq<Change<T>>)
    decreases |changes|
  {
    changes == []
    || (ChangeFits(list, changes[0]) && ChangesFit(Changed(list, changes[0]), changes[1..]))
  }

  ghost predicate AllBytesMean<T>(changes: seq<Change<T>>, bytes: seq<seq<byte>>, itemSize: nat,
                                  means: (seq<byte>, T) -> bool) {
    |bytes| == |changes| && forall k :: 0 <= k < |changes| ==> BytesMean(changes[k], bytes[k], itemSize, means)
  }

  function VectorAfter<T>(w: VectorView, changes: seq<Change<T>>, bytes: seq<seq<byte>>): (w': VectorView)
    requires |bytes| == |changes|
    decreases |changes|
  {
    if changes == [] then w else VectorAfter(StepAll(w, Calls(changes[0], bytes[0])), changes[1..], bytes[1..])
  }

  // Every call meets what the vector asks of its caller.
  ghost predicate AllCallable<T>(w: VectorView, changes: seq<Change<T>>, bytes: seq<seq<byte>>, itemSize: nat)
    requires |bytes| == |changes|
    decreases |changes|
  {
    changes == []
    || (&& (Calls(changes[0], bytes[0]) != [] ==> Callable(w, Calls(changes[0], bytes[0])[0], itemSize))
        && AllCallable(StepAll(w, Calls(changes[0], bytes[0])), changes[1..], bytes[1..], itemSize))
  }

  // Over any changes every call on the vector is permitted, and the vector stands for the list again.
  lemma {:induction false} ChangesMean<T>(w: VectorView, list: seq<T>, changes: seq<Change<T>>,
                                          bytes: seq<seq<byte>>, itemSize: nat, means: (seq<byte>, T) -> bool)
    requires VectorMeans(w, list, means) && ChangesFit(list, changes)
    requires AllBytesMean(changes, bytes, itemSize, means) && Within32(w.appends + |changes|, itemSize)
    ensures AllCallable(w, changes, bytes, itemSize)
    ensures VectorMeans(VectorAfter(w, changes, bytes), ListAfter(list, changes), means)
    decreases |changes|
  {
    if changes != [] {
      var c, b := changes[0], bytes[0];
      var w' := StepAll(w, Calls(c, b));
      assert BytesMean(c, b, itemSize, means);
      ChangeMeans(w, list, c, b, itemSize, means);
      MulMono(w.appends, w.appends + |changes|, itemSize);
      MulMono(w'.appends + |changes[1..]|, w.appends + |changes|, itemSize);
      if Calls(c, b) != [] {
        FewAppendsCallable(w, Calls(c, b)[0], itemSize);
      }
      ChangesMean(w', Changed(list, c), changes[1..], bytes[1..], itemSize, means);
    }
  }

  // ---- The vector of databases ----

  // What the struct of a database says, apart from pointers.
  datatype DbItem = DbItem(dbName: CString, dbId: uint32, tableCnt: nat)

  function DbItemOf(db: C.SrDbCtrl): (item: DbItem) {
    DbItem(db.dbName, db.dbId, |db.labelCtrlList|)
  }

  function DbItems(dbs: seq<C.SrDbCtrl>): (items: seq<DbItem>)
    ensures |items| == |dbs| && forall i :: 0 <= i < |dbs| ==> items[i] == DbItemOf(dbs[i])
  {
    seq(|dbs|, i requires 0 <= i < |dbs| => DbItemOf(dbs[i]))
  }

  // The table name is free in the database found at i.
  predicate NewTable(v: C.CatView, i: nat, labelName: CString) {
    && v.managed && i < |v.dbs|
    && C.LabelNamed(v.dbs[i].labelCtrlList, labelName) == |v.dbs[i].labelCtrlList|
  }

  // Create-db appends the struct of an empty database, drop-db removes one, and create-table stores the
  // new size in the struct of its database.  An insert does not touch the vector.
  function DbChange(v: C.CatView, r: C.Request): (c: Change<DbItem>) {
    match r
    case CreateDb(name) =>
      if C.NameStatus(name) == C.GMERR_OK && C.DbNamed(v.dbs, name) == |v.dbs|
      then Added(DbItem(name, C.DbIdFrom(v.genNum), 0)) else Unchanged
    case DropDb(name) =>
      if C.NameStatus(name) == C.GMERR_OK && C.DbNamed(v.dbs, name) < |v.dbs|
      then Removed(C.DbNamed(v.dbs, name)) else Unchanged
    case CreateTable(dbId, labelName, _) =>
      var i := C.DbWithId(v.dbs, dbId);
      if NewTable(v, i, labelName)
      then Replaced(i, DbItem(v.dbs[i].dbName, v.dbs[i].dbId, |v.dbs[i].labelCtrlList| + 1)) else Unchanged
    case InsertRow(_, _, _) => Unchanged
  }

  lemma {:induction false} DbChangeIs(v: C.CatView, r: C.Request)
    ensures ChangeFits(DbItems(v.dbs), DbChange(v, r))
    ensures DbItems(C.Step(v, r).0.dbs) == Changed(DbItems(v.dbs), DbChange(v, r))
  {
    hide C.NameStatus, C.DbNamed, C.DbWithId, C.LabelWithId, C.DbIdFrom, C.TableIdFrom, C.RowRoom, C.WithRow;
    hide C.LabelNamed;
    match r {
      case CreateDb(_) =>
      case DropDb(_) =>
      case CreateTable(dbId, _, _) =>
      case InsertRow(inDb, _, _) =>
    }
  }

  function DbChanges(v: C.CatView, requests: seq<C.Request>): (changes: seq<Change<DbItem>>)
    ensures |changes| == |requests|
    decreases |requests|
  {
    if requests == [] then []
    else [DbChange(v, requests[0])] + DbChanges(C.Step(v, requests[0]).0, requests[1..])
  }

  lemma {:induction false} DbChangesAre(v: C.CatView, requests: seq<C.Request>)
    ensures ChangesFit(DbItems(v.dbs), DbChanges(v, requests))
    ensures ListAfter(DbItems(v.dbs), DbChanges(v, requests)) == DbItems(C.Run(v, requests).dbs)
    decreases |requests|
  {
    hide C.Step, DbChange;
    if requests != [] {
      DbChangeIs(v, requests[0]);
      DbChangesAre(C.Step(v, requests[0]).0, requests[1..]);
    }
  }

  // Over every run of requests whose stored bytes stand for what the requests put in the structs, the
  // vector of databases stands, item for item, for the list of databases, and every call on it is one its
  // contract permits, as long as the number of requests keeps the buffer's size within 32 bits.
  lemma {:induction false} DatabasesAreVector(v: C.CatView, requests: seq<C.Request>, w: VectorView,
                                              bytes: seq<seq<byte>>, itemSize: nat, means: (seq<byte>, DbItem) -> bool)
    requires VectorMeans(w, DbItems(v.dbs), means) && Within32(w.appends + |requests|, itemSize)
    requires AllBytesMean(DbChanges(v, requests), bytes, itemSize, means)
    ensures AllCallable(w, DbChanges(v, requests), bytes, itemSize)
    ensures VectorMeans(VectorAfter(w, DbChanges(v, requests), bytes), DbItems(C.Run(v, requests).dbs), means)
  {
    hide VectorMeans, ChangesFit, ListAfter, AllBytesMean, AllCallable, DbChanges, Within32;
    DbChangesAre(v, requests);
    ChangesMean(w, DbItems(v.dbs), DbChanges(v, requests), bytes, itemSize, means);
  }

  // ---- The vector of tables of a database ----

  // What the struct of a table says, apart from pointers.
  datatype TableItem = TableItem(dbId: uint32, labelName: CString, labelId: uint32, fields: seq<Schema.Field>,
                                 rowCnt: nat)

  function TableItemOf(dbId: uint32, table: C.SrLabel): (item: TableItem) {
    TableItem(dbId, table.labelName, table.labelId, table.fields, |table.rows|)
  }

  function TableItems(dbId: uint32, labels: seq<C.SrLabel>): (items: seq<TableItem>)
    ensures |items| == |labels| && forall i :: 0 <= i < |labels| ==> items[i] == TableItemOf(dbId, labels[i])
  {
    seq(|labels|, i requires 0 <= i < |labels| => TableItemOf(dbId, labels[i]))
  }

  predicate Present(v: C.CatView, dbId: uint32) {
    v.managed && C.DbWithId(v.dbs, dbId) < |v.dbs|
  }

  // Create-table appends the struct of an empty table to the vector of its database; an insert that finds
  // room counts its row in the struct of its table.  Other requests do not touch the vector.
  function TableChange(v: C.CatView, r: C.Request, dbId: uint32): (c: Change<TableItem>)
    requires Present(v, dbId)
  {
    match r
    case CreateTable(inDb, labelName, fields) =>
      if inDb == dbId && NewTable(v, C.DbWithId(v.dbs, dbId), labelName)
      then Added(TableItem(dbId, labelName, C.TableIdFrom(v.genNum), fields, 0)) else Unchanged
    case InsertRow(inDb, labelId, _) =>
      if inDb == dbId && C.TakesRow(v, dbId, labelId) then
        var table := C.TableAt(v, dbId, labelId);
        Replaced(C.LabelWithId(C.LabelsOf(v, dbId), labelId),
                 TableItem(dbId, table.labelName, table.labelId, table.fields, |table.rows| + 1))
      else Unchanged
    case _ => Unchanged
  }

  // The tables of a database that a request leaves alone.
  lemma {:induction false} DropDbKeepsTables(v: C.CatView, name: CString, dbId: uint32)
    requires C.IdsInv(v) && Present(v, dbId) && Present(C.DropDbStep(v, name).0, dbId)
    ensures C.LabelsOf(C.DropDbStep(v, name).0, dbId) == C.LabelsOf(v, dbId)
  {
    hide C.LabelIdsInv, C.LabelIdsApart, C.DbNamed, C.NameStatus;
    var i, v' := C.DbNamed(v.dbs, name), C.DropDbStep(v, name).0;
    if C.NameStatus(name) == C.GMERR_OK && i < |v.dbs| {
      var j := C.DbWithId(v'.dbs, dbId);
      assert v'.dbs[j] == v.dbs[if j < i then j else j + 1];
      C.SameDbById(v, dbId, if j < i then j else j + 1);
    }
  }

  // The tables of the database at i were replaced.
  lemma {:induction false} LabelsReplaced(v: C.CatView, i: nat, labels: seq<C.SrLabel>, dbId: uint32)
    requires i < |v.dbs| && C.DbWithId(v.dbs, dbId) < |v.dbs|
    ensures C.DbWithId(C.WithLabel(v, i, labels).dbs, dbId) == C.DbWithId(v.dbs, dbId)
    ensures C.LabelsOf(C.WithLabel(v, i, labels), dbId) == if i == C.DbWithId(v.dbs, dbId) then labels
                                                           else C.LabelsOf(v, dbId)
  {
    C.DbWithIdReplaced(v, i, labels, dbId);
  }

  lemma {:induction false} SameDb(v: C.CatView, a: uint32, b: uint32)
    requires C.DbWithId(v.dbs, a) == C.DbWithId(v.dbs, b) < |v.dbs|
    ensures a == b
  {
  }

  lemma {:induction false} TableChangeIs(v: C.CatView, r: C.Request, dbId: uint32)
    requires C.IdsInv(v) && Present(v, dbId) && Present(C.Step(v, r).0, dbId)
    ensures ChangeFits(TableItems(dbId, C.LabelsOf(v, dbId)), TableChange(v, r, dbId))
    ensures TableItems(dbId, C.LabelsOf(C.Step(v, r).0, dbId))
            == Changed(TableItems(dbId, C.LabelsOf(v, dbId)), TableChange(v, r, dbId))
  {
    match r {
      case CreateDb(name) =>
        C.DbWithIdExtended(v.dbs, C.SrDbCtrl(name, C.DbIdFrom(v.genNum), []), dbId);
      case DropDb(name) =>
        DropDbKeepsTables(v, name, dbId);
      case CreateTable(inDb, labelName, fields) =>
        CreateTableChange(v, inDb, labelName, fields, dbId);
      case InsertRow(inDb, labelId, buf) =>
        InsertRowChange(v, inDb, labelId, buf, dbId);
    }
  }

  lemma {:induction false} CreateTableChange(v: C.CatView, inDb: uint32, labelName: CString,
                                             fields: seq<Schema.Field>, dbId: uint32)
    requires Present(v, dbId)
    ensures var v' := C.CreateTableStep(v, inDb, labelName, fields).0;
            && Present(v', dbId)
            && TableItems(dbId, C.LabelsOf(v', dbId))
               == Changed(TableItems(dbId, C.LabelsOf(v, dbId)),
                          TableChange(v, C.CreateTable(inDb, labelName, fields), dbId))
  {
    var i := C.DbWithId(v.dbs, inDb);
    if NewTable(v, i, labelName) {
      var labels := v.dbs[i].labelCtrlList + [C.SrLabel(C.TableIdFrom(v.genNum), labelName, fields, [])];
      LabelsReplaced(v, i, labels, dbId);
      if i == C.DbWithId(v.dbs, dbId) {
        SameDb(v, inDb, dbId);
      }
    }
  }

  lemma {:induction false} InsertRowChange(v: C.CatView, inDb: uint32, labelId: uint32, buf: seq<byte>, dbId: uint32)
    requires Present(v, dbId)
    ensures var v' := C.InsertRowStep(v, inDb, labelId, buf).0;
            && Present(v', dbId)
            && ChangeFits(TableItems(dbId, C.LabelsOf(v, dbId)), TableChange(v, C.InsertRow(inDb, labelId, buf), dbId))
            && TableItems(dbId, C.LabelsOf(v', dbId))
               == Changed(TableItems(dbId, C.LabelsOf(v, dbId)),
                          TableChange(v, C.InsertRow(inDb, labelId, buf), dbId))
  {
    hide C.RowRoom, C.DbWithId, C.LabelWithId, C.WithRow;
    if C.TakesRow(v, inDb, labelId) {
      var i := C.DbWithId(v.dbs, inDb);
      var labels := v.dbs[i].labelCtrlList;
      var k := C.LabelWithId(labels, labelId);
      var labels' := labels[k := C.WithRow(labels[k], buf)];
      LabelsReplaced(v, i, labels', dbId);
      if i == C.DbWithId(v.dbs, dbId) {
        SameDb(v, inDb, dbId);
        RowCounted(dbId, labels, k, buf);
      }
    }
  }

  lemma RowCounted(dbId: uint32, labels: seq<C.SrLabel>, k: nat, buf: seq<byte>)
    requires k < |labels|
    ensures TableItems(dbId, labels[k := C.WithRow(labels[k], buf)])
            == TableItems(dbId, labels)[k := TableItemOf(dbId, labels[k]).(rowCnt := |labels[k].rows| + 1)]
  {
  }

  function TableChanges(v: C.CatView, requests: seq<C.Request>, dbId: uint32): (changes: seq<Change<TableItem>>)
    ensures |changes| == |requests|
    decreases |requests|
  {
    if requests == [] then []
    else
      [if Present(v, dbId) then TableChange(v, requests[0], dbId) else Unchanged]
      + TableChanges(C.Step(v, requests[0]).0, requests[1..], dbId)
  }

  lemma {:induction false} TableChangesAre(v: C.CatView, requests: seq<C.Request>, dbId: uint32)
    requires C.IdsInv(v) && Present(v, dbId) && Present(C.Run(v, requests), dbId)
    requires C.Run(v, requests).genNum <= TWO_TO_THE_32
    ensures ChangesFit(TableItems(dbId, C.LabelsOf(v, dbId)), TableChanges(v, requests, dbId))
    ensures ListAfter(TableItems(dbId, C.LabelsOf(v, dbId)), TableChanges(v, requests, dbId))
            == TableItems(dbId, C.LabelsOf(C.Run(v, requests), dbId))
    decreases |requests|
  {
    if requests != [] {
      var r, rest := requests[0], requests[1..];
      var v' := C.Step(v, r).0;
      assert v'.managed;
      C.StillThere(v, requests, dbId);
      C.CounterGrows(v', rest);
      C.StepKeepsIdsWithin(v, r);
      hide C.Step, TableChange, C.IdsInv, C.LabelsOf, C.DbWithId;
      TableChangeIs(v, r, dbId);
      TableChangesAre(v', rest, dbId);
    }
  }

  // The same for the vector of tables of any database over every run that keeps the database.
  lemma {:induction false} TablesAreVector(v: C.CatView, requests: seq<C.Request>, dbId: uint32, w: VectorView,
                                           bytes: seq<seq<byte>>, itemSize: nat, means: (seq<byte>, TableItem) -> bool)
    requires C.IdsInv(v) && Present(v, dbId) && Present(C.Run(v, requests), dbId)
    requires C.Run(v, requests).genNum <= TWO_TO_THE_32
    requires VectorMeans(w, TableItems(dbId, C.LabelsOf(v, dbId)), means)
    requires Within32(w.appends + |requests|, itemSize)
    requires AllBytesMean(TableChanges(v, requests, dbId), bytes, itemSize, means)
    ensures AllCallable(w, TableChanges(v, requests, dbId), bytes, itemSize)
    ensures VectorMeans(VectorAfter(w, TableChanges(v, requests, dbId), bytes),
                        TableItems(dbId, C.LabelsOf(C.Run(v, requests), dbId)), means)
  {
    hide VectorMeans, ChangesFit, ListAfter, AllBytesMean, AllCallable, TableChanges, Within32;
    hide C.IdsInv, C.LabelsOf, C.DbWithId, C.Run;
    TableChangesAre(v, requests, dbId);
    ChangesMean(w, TableItems(dbId, C.LabelsOf(v, dbId)), TableChanges(v, requests, dbId), bytes, itemSize, means);
  }
}
