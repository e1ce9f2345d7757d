/** The catalogue of databases and their tables, as a state machine on values: what each request
    does to it, and what holds over every run of requests. */
module Catalogue {
  import opened Bytes
  import opened Schema
  import opened SeHeap

  const SR_DB_NAME_MAX_LENGTH: nat := 128
  const FIRST_GEN_NUM: nat := 100100
  const TABLE_ID_DIFF: nat := 400000

  const GMERR_OK: nat := 0
  const GMERR_SRDB_NAME_NULL: nat := 4001001
  const GMERR_SRDB_NAME_TOO_LONG: nat := 4001002
  const GMERR_SRDB_NAME_EXISTED: nat := 4001004
  const GMERR_SRDB_NAME_NOT_EXISTED: nat := 4001005
  const GMERR_SRDB_ID_NOT_EXISTED: nat := 4001007
  const GMERR_SRLABEL_NAME_EXISTED: nat := 4001506
  const GMERR_SRLABEL_ID_NOT_EXISTED: nat := 4001507

  // A table; its heap is given as the list of rows it refines.
  datatype SrLabel = SrLabel(labelId: uint32, labelName: CString, fields: seq<Field>, rows: seq<seq<byte>>)

  datatype SrDbCtrl = SrDbCtrl(dbName: CString, dbId: uint32, labelCtrlList: seq<SrLabel>)

  // Whether the manager exists yet, the databases in list order, and the id counter, counted on
  // past 32 bits; the C counter is its low 32 bits.
  datatype CatView = CatView(managed: bool, dbs: seq<SrDbCtrl>, genNum: nat)

  const INITIAL_CATALOGUE := CatView(false, [], FIRST_GEN_NUM)

  // How a request ends: with a value, with an error status, or in a failed assertion of the server.
  datatype Outcome = Done(id: uint32) | Rejected(status: nat) | Aborted

  datatype Request =
    | CreateDb(dbName: CString)
    | DropDb(dropName: CString)
    | CreateTable(dbId: uint32, labelName: CString, fields: seq<Field>)
    | InsertRow(inDb: uint32, labelId: uint32, buf: seq<byte>)

  // ---- First-match searches ----

  function DbNamed(dbs: seq<SrDbCtrl>, name: CString): (i: nat)
    ensures i <= |dbs| && (i < |dbs| ==> dbs[i].dbName == name)
    ensures forall j :: 0 <= j < i ==> dbs[j].dbName != name
  {
    if dbs == [] || dbs[0].dbName == name then 0 else 1 + DbNamed(dbs[1..], name)
  }

  function DbWithId(dbs: seq<SrDbCtrl>, id: uint32): (i: nat)
    ensures i <= |dbs| && (i < |dbs| ==> dbs[i].dbId == id)
    ensures forall j :: 0 <= j < i ==> dbs[j].dbId != id
  {
    if dbs == [] || dbs[0].dbId == id then 0 else 1 + DbWithId(dbs[1..], id)
  }

  function LabelNamed(labels: seq<SrLabel>, name: CString): (i: nat)
    ensures i <= |labels| && (i < |labels| ==> labels[i].labelName == name)
    ensures forall j :: 0 <= j < i ==> labels[j].labelName != name
  {
    if labels == [] || labels[0].labelName == name then 0 else 1 + LabelNamed(labels[1..], name)
  }

  function LabelWithId(labels: seq<SrLabel>, id: uint32): (i: nat)
    ensures i <= |labels| && (i < |labels| ==> labels[i].labelId == id)
    ensures forall j :: 0 <= j < i ==> labels[j].labelId != id
  {
    if labels == [] || labels[0].labelId == id then 0 else 1 + LabelWithId(labels[1..], id)
  }

  // ---- Requests ----

  // The argument check of create-db and drop-db.
  function NameStatus(name: CString): (status: nat) {
    if name == [] then GMERR_SRDB_NAME_NULL
    else if |name| > SR_DB_NAME_MAX_LENGTH then GMERR_SRDB_NAME_TOO_LONG
    else GMERR_OK
  }

  function DbIdFrom(genNum: nat): (id: uint32) {
    genNum % TWO_TO_THE_32
  }

  function TableIdFrom(genNum: nat): (id: uint32) {
    (TABLE_ID_DIFF + genNum % TWO_TO_THE_32) % TWO_TO_THE_32
  }

  function RowSize(table: SrLabel): (n: uint32) {
    Total(table.fields) % TWO_TO_THE_32
  }

  // Can the table's page take one more row?
  predicate RowRoom(table: SrLabel) {
    |table.rows| * RowSize(table) + RowSize(table) <= SE_HEAP_PAGE_SIZE
  }

  // What the heap copies of the buffer it is given; callers pass at least a row.
  function RowOf(table: SrLabel, buf: seq<byte>): (row: seq<byte>)
    ensures RowSize(table) <= |buf| ==> row == buf[..RowSize(table)]
  {
    if RowSize(table) <= |buf| then buf[..RowSize(table)] else buf
  }

  function WithRow(table: SrLabel, buf: seq<byte>): (t: SrLabel) {
    table.(rows := table.rows + [RowOf(table, buf)])
  }

  function WithLabel(v: CatView, i: nat, labels: seq<SrLabel>): (v': CatView)
    requires i < |v.dbs|
  {
    v.(dbs := v.dbs[i := v.dbs[i].(labelCtrlList := labels)])
  }

  function CreateDbStep(v: CatView, name: CString): (r: (CatView, Outcome)) {
    if NameStatus(name) != GMERR_OK then (v, Rejected(NameStatus(name)))
    else if DbNamed(v.dbs, name) < |v.dbs| then (v.(managed := true), Rejected(GMERR_SRDB_NAME_EXISTED))
    else
      var id := DbIdFrom(v.genNum);
      (CatView(true, v.dbs + [SrDbCtrl(name, id, [])], v.genNum + 1), Done(id))
  }

  function DropDbStep(v: CatView, name: CString): (r: (CatView, Outcome)) {
    if NameStatus(name) != GMERR_OK then (v, Rejected(NameStatus(name)))
    else
      var i := DbNamed(v.dbs, name);
      if i == |v.dbs| then (v.(managed := true), Rejected(GMERR_SRDB_NAME_NOT_EXISTED))
      else (CatView(true, v.dbs[..i] + v.dbs[i + 1..], v.genNum), Done(0))
  }

  // Create-table, once the database is found at position i.
  function AddTable(v: CatView, i: nat, labelName: CString, fields: seq<Field>): (r: (CatView, Outcome))
    requires i < |v.dbs|
  {
    var labels := v.dbs[i].labelCtrlList;
    if LabelNamed(labels, labelName) < |labels| then (v, Rejected(GMERR_SRLABEL_NAME_EXISTED))
    else
      var id := TableIdFrom(v.genNum);
      (WithLabel(v, i, labels + [SrLabel(id, labelName, fields, [])]).(genNum := v.genNum + 1), Done(id))
  }

  function CreateTableStep(v: CatView, dbId: uint32, labelName: CString, fields: seq<Field>): (r: (CatView, Outcome)) {
    var i := DbWithId(v.dbs, dbId);
    if !v.managed then (v, Aborted)
    else if i == |v.dbs| then (v, Rejected(GMERR_SRDB_ID_NOT_EXISTED))
    else AddTable(v, i, labelName, fields)
  }

  // Insert, once the database is found at position i.
  function AddRow(v: CatView, i: nat, labelId: uint32, row: seq<byte>): (r: (CatView, Outcome))
    requires i < |v.dbs|
  {
    var labels := v.dbs[i].labelCtrlList;
    var k := LabelWithId(labels, labelId);
    if k == |labels| then (v, Rejected(GMERR_SRLABEL_ID_NOT_EXISTED))
    else if !RowRoom(labels[k]) then (v, Aborted)
    else (WithLabel(v, i, labels[k := WithRow(labels[k], row)]), Done(0))
  }

  function InsertRowStep(v: CatView, dbId: uint32, labelId: uint32, row: seq<byte>): (r: (CatView, Outcome)) {
    var i := DbWithId(v.dbs, dbId);
    if !v.managed then (v, Aborted)
    else if i == |v.dbs| then (v, Rejected(GMERR_SRDB_ID_NOT_EXISTED))
    else AddRow(v, i, labelId, row)
  }

  // The two ids name a table.
  predicate NamesTable(v: CatView, dbId: uint32, labelId: uint32) {
    && v.managed && DbWithId(v.dbs, dbId) < |v.dbs|
    && LabelWithId(LabelsOf(v, dbId), labelId) < |LabelsOf(v, dbId)|
  }

  // The tables of the database with this id.
  function LabelsOf(v: CatView, dbId: uint32): (labels: seq<SrLabel>)
    requires DbWithId(v.dbs, dbId) < |v.dbs|
  {
    v.dbs[DbWithId(v.dbs, dbId)].labelCtrlList
  }

  function TableAt(v: CatView, dbId: uint32, labelId: uint32): (table: SrLabel)
    requires NamesTable(v, dbId, labelId)
  {
    LabelsOf(v, dbId)[LabelWithId(LabelsOf(v, dbId), labelId)]
  }

  // They name a table whose page has room for a row.
  predicate TakesRow(v: CatView, dbId: uint32, labelId: uint32) {
    NamesTable(v, dbId, labelId) && RowRoom(TableAt(v, dbId, labelId))
  }

  // Query-table changes nothing; it answers the fields of the table.
  function QueryAnswer(v: CatView, dbId: uint32, labelId: uint32): (r: (Outcome, seq<Field>)) {
    var i := DbWithId(v.dbs, dbId);
    if !v.managed then (Aborted, [])
    else if i == |v.dbs| then (Rejected(GMERR_SRDB_ID_NOT_EXISTED), [])
    else
      var labels := v.dbs[i].labelCtrlList;
      var k := LabelWithId(labels, labelId);
      if k == |labels| then (Rejected(GMERR_SRLABEL_ID_NOT_EXISTED), []) else (Done(0), labels[k].fields)
  }

  function Step(v: CatView, r: Request): (s: (CatView, Outcome)) {
    match r
    case CreateDb(name) => CreateDbStep(v, name)
    case DropDb(name) => DropDbStep(v, name)
    case CreateTable(dbId, labelName, fields) => CreateTableStep(v, dbId, labelName, fields)
    case InsertRow(dbId, labelId, row) => InsertRowStep(v, dbId, labelId, row)
  }

  function Run(v: CatView, requests: seq<Request>): (v': CatView)
    decreases |requests|
  {
    if requests == [] then v else Run(Step(v, requests[0]).0, requests[1..])
  }

  // ---- Names ----

  ghost predicate LabelNamesUnique(labels: seq<SrLabel>) {
    forall i, j :: 0 <= i < j < |labels| ==> labels[i].labelName != labels[j].labelName
  }

  ghost predicate DbNamesUnique(dbs: seq<SrDbCtrl>) {
    forall i, j :: 0 <= i < j < |dbs| ==> dbs[i].dbName != dbs[j].dbName
  }

  // Database names are unique, table names are unique within each database, and there are
  // databases only once the manager exists.
  ghost predicate NamesInv(v: CatView) {
    && DbNamesUnique(v.dbs)
    && (forall i :: 0 <= i < |v.dbs| ==> LabelNamesUnique(v.dbs[i].labelCtrlList))
    && (!v.managed ==> v.dbs == [])
  }

  lemma WithLabelKeepsNames(v: CatView, i: nat, labels: seq<SrLabel>)
    requires NamesInv(v) && i < |v.dbs| && LabelNamesUnique(labels)
    ensures NamesInv(WithLabel(v, i, labels))
  {
    var v' := WithLabel(v, i, labels);
    assert forall j :: 0 <= j < |v.dbs| ==> v'.dbs[j].dbName == v.dbs[j].dbName;
  }

  lemma CreateDbKeepsNames(v: CatView, name: CString)
    requires NamesInv(v)
    ensures NamesInv(CreateDbStep(v, name).0)
  {
    var v' := CreateDbStep(v, name).0;
    assert forall i :: 0 <= i < |v.dbs| ==> v'.dbs[i] == v.dbs[i];
  }

  lemma DropDbKeepsNames(v: CatView, name: CString)
    requires NamesInv(v)
    ensures NamesInv(DropDbStep(v, name).0)
  {
    var i, v' := DbNamed(v.dbs, name), DropDbStep(v, name).0;
    assert |v'.dbs| < |v.dbs| ==> forall j :: 0 <= j < |v'.dbs| ==> v'.dbs[j] == v.dbs[if j < i then j else j + 1];
  }

  lemma CreateTableKeepsNames(v: CatView, dbId: uint32, labelName: CString, fields: seq<Field>)
    requires NamesInv(v)
    ensures NamesInv(CreateTableStep(v, dbId, labelName, fields).0)
  {
    var i := DbWithId(v.dbs, dbId);
    if v.managed && i < |v.dbs| {
      var labels := v.dbs[i].labelCtrlList;
      if LabelNamed(labels, labelName) == |labels| {
        var labels' := labels + [SrLabel(TableIdFrom(v.genNum), labelName, fields, [])];
        assert forall k :: 0 <= k < |labels| ==> labels'[k] == labels[k];
        WithLabelKeepsNames(v, i, labels');
      }
    }
  }

  lemma InsertRowKeepsNames(v: CatView, dbId: uint32, labelId: uint32, row: seq<byte>)
    requires NamesInv(v)
    ensures NamesInv(InsertRowStep(v, dbId, labelId, row).0)
  {
    var i := DbWithId(v.dbs, dbId);
    if v.managed && i < |v.dbs| {
      var labels := v.dbs[i].labelCtrlList;
      var k := LabelWithId(labels, labelId);
      if k < |labels| {
        var labels' := labels[k := WithRow(labels[k], row)];
        assert forall l :: 0 <= l < |labels| ==> labels'[l].labelName == labels[l].labelName;
        WithLabelKeepsNames(v, i, labels');
      }
    }
  }

  lemma StepKeepsNames(v: CatView, r: Request)
    requires NamesInv(v)
    ensures NamesInv(Step(v, r).0)
  {
    match r {
      case CreateDb(name) => CreateDbKeepsNames(v, name);
      case DropDb(name) => DropDbKeepsNames(v, name);
      case CreateTable(dbId, labelName, fields) => CreateTableKeepsNames(v, dbId, labelName, fields);
      case InsertRow(dbId, labelId, row) => InsertRowKeepsNames(v, dbId, labelId, row);
    }
  }

  // ---- Ids ----

  // The counter value a table id was made from.
  function Draw(tableId: uint32): (n: nat) {
    (tableId as int + TWO_TO_THE_32 - TABLE_ID_DIFF) % TWO_TO_THE_32
  }

  lemma DrawInvertsTableId(genNum: nat)
    requires genNum < TWO_TO_THE_32
    ensures Draw(TableIdFrom(genNum)) == genNum
  {
  }

  // Table ids made from counter values below genNum, no two equal.  None is made from the first value:
  // a table needs a database, and that drew the first value.
  ghost predicate LabelIdsInv(labels: seq<SrLabel>, genNum: nat) {
    && (forall k :: 0 <= k < |labels| ==> FIRST_GEN_NUM < Draw(labels[k].labelId) < genNum)
    && (forall k, l :: 0 <= k < l < |labels| ==> labels[k].labelId != labels[l].labelId)
  }

  ghost predicate LabelIdsApart(a: seq<SrLabel>, b: seq<SrLabel>) {
    forall k, l :: 0 <= k < |a| && 0 <= l < |b| ==> a[k].labelId != b[l].labelId
  }

  ghost predicate DbIdsInv(dbs: seq<SrDbCtrl>, genNum: nat) {
    && (forall i :: 0 <= i < |dbs| ==> FIRST_GEN_NUM <= dbs[i].dbId < genNum)
    && (forall i, j :: 0 <= i < j < |dbs| ==> dbs[i].dbId != dbs[j].dbId)
  }

  // Every id stems from a counter value already drawn, and no two of a kind are equal.
  ghost predicate IdsInv(v: CatView) {
    && FIRST_GEN_NUM <= v.genNum
    && DbIdsInv(v.dbs, v.genNum)
    && (forall i :: 0 <= i < |v.dbs| ==> LabelIdsInv(v.dbs[i].labelCtrlList, v.genNum))
    && (forall i, j :: 0 <= i < |v.dbs| && 0 <= j < |v.dbs| && i != j ==>
          LabelIdsApart(v.dbs[i].labelCtrlList, v.dbs[j].labelCtrlList))
  }

  // Replacing one database's tables by tables whose ids are apart from all others.
  lemma WithLabelKeepsIds(v: CatView, i: nat, labels: seq<SrLabel>, genNum: nat)
    requires IdsInv(v) && i < |v.dbs| && v.genNum <= genNum && LabelIdsInv(labels, genNum)
    requires forall j :: 0 <= j < |v.dbs| && j != i ==> LabelIdsApart(labels, v.dbs[j].labelCtrlList)
    ensures IdsInv(WithLabel(v, i, labels).(genNum := genNum))
  {
    var v' := WithLabel(v, i, labels);
    forall j, l | 0 <= j < |v.dbs| && 0 <= l < |v.dbs| && j != l
      ensures LabelIdsApart(v'.dbs[j].labelCtrlList, v'.dbs[l].labelCtrlList)
    {
      if l == i {
        assert LabelIdsApart(labels, v.dbs[j].labelCtrlList);
      }
    }
    assert forall j :: 0 <= j < |v.dbs| ==> v'.dbs[j].dbId == v.dbs[j].dbId;
  }

  lemma NewLabelIdsApart(labels: seq<SrLabel>, table: SrLabel, genNum: nat)
    requires FIRST_GEN_NUM < genNum < TWO_TO_THE_32
    requires LabelIdsInv(labels, genNum) && table.labelId == TableIdFrom(genNum)
    ensures LabelIdsInv(labels + [table], genNum + 1)
    ensures forall other :: LabelIdsInv(other, genNum) && LabelIdsApart(labels, other)
                            ==> LabelIdsApart(labels + [table], other)
  {
    DrawInvertsTableId(genNum);
  }

  lemma CreateDbKeepsIds(v: CatView, name: CString)
    requires IdsInv(v) && v.genNum < TWO_TO_THE_32
    ensures IdsInv(CreateDbStep(v, name).0)
  {
    WrapsIff(v.genNum);
    if NameStatus(name) == GMERR_OK && DbNamed(v.dbs, name) == |v.dbs| {
      AppendKeepsIds(v, SrDbCtrl(name, v.genNum, []));
    }
  }

  lemma AppendKeepsIds(v: CatView, db: SrDbCtrl)
    requires IdsInv(v) && db.dbId == v.genNum && db.labelCtrlList == []
    ensures IdsInv(CatView(true, v.dbs + [db], v.genNum + 1))
  {
    var dbs' := v.dbs + [db];
    forall i | 0 <= i < |dbs'|
      ensures FIRST_GEN_NUM <= dbs'[i].dbId <= v.genNum && LabelIdsInv(dbs'[i].labelCtrlList, v.genNum + 1)
    {
      assert i < |v.dbs| ==> dbs'[i] == v.dbs[i] && LabelIdsInv(v.dbs[i].labelCtrlList, v.genNum);
    }
    forall i, j | 0 <= i < |dbs'| && 0 <= j < |dbs'| && i != j
      ensures dbs'[i].dbId != dbs'[j].dbId && LabelIdsApart(dbs'[i].labelCtrlList, dbs'[j].labelCtrlList)
    {
      assert i < |v.dbs| ==> dbs'[i] == v.dbs[i];
      assert j < |v.dbs| ==> dbs'[j] == v.dbs[j];
    }
  }

  lemma DropDbKeepsIds(v: CatView, name: CString)
    requires IdsInv(v)
    ensures IdsInv(DropDbStep(v, name).0)
  {
    var i := DbNamed(v.dbs, name);
    if NameStatus(name) == GMERR_OK && i < |v.dbs| {
      RemovalKeepsIds(v, i);
    }
  }

  lemma RemovalKeepsIds(v: CatView, i: nat)
    requires IdsInv(v) && i < |v.dbs|
    ensures IdsInv(CatView(true, v.dbs[..i] + v.dbs[i + 1..], v.genNum))
  {
    var dbs' := v.dbs[..i] + v.dbs[i + 1..];
    forall j | 0 <= j < |dbs'|
      ensures FIRST_GEN_NUM <= dbs'[j].dbId < v.genNum && LabelIdsInv(dbs'[j].labelCtrlList, v.genNum)
    {
      assert dbs'[j] == v.dbs[if j < i then j else j + 1];
    }
    forall j, l | 0 <= j < |dbs'| && 0 <= l < |dbs'| && j != l
      ensures dbs'[j].dbId != dbs'[l].dbId && LabelIdsApart(dbs'[j].labelCtrlList, dbs'[l].labelCtrlList)
    {
      var a, b := if j < i then j else j + 1, if l < i then l else l + 1;
      assert dbs'[j] == v.dbs[a] && dbs'[l] == v.dbs[b] && a != b;
    }
  }

  lemma CreateTableKeepsIds(v: CatView, dbId: uint32, labelName: CString, fields: seq<Field>)
    requires IdsInv(v) && v.genNum < TWO_TO_THE_32
    ensures IdsInv(CreateTableStep(v, dbId, labelName, fields).0)
  {
    hide LabelIdsInv, LabelIdsApart, LabelNamed, TableIdFrom;
    var i := DbWithId(v.dbs, dbId);
    if v.managed && i < |v.dbs| && LabelNamed(v.dbs[i].labelCtrlList, labelName) == |v.dbs[i].labelCtrlList| {
      var labels := v.dbs[i].labelCtrlList;
      var table := SrLabel(TableIdFrom(v.genNum), labelName, fields, []);
      NewLabelIdsApart(labels, table, v.genNum);
      WithLabelKeepsIds(v, i, labels + [table], v.genNum + 1);
    }
  }

  lemma InsertRowKeepsIds(v: CatView, dbId: uint32, labelId: uint32, row: seq<byte>)
    requires IdsInv(v)
    ensures IdsInv(InsertRowStep(v, dbId, labelId, row).0)
  {
    var i := DbWithId(v.dbs, dbId);
    if v.managed && i < |v.dbs| && LabelWithId(v.dbs[i].labelCtrlList, labelId) < |v.dbs[i].labelCtrlList| {
      var labels := v.dbs[i].labelCtrlList;
      var k := LabelWithId(labels, labelId);
      var labels' := labels[k := WithRow(labels[k], row)];
      assert forall l :: 0 <= l < |labels| ==> labels'[l].labelId == labels[l].labelId;
      forall j | 0 <= j < |v.dbs| && j != i
        ensures LabelIdsApart(labels', v.dbs[j].labelCtrlList)
      {
        assert LabelIdsApart(labels, v.dbs[j].labelCtrlList);
      }
      WithLabelKeepsIds(v, i, labels', v.genNum);
    }
  }

  lemma StepKeepsIds(v: CatView, r: Request)
    requires IdsInv(v) && v.genNum < TWO_TO_THE_32
    ensures IdsInv(Step(v, r).0)
  {
    match r {
      case CreateDb(name) => CreateDbKeepsIds(v, name);
      case DropDb(name) => DropDbKeepsIds(v, name);
      case CreateTable(dbId, labelName, fields) => CreateTableKeepsIds(v, dbId, labelName, fields);
      case InsertRow(dbId, labelId, row) => InsertRowKeepsIds(v, dbId, labelId, row);
    }
  }

  // ---- Every run ----

  lemma {:induction false} CounterGrows(v: CatView, requests: seq<Request>)
    ensures v.genNum <= Run(v, requests).genNum
    decreases |requests|
  {
    if requests != [] {
      CounterGrows(Step(v, requests[0]).0, requests[1..]);
    }
  }

  lemma {:induction false} RunKeepsInv(v: CatView, requests: seq<Request>)
    requires NamesInv(v)
    ensures NamesInv(Run(v, requests))
    ensures IdsInv(v) && Run(v, requests).genNum <= TWO_TO_THE_32 ==> IdsInv(Run(v, requests))
    decreases |requests|
  {
    if requests != [] {
      var v' := Step(v, requests[0]).0;
      StepKeepsNames(v, requests[0]);
      CounterGrows(v', requests[1..]);
      if IdsInv(v) && v'.genNum <= TWO_TO_THE_32 {
        StepKeepsIdsWithin(v, requests[0]);
      }
      RunKeepsInv(v', requests[1..]);
    }
  }

  // A request that draws no id keeps them even with the counter used up.
  lemma FullCounterKeepsIds(v: CatView, r: Request)
    requires IdsInv(v) && Step(v, r).0.genNum == v.genNum
    ensures IdsInv(Step(v, r).0)
  {
    match r {
      case CreateDb(name) =>
      case DropDb(name) => DropDbKeepsIds(v, name);
      case CreateTable(dbId, labelName, fields) =>
      case InsertRow(dbId, labelId, row) => InsertRowKeepsIds(v, dbId, labelId, row);
    }
  }

  lemma StepKeepsIdsWithin(v: CatView, r: Request)
    requires IdsInv(v) && Step(v, r).0.genNum <= TWO_TO_THE_32
    ensures IdsInv(Step(v, r).0)
  {
    CounterGrows(v, [r]);
    if v.genNum < TWO_TO_THE_32 {
      StepKeepsIds(v, r);
    } else {
      FullCounterKeepsIds(v, r);
    }
  }

  ghost predicate TableIdUsed(v: CatView, id: uint32) {
    exists i, k :: 0 <= i < |v.dbs| && 0 <= k < |v.dbs[i].labelCtrlList| && v.dbs[i].labelCtrlList[k].labelId == id
  }

  // ---- The two kinds of ids ----

  // Some database and some table have the same id.
  ghost predicate KindsCollide(v: CatView) {
    exists i :: 0 <= i < |v.dbs| && TableIdUsed(v, v.dbs[i].dbId)
  }

  lemma DbIdIsNoTableId(v: CatView, i: nat, id: uint32)
    requires IdsInv(v) && v.genNum <= 500101
    requires i < |v.dbs| && TableIdUsed(v, id)
    ensures v.dbs[i].dbId != id
  {
    var j, k :| 0 <= j < |v.dbs| && 0 <= k < |v.dbs[j].labelCtrlList| && v.dbs[j].labelCtrlList[k].labelId == id;
    assert LabelIdsInv(v.dbs[j].labelCtrlList, v.genNum);
    assert FIRST_GEN_NUM < Draw(v.dbs[j].labelCtrlList[k].labelId) < v.genNum;
  }

  // While no value above 500100 is drawn, database and table ids also differ from each other.
  lemma KindsApartBelowLimit(v: CatView)
    requires IdsInv(v) && v.genNum <= 500101
    ensures !KindsCollide(v)
  {
    forall i | 0 <= i < |v.dbs|
      ensures !TableIdUsed(v, v.dbs[i].dbId)
    {
      if TableIdUsed(v, v.dbs[i].dbId) {
        DbIdIsNoTableId(v, i, v.dbs[i].dbId);
      }
    }
  }

  lemma {:induction false} RunConcat(v: CatView, a: seq<Request>, b: seq<Request>)
    ensures Run(v, a + b) == Run(Run(v, a), b)
    decreases |a|
  {
    if a == [] {
      assert a + b == b;
    } else {
      assert (a + b)[1..] == a[1..] + b;
      RunConcat(Step(v, a[0]).0, a[1..], b);
    }
  }

  // Creating and dropping one database n times.
  function Churn(name: CString, n: nat): (requests: seq<Request>) {
    if n == 0 then [] else [CreateDb(name), DropDb(name)] + Churn(name, n - 1)
  }

  // All it leaves behind is n values drawn.
  lemma {:induction false} ChurnDraws(v: CatView, name: CString, n: nat)
    requires v.managed && NameStatus(name) == GMERR_OK && DbNamed(v.dbs, name) == |v.dbs|
    ensures Run(v, Churn(name, n)) == v.(genNum := v.genNum + n)
    decreases n
  {
    if n > 0 {
      var pair := [CreateDb(name), DropDb(name)];
      RunConcat(v, pair, Churn(name, n - 1));
      CreateThenDrop(v, name);
      ChurnDraws(v.(genNum := v.genNum + 1), name, n - 1);
    }
  }

  lemma {:induction false} CreateThenDrop(v: CatView, name: CString)
    requires v.managed && NameStatus(name) == GMERR_OK && DbNamed(v.dbs, name) == |v.dbs|
    ensures Run(v, [CreateDb(name), DropDb(name)]) == v.(genNum := v.genNum + 1)
  {
    var v' := CreateDbStep(v, name).0;
    assert v'.dbs[|v.dbs|].dbName == name && forall j :: 0 <= j < |v.dbs| ==> v'.dbs[j] == v.dbs[j];
    assert DbNamed(v'.dbs, name) == |v.dbs|;
    assert v'.dbs[..|v.dbs|] + v'.dbs[|v.dbs| + 1..] == v.dbs;
    var pair := [CreateDb(name), DropDb(name)];
    assert pair[1..] == [DropDb(name)] && [DropDb(name)][1..] == [];
    assert Run(v, pair) == Run(v', pair[1..]) == Run(DropDbStep(v', name).0, []);
  }

  const NAME_A: CString := [97]
  const NAME_B: CString := [98]

  // A database, a table in it, then another database created and dropped until 500101 is drawn for it.
  function CollidingRequests(): (requests: seq<Request>) {
    [CreateDb(NAME_A), CreateTable(FIRST_GEN_NUM, NAME_A, [Field(NAME_A, TYPE_INT32, 4)])]
    + Churn(NAME_B, TABLE_ID_DIFF - 1) + [CreateDb(NAME_B)]
  }

  lemma CollidingRun()
    ensures Run(INITIAL_CATALOGUE, CollidingRequests()).genNum == 500102
    ensures KindsCollide(Run(INITIAL_CATALOGUE, CollidingRequests()))
  {
    var fields := [Field(NAME_A, TYPE_INT32, 4)];
    var first := [CreateDb(NAME_A), CreateTable(FIRST_GEN_NUM, NAME_A, fields)];
    var churn, last := Churn(NAME_B, TABLE_ID_DIFF - 1), [CreateDb(NAME_B)];
    RunConcat(INITIAL_CATALOGUE, first + churn, last);
    RunConcat(INITIAL_CATALOGUE, first, churn);
    FirstTable(fields);
    var v := Run(INITIAL_CATALOGUE, first);
    ChurnDraws(v, NAME_B, TABLE_ID_DIFF - 1);
    var v' := v.(genNum := FIRST_GEN_NUM + 1 + TABLE_ID_DIFF);
    var v'' := CreateDbStep(v', NAME_B).0;
    assert last[1..] == [] && Run(v', last) == v'';
    assert v''.dbs[0] == v.dbs[0] && v''.dbs[1].dbId == 500101 == v''.dbs[0].labelCtrlList[0].labelId;
    assert TableIdUsed(v'', v''.dbs[1].dbId);
  }

  lemma FirstTable(fields: seq<Field>)
    ensures Run(INITIAL_CATALOGUE, [CreateDb(NAME_A), CreateTable(FIRST_GEN_NUM, NAME_A, fields)])
            == CatView(true, [SrDbCtrl(NAME_A, 100100, [SrLabel(500101, NAME_A, fields, [])])], 100102)
  {
    var requests := [CreateDb(NAME_A), CreateTable(FIRST_GEN_NUM, NAME_A, fields)];
    var v := CreateDbStep(INITIAL_CATALOGUE, NAME_A).0;
    assert v == CatView(true, [SrDbCtrl(NAME_A, 100100, [])], 100101);
    assert v.dbs[0].dbId == FIRST_GEN_NUM && DbWithId(v.dbs, FIRST_GEN_NUM) == 0;
    assert v.dbs[0].labelCtrlList + [SrLabel(500101, NAME_A, fields, [])] == [SrLabel(500101, NAME_A, fields, [])];
    assert requests[1..] == [requests[1]] && requests[1..][1..] == [];
    assert Run(INITIAL_CATALOGUE, requests) == Run(v, requests[1..]) == Run(Step(v, requests[1]).0, []);
  }

  // A run from the fresh server that draws no value from limit on and gives a database and a table the
  // same id.
  ghost predicate CollidesBelow(requests: seq<Request>, limit: nat) {
    Run(INITIAL_CATALOGUE, requests).genNum <= limit && KindsCollide(Run(INITIAL_CATALOGUE, requests))
  }

  // The limit is exact: such a run exists if and only if the value 500101 may be drawn.
  lemma KindsCollideIff(limit: nat)
    ensures (exists requests :: CollidesBelow(requests, limit)) <==> 500101 < limit
  {
    if 500101 < limit {
      CollidingRun();
      assert CollidesBelow(CollidingRequests(), limit);
    } else if requests :| CollidesBelow(requests, limit) {
      RunKeepsInv(INITIAL_CATALOGUE, requests);
      KindsApartBelowLimit(Run(INITIAL_CATALOGUE, requests));
    }
  }

  // ---- Dropped ids ----

  // No database has this id, and the counter is past it.
  ghost predicate Retired(v: CatView, id: uint32) {
    id < v.genNum && DbWithId(v.dbs, id) == |v.dbs|
  }

  lemma {:induction false} DropRetiresId(v: CatView, name: CString)
    requires IdsInv(v) && NameStatus(name) == GMERR_OK && DbNamed(v.dbs, name) < |v.dbs|
    ensures Retired(DropDbStep(v, name).0, v.dbs[DbNamed(v.dbs, name)].dbId)
  {
    hide LabelIdsInv, LabelIdsApart, NameStatus;
    var i := DbNamed(v.dbs, name);
    var dbs' := DropDbStep(v, name).0.dbs;
    assert forall j :: 0 <= j < |dbs'| ==> dbs'[j] == v.dbs[if j < i then j else j + 1];
  }

  lemma StepKeepsRetired(v: CatView, r: Request, id: uint32)
    requires Retired(v, id) && Step(v, r).0.genNum <= TWO_TO_THE_32
    ensures Retired(Step(v, r).0, id)
  {
    if v.genNum < TWO_TO_THE_32 {
      WrapsIff(v.genNum);
    }
    var v' := Step(v, r).0;
    forall i | 0 <= i < |v'.dbs|
      ensures v'.dbs[i].dbId != id
    {
      assert r.DropDb? && DbNamed(v.dbs, r.dropName) <= i ==> i + 1 < |v.dbs| ==> v.dbs[i + 1].dbId != id;
    }
  }

  // Once dropped, an id never resolves again while the counter has not wrapped.
  lemma {:induction false} RetiredForever(v: CatView, requests: seq<Request>, id: uint32)
    requires Retired(v, id) && Run(v, requests).genNum <= TWO_TO_THE_32
    ensures Retired(Run(v, requests), id)
    decreases |requests|
  {
    if requests != [] {
      CounterGrows(Step(v, requests[0]).0, requests[1..]);
      StepKeepsRetired(v, requests[0], id);
      RetiredForever(Step(v, requests[0]).0, requests[1..], id);
    }
  }

  // The same for tables: no table has this id, and the counter is past the value that makes it.
  ghost predicate TableRetired(v: CatView, id: uint32) {
    Draw(id) < v.genNum && !TableIdUsed(v, id)
  }

  // Dropping a database retires the ids of all its tables.
  lemma {:induction false} DropRetiresTableIds(v: CatView, name: CString, k: nat)
    requires IdsInv(v) && NameStatus(name) == GMERR_OK && DbNamed(v.dbs, name) < |v.dbs|
    requires k < |v.dbs[DbNamed(v.dbs, name)].labelCtrlList|
    ensures TableRetired(DropDbStep(v, name).0, v.dbs[DbNamed(v.dbs, name)].labelCtrlList[k].labelId)
  {
    hide NameStatus;
    var i := DbNamed(v.dbs, name);
    var labels, v' := v.dbs[i].labelCtrlList, DropDbStep(v, name).0;
    assert LabelIdsInv(labels, v.genNum);
    forall j | 0 <= j < |v'.dbs|
      ensures LabelIdsApart(v'.dbs[j].labelCtrlList, labels)
    {
      assert v'.dbs[j] == v.dbs[if j < i then j else j + 1];
    }
  }

  lemma {:induction false} WithLabelKeepsUnused(v: CatView, i: nat, labels: seq<SrLabel>, id: uint32)
    requires i < |v.dbs| && !TableIdUsed(v, id) && forall k :: 0 <= k < |labels| ==> labels[k].labelId != id
    ensures !TableIdUsed(WithLabel(v, i, labels), id)
  {
  }

  lemma {:induction false} StepKeepsTableRetired(v: CatView, r: Request, id: uint32)
    requires TableRetired(v, id) && Step(v, r).0.genNum <= TWO_TO_THE_32
    ensures TableRetired(Step(v, r).0, id)
  {
    hide NameStatus, TableIdFrom, DbIdFrom, Draw, RowRoom, RowOf, DbNamed, LabelNamed, DbWithId, LabelWithId;
    match r {
      case CreateDb(_) =>
      case DropDb(_) =>
      case CreateTable(dbId, labelName, fields) =>
        var i := DbWithId(v.dbs, dbId);
        if v.managed && i < |v.dbs| && LabelNamed(v.dbs[i].labelCtrlList, labelName) == |v.dbs[i].labelCtrlList| {
          DrawInvertsTableId(v.genNum);
          var table := SrLabel(TableIdFrom(v.genNum), labelName, fields, []);
          WithLabelKeepsUnused(v, i, v.dbs[i].labelCtrlList + [table], id);
        }
      case InsertRow(inDb, labelId, buf) =>
        var i := DbWithId(v.dbs, inDb);
        if TakesRow(v, inDb, labelId) {
          var labels := v.dbs[i].labelCtrlList;
          var k := LabelWithId(labels, labelId);
          WithLabelKeepsUnused(v, i, labels[k := WithRow(labels[k], buf)], id);
        }
    }
  }

  // Nor does an id of one of its tables ever name another table.
  lemma {:induction false} TableRetiredForever(v: CatView, requests: seq<Request>, id: uint32)
    requires TableRetired(v, id) && Run(v, requests).genNum <= TWO_TO_THE_32
    ensures TableRetired(Run(v, requests), id)
    decreases |requests|
  {
    if requests != [] {
      CounterGrows(Step(v, requests[0]).0, requests[1..]);
      StepKeepsTableRetired(v, requests[0], id);
      TableRetiredForever(Step(v, requests[0]).0, requests[1..], id);
    }
  }

  // An id that resolves at the end of a run resolved all along.
  lemma {:induction false} StillThere(v: CatView, requests: seq<Request>, dbId: uint32)
    requires requests != [] && IdsInv(v) && Run(v, requests).genNum <= TWO_TO_THE_32
    requires DbWithId(v.dbs, dbId) < |v.dbs| && DbWithId(Run(v, requests).dbs, dbId) < |Run(v, requests).dbs|
    ensures DbWithId(Step(v, requests[0]).0.dbs, dbId) < |Step(v, requests[0]).0.dbs|
  {
    var v' := Step(v, requests[0]).0;
    CounterGrows(v, [requests[0]]);
    assert Run(v, [requests[0]]) == v';
    if DbWithId(v'.dbs, dbId) == |v'.dbs| {
      assert Retired(v', dbId);
      RetiredForever(v', requests[1..], dbId);
    }
  }

  // ---- First-match searches by id in a list that was extended, or changed at one place without its id ----

  lemma {:induction false} DbWithIdExtended(dbs: seq<SrDbCtrl>, db: SrDbCtrl, id: uint32)
    requires DbWithId(dbs, id) < |dbs|
    ensures DbWithId(dbs + [db], id) == DbWithId(dbs, id)
  {
    assert forall j :: 0 <= j < |dbs| ==> (dbs + [db])[j] == dbs[j];
  }

  lemma {:induction false} LabelWithIdExtended(labels: seq<SrLabel>, table: SrLabel, id: uint32)
    requires LabelWithId(labels, id) < |labels|
    ensures LabelWithId(labels + [table], id) == LabelWithId(labels, id)
  {
    assert forall k :: 0 <= k < |labels| ==> (labels + [table])[k] == labels[k];
  }

  lemma {:induction false} DbWithIdReplaced(v: CatView, i: nat, labels: seq<SrLabel>, id: uint32)
    requires i < |v.dbs|
    ensures DbWithId(WithLabel(v, i, labels).dbs, id) == DbWithId(v.dbs, id)
  {
    var dbs' := WithLabel(v, i, labels).dbs;
    assert forall j :: 0 <= j < |v.dbs| ==> dbs'[j].dbId == v.dbs[j].dbId;
  }

  lemma LabelWithIdReplaced(labels: seq<SrLabel>, k: nat, table: SrLabel, id: uint32)
    requires k < |labels| && table.labelId == labels[k].labelId
    ensures LabelWithId(labels[k := table], id) == LabelWithId(labels, id)
  {
    assert forall l :: 0 <= l < |labels| ==> labels[k := table][l].labelId == labels[l].labelId;
  }

  lemma {:induction false} SameDbById(v: CatView, dbId: uint32, j: nat)
    requires IdsInv(v) && j < |v.dbs| && v.dbs[j].dbId == dbId
    ensures DbWithId(v.dbs, dbId) == j
  {
  }
}
