/** The catalogue's nested lists refine a finite map: database name to id and tables, table name to
    table.  Every request acts on the lists exactly as its counterpart acts on the map. */
module Directory {
  import opened Arith
  import opened Bytes
  import opened Schema
  import opened Catalogue

  datatype DbEntry = DbEntry(dbId: uint32, tables: map<CString, SrLabel>)

  datatype DirView = DirView(managed: bool, dbs: map<CString, DbEntry>, genNum: nat)

  // ---- The map a catalogue stands for ----

  ghost function Tables(labels: seq<SrLabel>): (m: map<CString, SrLabel>)
    requires LabelNamesUnique(labels)
  {
    map i | 0 <= i < |labels| :: labels[i].labelName := labels[i]
  }

  ghost function EntryOf(db: SrDbCtrl): (e: DbEntry)
    requires LabelNamesUnique(db.labelCtrlList)
  {
    DbEntry(db.dbId, Tables(db.labelCtrlList))
  }

  ghost function Dir(v: CatView): (m: map<CString, DbEntry>)
    requires NamesInv(v)
  {
    map i | 0 <= i < |v.dbs| :: v.dbs[i].dbName := EntryOf(v.dbs[i])
  }

  ghost function Abstract(v: CatView): (d: DirView)
    requires NamesInv(v)
  {
    DirView(v.managed, Dir(v), v.genNum)
  }

  // ---- Requests on the map ----

  ghost predicate IdInUse(dbs: map<CString, DbEntry>, id: uint32) {
    exists n :: n in dbs && dbs[n].dbId == id
  }

  ghost function NameOfId(dbs: map<CString, DbEntry>, id: uint32): (n: CString)
    requires IdInUse(dbs, id)
    ensures n in dbs && dbs[n].dbId == id
  {
    var n :| n in dbs && dbs[n].dbId == id;
    n
  }

  ghost predicate TableIdInUse(tables: map<CString, SrLabel>, id: uint32) {
    exists n :: n in tables && tables[n].labelId == id
  }

  ghost function NameOfTableId(tables: map<CString, SrLabel>, id: uint32): (n: CString)
    requires TableIdInUse(tables, id)
    ensures n in tables && tables[n].labelId == id
  {
    var n :| n in tables && tables[n].labelId == id;
    n
  }

  // The numbers below are those the server answers and the limits it promises, written out; a request on
  // the map uses nothing of its counterpart on the lists.

  // The status that create-db and drop-db answer for a bad name, if it is bad: 4001001 for an empty one,
  // 4001002 for one of more than 128 characters.
  function BadName(name: CString): (status: nat) {
    if |name| == 0 then 4001001 else if |name| > 128 then 4001002 else 0
  }

  ghost function MapCreateDb(d: DirView, name: CString): (s: (DirView, Outcome)) {
    if BadName(name) != 0 then (d, Rejected(BadName(name)))
    else if name in d.dbs then (d.(managed := true), Rejected(4001004))
    else
      var id := d.genNum % 0x1_0000_0000;
      (DirView(true, d.dbs[name := DbEntry(id, map[])], d.genNum + 1), Done(id))
  }

  ghost function MapDropDb(d: DirView, name: CString): (s: (DirView, Outcome)) {
    if BadName(name) != 0 then (d, Rejected(BadName(name)))
    else if name !in d.dbs then (d.(managed := true), Rejected(4001005))
    else (DirView(true, d.dbs - {name}, d.genNum), Done(0))
  }

  ghost function MapAddTable(d: DirView, name: CString, labelName: CString, fields: seq<Field>): (s: (DirView, Outcome))
    requires name in d.dbs
  {
    var e := d.dbs[name];
    if labelName in e.tables then (d, Rejected(4001506))
    else
      var id := (400000 + d.genNum % 0x1_0000_0000) % 0x1_0000_0000;
      var tables := e.tables[labelName := SrLabel(id, labelName, fields, [])];
      (DirView(d.managed, d.dbs[name := DbEntry(e.dbId, tables)], d.genNum + 1), Done(id))
  }

  ghost function MapCreateTable(d: DirView, dbId: uint32, labelName: CString, fields: seq<Field>)
    : (s: (DirView, Outcome))
  {
    if !d.managed then (d, Aborted)
    else if !IdInUse(d.dbs, dbId) then (d, Rejected(4001007))
    else MapAddTable(d, NameOfId(d.dbs, dbId), labelName, fields)
  }

  // A page of 4096 bytes takes no further row; the server stops on it.
  ghost predicate PageFull(table: SrLabel) {
    (|table.rows| + 1) * (Total(table.fields) % 0x1_0000_0000) > 4096
  }

  // The table with the first bytes given as its last row, as many as its fields take.
  ghost function RowAdded(table: SrLabel, bytes: seq<byte>): (t: SrLabel) {
    var n := Total(table.fields) % 0x1_0000_0000;
    table.(rows := table.rows + [if n <= |bytes| then bytes[..n] else bytes])
  }

  ghost function MapAddRow(d: DirView, name: CString, labelId: uint32, row: seq<byte>): (s: (DirView, Outcome))
    requires name in d.dbs
  {
    var e := d.dbs[name];
    if !TableIdInUse(e.tables, labelId) then (d, Rejected(4001507))
    else
      var labelName := NameOfTableId(e.tables, labelId);
      var table := e.tables[labelName];
      if PageFull(table) then (d, Aborted)
      else (d.(dbs := d.dbs[name := DbEntry(e.dbId, e.tables[labelName := RowAdded(table, row)])]), Done(0))
  }

  ghost function MapInsertRow(d: DirView, dbId: uint32, labelId: uint32, row: seq<byte>): (s: (DirView, Outcome)) {
    if !d.managed then (d, Aborted)
    else if !IdInUse(d.dbs, dbId) then (d, Rejected(4001007))
    else MapAddRow(d, NameOfId(d.dbs, dbId), labelId, row)
  }

  // A query changes nothing.
  ghost function MapQuery(d: DirView, dbId: uint32, labelId: uint32): (r: (Outcome, seq<Field>)) {
    if !d.managed then (Aborted, [])
    else if !IdInUse(d.dbs, dbId) then (Rejected(4001007), [])
    else
      var tables := d.dbs[NameOfId(d.dbs, dbId)].tables;
      if !TableIdInUse(tables, labelId) then (Rejected(4001507), [])
      else (Done(0), tables[NameOfTableId(tables, labelId)].fields)
  }

  ghost function MapStep(d: DirView, r: Request): (s: (DirView, Outcome)) {
    match r
    case CreateDb(name) => MapCreateDb(d, name)
    case DropDb(name) => MapDropDb(d, name)
    case CreateTable(dbId, labelName, fields) => MapCreateTable(d, dbId, labelName, fields)
    case InsertRow(dbId, labelId, row) => MapInsertRow(d, dbId, labelId, row)
  }

  // ---- Lookups find the unique entry ----

  // First-match search by name decides presence and finds the entry.
  lemma {:induction false} LookupByName(v: CatView, name: CString)
    requires NamesInv(v)
    ensures name in Dir(v) <==> DbNamed(v.dbs, name) < |v.dbs|
    ensures name in Dir(v) ==> Dir(v)[name] == EntryOf(v.dbs[DbNamed(v.dbs, name)])
  {
    var i := DbNamed(v.dbs, name);
    if i < |v.dbs| {
      assert v.dbs[i].dbName in Dir(v);
    }
  }

  // The entry found under a database's own name is that database.
  lemma {:induction false} FoundAtOwnName(dbs: seq<SrDbCtrl>, i: nat)
    requires DbNamesUnique(dbs) && i < |dbs|
    ensures DbNamed(dbs, dbs[i].dbName) == i
  {
  }

  // First-match search by id decides whether the id is in use and finds its only holder.
  lemma {:induction false} LookupById(v: CatView, id: uint32)
    requires NamesInv(v) && IdsInv(v)
    ensures IdInUse(Dir(v), id) <==> DbWithId(v.dbs, id) < |v.dbs|
    ensures IdInUse(Dir(v), id) ==> NameOfId(Dir(v), id) == v.dbs[DbWithId(v.dbs, id)].dbName
  {
    var i := DbWithId(v.dbs, id);
    if i < |v.dbs| {
      LookupByName(v, v.dbs[i].dbName);
      FoundAtOwnName(v.dbs, i);
    }
    if IdInUse(Dir(v), id) {
      var n := NameOfId(Dir(v), id);
      LookupByName(v, n);
      assert v.dbs[DbNamed(v.dbs, n)].dbId == id;
    }
  }

  lemma {:induction false} LookupTableByName(labels: seq<SrLabel>, name: CString)
    requires LabelNamesUnique(labels)
    ensures name in Tables(labels) <==> LabelNamed(labels, name) < |labels|
    ensures name in Tables(labels) ==> Tables(labels)[name] == labels[LabelNamed(labels, name)]
  {
    var k := LabelNamed(labels, name);
    if k < |labels| {
      assert labels[k].labelName in Tables(labels);
    }
  }

  lemma {:induction false} TableFoundAtOwnName(labels: seq<SrLabel>, k: nat)
    requires LabelNamesUnique(labels) && k < |labels|
    ensures LabelNamed(labels, labels[k].labelName) == k
  {
  }

  lemma {:induction false} LookupTableById(labels: seq<SrLabel>, id: uint32, genNum: nat)
    requires LabelNamesUnique(labels) && LabelIdsInv(labels, genNum)
    ensures TableIdInUse(Tables(labels), id) <==> LabelWithId(labels, id) < |labels|
    ensures TableIdInUse(Tables(labels), id) ==>
              NameOfTableId(Tables(labels), id) == labels[LabelWithId(labels, id)].labelName
  {
    var k := LabelWithId(labels, id);
    if k < |labels| {
      LookupTableByName(labels, labels[k].labelName);
      TableFoundAtOwnName(labels, k);
    }
    if TableIdInUse(Tables(labels), id) {
      var n := NameOfTableId(Tables(labels), id);
      LookupTableByName(labels, n);
      assert labels[LabelNamed(labels, n)].labelId == id;
    }
  }

  // ---- List updates as map updates ----

  // A map that answers every name as the search does is the map of the list.
  ghost predicate AnswersTables(m: map<CString, SrLabel>, labels: seq<SrLabel>, n: CString) {
    && (n in m <==> LabelNamed(labels, n) < |labels|)
    && (n in m ==> m[n] == labels[LabelNamed(labels, n)])
  }

  lemma TablesAre(labels: seq<SrLabel>, m: map<CString, SrLabel>)
    requires LabelNamesUnique(labels) && forall n :: AnswersTables(m, labels, n)
    ensures Tables(labels) == m
  {
    forall n
      ensures n in Tables(labels) <==> n in m
      ensures n in m ==> Tables(labels)[n] == m[n]
    {
      LookupTableByName(labels, n);
      assert AnswersTables(m, labels, n);
    }
  }

  ghost predicate AnswersDbs(m: map<CString, DbEntry>, v: CatView, n: CString)
    requires NamesInv(v)
  {
    && (n in m <==> DbNamed(v.dbs, n) < |v.dbs|)
    && (n in m ==> m[n] == EntryOf(v.dbs[DbNamed(v.dbs, n)]))
  }

  lemma DirIs(v: CatView, m: map<CString, DbEntry>)
    requires NamesInv(v) && forall n :: AnswersDbs(m, v, n)
    ensures Dir(v) == m
  {
    forall n
      ensures n in Dir(v) <==> n in m
      ensures n in m ==> Dir(v)[n] == m[n]
    {
      LookupByName(v, n);
      assert AnswersDbs(m, v, n);
    }
  }

  // How searches by name see an appended, replaced or removed entry.

  lemma {:induction false} NamedInAppended(labels: seq<SrLabel>, table: SrLabel, n: CString)
    requires LabelNamed(labels, table.labelName) == |labels|
    ensures LabelNamed(labels + [table], n)
            == if n != table.labelName && LabelNamed(labels, n) == |labels| then |labels| + 1 else LabelNamed(labels, n)
  {
    var labels' := labels + [table];
    assert labels'[|labels|] == table;
    assert forall j :: 0 <= j < |labels| ==> labels'[j] == labels[j];
  }

  lemma NamedInReplaced(labels: seq<SrLabel>, k: nat, table: SrLabel, n: CString)
    requires k < |labels| && table.labelName == labels[k].labelName
    ensures LabelNamed(labels[k := table], n) == LabelNamed(labels, n)
  {
    var labels' := labels[k := table];
    assert forall j :: 0 <= j < |labels| ==> (labels'[j].labelName == n <==> labels[j].labelName == n);
  }

  lemma {:induction false} DbNamedInAppended(dbs: seq<SrDbCtrl>, db: SrDbCtrl, n: CString)
    requires DbNamed(dbs, db.dbName) == |dbs|
    ensures DbNamed(dbs + [db], n)
            == if n != db.dbName && DbNamed(dbs, n) == |dbs| then |dbs| + 1 else DbNamed(dbs, n)
  {
    var dbs' := dbs + [db];
    assert dbs'[|dbs|] == db;
    assert forall j :: 0 <= j < |dbs| ==> dbs'[j] == dbs[j];
  }

  lemma {:induction false} DbNamedInReplaced(v: CatView, i: nat, labels: seq<SrLabel>, n: CString)
    requires i < |v.dbs|
    ensures DbNamed(WithLabel(v, i, labels).dbs, n) == DbNamed(v.dbs, n)
  {
    var dbs' := WithLabel(v, i, labels).dbs;
    assert forall j :: 0 <= j < |v.dbs| ==> (dbs'[j].dbName == n <==> v.dbs[j].dbName == n);
  }

  lemma {:induction false} DbNamedInRemoved(dbs: seq<SrDbCtrl>, i: nat, n: CString)
    requires DbNamesUnique(dbs) && i < |dbs|
    ensures var k := DbNamed(dbs, n);
            DbNamed(dbs[..i] + dbs[i + 1..], n) == if k < i then k else if k == i then |dbs| - 1 else k - 1
  {
    var dbs', k := dbs[..i] + dbs[i + 1..], DbNamed(dbs, n);
    var r := if k < i then k else if k == i then |dbs| - 1 else k - 1;
    forall j | 0 <= j < r
      ensures dbs'[j].dbName != n
    {
      assert dbs'[j] == dbs[if j < i then j else j + 1];
    }
    assert r < |dbs'| ==> dbs'[r] == dbs[k];
    DbNamedIs(dbs', n, r);
  }

  lemma {:induction false} DbNamedIs(dbs: seq<SrDbCtrl>, n: CString, r: nat)
    requires r <= |dbs| && (r < |dbs| ==> dbs[r].dbName == n) && forall j :: 0 <= j < r ==> dbs[j].dbName != n
    ensures DbNamed(dbs, n) == r
  {
  }

  lemma {:induction false} TablesAppend(labels: seq<SrLabel>, table: SrLabel)
    requires LabelNamesUnique(labels) && LabelNamed(labels, table.labelName) == |labels|
    ensures LabelNamesUnique(labels + [table])
    ensures Tables(labels + [table]) == Tables(labels)[table.labelName := table]
  {
    hide Tables, LabelNamed;
    var m := Tables(labels)[table.labelName := table];
    forall n
      ensures AnswersTables(m, labels + [table], n)
    {
      LookupTableByName(labels, n);
      NamedInAppended(labels, table, n);
    }
    TablesAre(labels + [table], m);
  }

  lemma TablesUpdate(labels: seq<SrLabel>, k: nat, table: SrLabel)
    requires LabelNamesUnique(labels) && k < |labels| && table.labelName == labels[k].labelName
    ensures LabelNamesUnique(labels[k := table])
    ensures Tables(labels[k := table]) == Tables(labels)[table.labelName := table]
  {
    var m, labels' := Tables(labels)[table.labelName := table], labels[k := table];
    TableFoundAtOwnName(labels, k);
    forall n
      ensures AnswersTables(m, labels', n)
    {
      LookupTableByName(labels, n);
      NamedInReplaced(labels, k, table, n);
    }
    TablesAre(labels', m);
  }

  lemma DirUpdate(v: CatView, i: nat, labels: seq<SrLabel>)
    requires NamesInv(v) && i < |v.dbs| && LabelNamesUnique(labels)
    ensures NamesInv(WithLabel(v, i, labels))
    ensures Dir(WithLabel(v, i, labels)) == Dir(v)[v.dbs[i].dbName := DbEntry(v.dbs[i].dbId, Tables(labels))]
  {
    var v' := WithLabel(v, i, labels);
    var m := Dir(v)[v.dbs[i].dbName := DbEntry(v.dbs[i].dbId, Tables(labels))];
    WithLabelKeepsNames(v, i, labels);
    FoundAtOwnName(v.dbs, i);
    forall n
      ensures AnswersDbs(m, v', n)
    {
      LookupByName(v, n);
      DbNamedInReplaced(v, i, labels, n);
    }
    DirIs(v', m);
  }

  // ---- Each request refines its counterpart ----

  lemma CreateDbRefines(v: CatView, name: CString)
    requires NamesInv(v) && NamesInv(CreateDbStep(v, name).0)
    ensures (Abstract(CreateDbStep(v, name).0), CreateDbStep(v, name).1) == MapCreateDb(Abstract(v), name)
  {
    LookupByName(v, name);
    if NameStatus(name) == GMERR_OK && DbNamed(v.dbs, name) == |v.dbs| {
      DirAppend(v, CreateDbStep(v, name).0, SrDbCtrl(name, DbIdFrom(v.genNum), []));
      assert EntryOf(SrDbCtrl(name, DbIdFrom(v.genNum), [])) == DbEntry(DbIdFrom(v.genNum), map[]);
    }
  }

  lemma DirAppend(v: CatView, v': CatView, db: SrDbCtrl)
    requires NamesInv(v) && NamesInv(v') && v'.dbs == v.dbs + [db] && LabelNamesUnique(db.labelCtrlList)
    requires DbNamed(v.dbs, db.dbName) == |v.dbs|
    ensures Dir(v') == Dir(v)[db.dbName := EntryOf(db)]
  {
    var m := Dir(v)[db.dbName := EntryOf(db)];
    forall n
      ensures AnswersDbs(m, v', n)
    {
      LookupByName(v, n);
      DbNamedInAppended(v.dbs, db, n);
    }
    DirIs(v', m);
  }

  lemma DropDbRefines(v: CatView, name: CString)
    requires NamesInv(v) && NamesInv(DropDbStep(v, name).0)
    ensures (Abstract(DropDbStep(v, name).0), DropDbStep(v, name).1) == MapDropDb(Abstract(v), name)
  {
    hide Dir, DbNamed, NamesInv;
    LookupByName(v, name);
    if NameStatus(name) == GMERR_OK && DbNamed(v.dbs, name) < |v.dbs| {
      DirRemove(v, DropDbStep(v, name).0, DbNamed(v.dbs, name));
    } else {
      DirOfDbs(v, DropDbStep(v, name).0);
    }
  }

  lemma DirRemove(v: CatView, v': CatView, i: nat)
    requires NamesInv(v) && NamesInv(v') && i < |v.dbs| && v'.dbs == v.dbs[..i] + v.dbs[i + 1..]
    ensures Dir(v') == Dir(v) - {v.dbs[i].dbName}
  {
    hide Dir, EntryOf, DbNamed;
    var m := Dir(v) - {v.dbs[i].dbName};
    FoundAtOwnName(v.dbs, i);
    forall n
      ensures AnswersDbs(m, v', n)
    {
      LookupByName(v, n);
      DbNamedInRemoved(v.dbs, i, n);
    }
    DirIs(v', m);
  }

  lemma AddTableRefines(v: CatView, i: nat, labelName: CString, fields: seq<Field>)
    requires NamesInv(v) && i < |v.dbs|
    ensures NamesInv(AddTable(v, i, labelName, fields).0)
    ensures v.dbs[i].dbName in Dir(v)
    ensures (Abstract(AddTable(v, i, labelName, fields).0), AddTable(v, i, labelName, fields).1)
            == MapAddTable(Abstract(v), v.dbs[i].dbName, labelName, fields)
  {
    DbFound(v, i);
    LookupTableByName(v.dbs[i].labelCtrlList, labelName);
    hide Dir, Tables, LabelNamed, TableIdFrom, NamesInv, WithLabel;
    if LabelNamed(v.dbs[i].labelCtrlList, labelName) == |v.dbs[i].labelCtrlList| {
      NewTableRefines(v, i, labelName, fields);
    }
  }

  lemma NewTableRefines(v: CatView, i: nat, labelName: CString, fields: seq<Field>)
    requires NamesInv(v) && i < |v.dbs|
    requires LabelNamed(v.dbs[i].labelCtrlList, labelName) == |v.dbs[i].labelCtrlList|
    ensures NamesInv(AddTable(v, i, labelName, fields).0)
    ensures v.dbs[i].dbName in Dir(v)
    ensures (Abstract(AddTable(v, i, labelName, fields).0), AddTable(v, i, labelName, fields).1)
            == MapAddTable(Abstract(v), v.dbs[i].dbName, labelName, fields)
  {
    var labels := v.dbs[i].labelCtrlList;
    var table := SrLabel(TableIdFrom(v.genNum), labelName, fields, []);
    DbFound(v, i);
    LookupTableByName(labels, labelName);
    assert Dir(v)[v.dbs[i].dbName] == DbEntry(v.dbs[i].dbId, Tables(labels));
    assert table.labelId == (400000 + v.genNum % 0x1_0000_0000) % 0x1_0000_0000;
    hide Dir, EntryOf, Tables, LabelNamed, TableIdFrom, NamesInv;
    TableAdded(v, i, table);
    DirOfDbs(WithLabel(v, i, labels + [table]), AddTable(v, i, labelName, fields).0);
  }

  // The map depends on the databases alone.
  lemma DirOfDbs(v: CatView, v': CatView)
    requires NamesInv(v) && v'.dbs == v.dbs && (v.managed ==> v'.managed)
    ensures NamesInv(v') && Dir(v') == Dir(v)
  {
  }

  lemma CreateTableRefines(v: CatView, dbId: uint32, labelName: CString, fields: seq<Field>)
    requires NamesInv(v) && IdsInv(v) && NamesInv(CreateTableStep(v, dbId, labelName, fields).0)
    ensures (Abstract(CreateTableStep(v, dbId, labelName, fields).0), CreateTableStep(v, dbId, labelName, fields).1)
            == MapCreateTable(Abstract(v), dbId, labelName, fields)
  {
    LookupById(v, dbId);
    var i := DbWithId(v.dbs, dbId);
    if i < |v.dbs| {
      AddTableRefines(v, i, labelName, fields);
    }
  }

  lemma DbFound(v: CatView, i: nat)
    requires NamesInv(v) && i < |v.dbs|
    ensures v.dbs[i].dbName in Dir(v) && Dir(v)[v.dbs[i].dbName] == EntryOf(v.dbs[i])
  {
    LookupByName(v, v.dbs[i].dbName);
    FoundAtOwnName(v.dbs, i);
  }

  lemma TableAdded(v: CatView, i: nat, table: SrLabel)
    requires NamesInv(v) && i < |v.dbs|
    requires LabelNamed(v.dbs[i].labelCtrlList, table.labelName) == |v.dbs[i].labelCtrlList|
    ensures var labels := v.dbs[i].labelCtrlList;
            var v' := WithLabel(v, i, labels + [table]);
            && NamesInv(v')
            && Dir(v') == Dir(v)[v.dbs[i].dbName := DbEntry(v.dbs[i].dbId, Tables(labels)[table.labelName := table])]
  {
    var labels := v.dbs[i].labelCtrlList;
    TablesAppend(labels, table);
    DirUpdate(v, i, labels + [table]);
  }

  // The lists agree with the map on when a page is full and what a row is.
  lemma RowsAlike(table: SrLabel, row: seq<byte>)
    ensures PageFull(table) <==> !RowRoom(table)
    ensures RowAdded(table, row) == WithRow(table, row)
  {
    MulStep(|table.rows|, RowSize(table));
  }

  lemma AddRowRefines(v: CatView, i: nat, labelId: uint32, row: seq<byte>)
    requires NamesInv(v) && IdsInv(v) && i < |v.dbs|
    ensures NamesInv(AddRow(v, i, labelId, row).0)
    ensures v.dbs[i].dbName in Dir(v)
    ensures (Abstract(AddRow(v, i, labelId, row).0), AddRow(v, i, labelId, row).1)
            == MapAddRow(Abstract(v), v.dbs[i].dbName, labelId, row)
  {
    hide PageFull, RowAdded, RowRoom, LabelWithId;
    var labels := v.dbs[i].labelCtrlList;
    TableFound(v, i, labelId);
    var k := LabelWithId(labels, labelId);
    if k < |labels| {
      RowsAlike(labels[k], row);
      if RowRoom(labels[k]) {
        TableReplaced(v, i, k, WithRow(labels[k], row));
      }
    }
  }

  lemma InsertRowRefines(v: CatView, dbId: uint32, labelId: uint32, row: seq<byte>)
    requires NamesInv(v) && IdsInv(v) && NamesInv(InsertRowStep(v, dbId, labelId, row).0)
    ensures (Abstract(InsertRowStep(v, dbId, labelId, row).0), InsertRowStep(v, dbId, labelId, row).1)
            == MapInsertRow(Abstract(v), dbId, labelId, row)
  {
    LookupById(v, dbId);
    var i := DbWithId(v.dbs, dbId);
    if i < |v.dbs| {
      AddRowRefines(v, i, labelId, row);
    }
  }

  // Searching database i for a table id meets the entry the map has for it.
  lemma {:induction false} TableFound(v: CatView, i: nat, labelId: uint32)
    requires NamesInv(v) && IdsInv(v) && i < |v.dbs|
    ensures v.dbs[i].dbName in Dir(v) && Dir(v)[v.dbs[i].dbName] == EntryOf(v.dbs[i])
    ensures var labels := v.dbs[i].labelCtrlList;
            var k := LabelWithId(labels, labelId);
            && (TableIdInUse(Tables(labels), labelId) <==> k < |labels|)
            && (k < |labels| ==> NameOfTableId(Tables(labels), labelId) == labels[k].labelName
                                 && labels[k].labelName in Tables(labels)
                                 && Tables(labels)[labels[k].labelName] == labels[k])
  {
    var labels := v.dbs[i].labelCtrlList;
    DbFound(v, i);
    assert LabelIdsInv(labels, v.genNum);
    LookupTableById(labels, labelId, v.genNum);
    var k := LabelWithId(labels, labelId);
    if k < |labels| {
      LookupTableByName(labels, labels[k].labelName);
      TableFoundAtOwnName(labels, k);
    }
  }

  lemma TableReplaced(v: CatView, i: nat, k: nat, table: SrLabel)
    requires NamesInv(v) && i < |v.dbs| && k < |v.dbs[i].labelCtrlList|
    requires table.labelName == v.dbs[i].labelCtrlList[k].labelName
    ensures var labels := v.dbs[i].labelCtrlList;
            var v' := WithLabel(v, i, labels[k := table]);
            && NamesInv(v')
            && Dir(v') == Dir(v)[v.dbs[i].dbName := DbEntry(v.dbs[i].dbId, Tables(labels)[table.labelName := table])]
  {
    var labels := v.dbs[i].labelCtrlList;
    TablesUpdate(labels, k, table);
    DirUpdate(v, i, labels[k := table]);
  }

  // A query has the map's outcome, and answers the fields the map holds for the ids.
  lemma QueryRefinesMap(v: CatView, dbId: uint32, labelId: uint32)
    requires NamesInv(v) && IdsInv(v)
    ensures QueryAnswer(v, dbId, labelId) == MapQuery(Abstract(v), dbId, labelId)
    ensures QueryAnswer(v, dbId, labelId).0
            == if !v.managed then Aborted
               else if !IdInUse(Dir(v), dbId) then Rejected(4001007)
               else if !TableIdInUse(Dir(v)[NameOfId(Dir(v), dbId)].tables, labelId) then Rejected(4001507)
               else Done(0)
  {
    hide NamesInv, IdsInv, Dir, Tables, IdInUse, TableIdInUse, DbWithId, LabelWithId;
    LookupById(v, dbId);
    var i := DbWithId(v.dbs, dbId);
    if i < |v.dbs| {
      TableFound(v, i, labelId);
    }
  }

  // ---- Which requests are rejected, and how ----

  // Create-db succeeds exactly for a name of 1 to 128 characters that no database has; every other
  // cause has its own status.
  lemma CreateDbOutcome(v: CatView, name: CString)
    requires NamesInv(v)
    ensures var outcome := CreateDbStep(v, name).1;
            && (outcome.Done? <==> 1 <= |name| <= 128 && name !in Dir(v))
            && (outcome == Rejected(4001001) <==> |name| == 0)
            && (outcome == Rejected(4001002) <==> |name| > 128)
            && (outcome == Rejected(4001004) <==> 1 <= |name| <= 128 && name in Dir(v))
  {
    LookupByName(v, name);
  }

  lemma DropDbOutcome(v: CatView, name: CString)
    requires NamesInv(v)
    ensures var outcome := DropDbStep(v, name).1;
            && (outcome.Done? <==> 1 <= |name| <= 128 && name in Dir(v))
            && (outcome == Rejected(4001001) <==> |name| == 0)
            && (outcome == Rejected(4001002) <==> |name| > 128)
            && (outcome == Rejected(4001005) <==> 1 <= |name| <= 128 && name !in Dir(v))
  {
    LookupByName(v, name);
  }

  // A server that has a manager answers create-table with 4001007 exactly for an unknown database id and
  // with 4001506 exactly for a name taken there, and succeeds otherwise.
  lemma CreateTableOutcome(v: CatView, dbId: uint32, labelName: CString, fields: seq<Field>)
    requires NamesInv(v) && IdsInv(v) && v.managed
    ensures var outcome := CreateTableStep(v, dbId, labelName, fields).1;
            && (outcome == Rejected(4001007) <==> !IdInUse(Dir(v), dbId))
            && (outcome == Rejected(4001506) <==>
                  IdInUse(Dir(v), dbId) && labelName in Dir(v)[NameOfId(Dir(v), dbId)].tables)
            && (outcome.Done? <==> IdInUse(Dir(v), dbId) && labelName !in Dir(v)[NameOfId(Dir(v), dbId)].tables)
  {
    CreateTableKeepsNames(v, dbId, labelName, fields);
    CreateTableRefines(v, dbId, labelName, fields);
  }

  // It answers an insert with 4001007 exactly for an unknown database id and with 4001507 exactly for an
  // unknown table id there; it succeeds exactly when the page of the table has room, and else stops.
  lemma InsertRowOutcome(v: CatView, dbId: uint32, labelId: uint32, row: seq<byte>)
    requires NamesInv(v) && IdsInv(v) && v.managed
    ensures var outcome := InsertRowStep(v, dbId, labelId, row).1;
            if !IdInUse(Dir(v), dbId) then outcome == Rejected(4001007)
            else
              var tables := Dir(v)[NameOfId(Dir(v), dbId)].tables;
              if !TableIdInUse(tables, labelId) then outcome == Rejected(4001507)
              else
                var table := tables[NameOfTableId(tables, labelId)];
                outcome == if PageFull(table) then Aborted else Done(0)
  {
    InsertRowKeepsNames(v, dbId, labelId, row);
    InsertRowRefines(v, dbId, labelId, row);
  }

  lemma StepRefinesMap(v: CatView, r: Request)
    requires NamesInv(v) && IdsInv(v)
    ensures NamesInv(Step(v, r).0)
    ensures (Abstract(Step(v, r).0), Step(v, r).1) == MapStep(Abstract(v), r)
  {
    hide NamesInv, IdsInv, Abstract, CreateDbStep, DropDbStep, CreateTableStep, InsertRowStep;
    hide MapCreateDb, MapDropDb, MapCreateTable, MapInsertRow;
    StepKeepsNames(v, r);
    match r {
      case CreateDb(name) => CreateDbRefines(v, name);
      case DropDb(name) => DropDbRefines(v, name);
      case CreateTable(dbId, labelName, fields) => CreateTableRefines(v, dbId, labelName, fields);
      case InsertRow(dbId, labelId, row) => InsertRowRefines(v, dbId, labelId, row);
    }
  }

  // ---- Every run ----

  ghost function MapRun(d: DirView, requests: seq<Request>): (d': DirView)
    decreases |requests|
  {
    if requests == [] then d else MapRun(MapStep(d, requests[0]).0, requests[1..])
  }

  // Over every run of requests from a fresh server, until the id counter wraps, the lists stand for
  // the map the same requests build.
  lemma {:induction false} RunRefinesMap(v: CatView, requests: seq<Request>)
    requires NamesInv(v) && IdsInv(v) && Run(v, requests).genNum <= TWO_TO_THE_32
    ensures NamesInv(Run(v, requests))
    ensures Abstract(Run(v, requests)) == MapRun(Abstract(v), requests)
    decreases |requests|
  {
    if requests != [] {
      var v' := Step(v, requests[0]).0;
      StepRefinesMap(v, requests[0]);
      CounterGrows(v', requests[1..]);
      RunKeepsInv(v, [requests[0]]);
      assert Run(v, [requests[0]]) == v';
      RunRefinesMap(v', requests[1..]);
    }
  }

  lemma {:induction false} FreshServerRefinesMap(requests: seq<Request>)
    requires Run(INITIAL_CATALOGUE, requests).genNum <= TWO_TO_THE_32
    ensures NamesInv(Run(INITIAL_CATALOGUE, requests)) && IdsInv(Run(INITIAL_CATALOGUE, requests))
    ensures Abstract(Run(INITIAL_CATALOGUE, requests)) == MapRun(DirView(false, map[], 100100), requests)
  {
    RunKeepsInv(INITIAL_CATALOGUE, requests);
    RunRefinesMap(INITIAL_CATALOGUE, requests);
    assert Dir(INITIAL_CATALOGUE) == map[];
  }
}
