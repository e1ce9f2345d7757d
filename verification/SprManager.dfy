/** The server's catalogue manager: the database list searched and updated in place, and the id
    counter. */
module SprManager {
  import opened Bytes
  import opened Schema
  import opened Catalogue

  class SrDbCtrlManager {
    var managed: bool                 // g_srDbCtrlManager != NULL
    var dbCtrlList: seq<SrDbCtrl>
    var g_dbGenNum: uint32
    ghost var drawn: nat              // the counter, counted on past 32 bits

    ghost predicate Valid()
      reads this
    {
      g_dbGenNum == drawn % TWO_TO_THE_32
    }

    ghost function View(): (v: CatView)
      reads this
    {
      CatView(managed, dbCtrlList, drawn)
    }

    constructor ()
      ensures Valid() && View() == INITIAL_CATALOGUE
    {
      managed := false;
      dbCtrlList := [];
      g_dbGenNum := FIRST_GEN_NUM;
      drawn := FIRST_GEN_NUM;
    }

    method GenSrDbId() returns (id: uint32)
      requires Valid()
      modifies `g_dbGenNum, `drawn
      ensures Valid() && drawn == old(drawn) + 1
      ensures id == DbIdFrom(old(drawn))
    {
      id := g_dbGenNum;
      g_dbGenNum := (g_dbGenNum as int + 1) % TWO_TO_THE_32;
      drawn := drawn + 1;
    }

    method GenSrTableId() returns (id: uint32)
      requires Valid()
      modifies `g_dbGenNum, `drawn
      ensures Valid() && drawn == old(drawn) + 1
      ensures id == TableIdFrom(old(drawn))
    {
      id := (TABLE_ID_DIFF + g_dbGenNum) % TWO_TO_THE_32;
      g_dbGenNum := (g_dbGenNum as int + 1) % TWO_TO_THE_32;
      drawn := drawn + 1;
    }

    // Creates the manager on first use.
    method IsDbNameExist(dbName: CString) returns (r: bool)
      modifies `managed
      ensures managed
      ensures r <==> DbNamed(dbCtrlList, dbName) < |dbCtrlList|
    {
      managed := true;
      r := false;
      for i := 0 to |dbCtrlList|
        invariant i <= DbNamed(dbCtrlList, dbName)
      {
        if dbCtrlList[i].dbName == dbName {
          return true;
        }
      }
    }

    // Index of the database with this name, the list's length if there is none.
    method DmGetDbCtrlByName(dbName: CString) returns (i: nat)
      ensures i == DbNamed(dbCtrlList, dbName)
    {
      i := 0;
      while i < |dbCtrlList|
        invariant i <= DbNamed(dbCtrlList, dbName)
      {
        if dbCtrlList[i].dbName == dbName {
          return;
        }
        i := i + 1;
      }
    }

    // Index of the database with this id, the list's length if there is none.
    method DmGetDbCtrlByDbId(dbId: uint32) returns (i: nat)
      ensures i == DbWithId(dbCtrlList, dbId)
    {
      i := 0;
      while i < |dbCtrlList|
        invariant i <= DbWithId(dbCtrlList, dbId)
      {
        if dbCtrlList[i].dbId == dbId {
          return;
        }
        i := i + 1;
      }
    }

    static method IsLabelNameExist(labelCtrlList: seq<SrLabel>, labelName: CString) returns (r: bool)
      ensures r <==> LabelNamed(labelCtrlList, labelName) < |labelCtrlList|
    {
      for i := 0 to |labelCtrlList|
        invariant i <= LabelNamed(labelCtrlList, labelName)
      {
        if labelCtrlList[i].labelName == labelName {
          return true;
        }
      }
      r := false;
    }

    static method DmGetLabelCtrlByLabelId(labelCtrlList: seq<SrLabel>, labelId: uint32) returns (i: nat)
      ensures i == LabelWithId(labelCtrlList, labelId)
    {
      i := 0;
      while i < |labelCtrlList|
        invariant i <= LabelWithId(labelCtrlList, labelId)
      {
        if labelCtrlList[i].labelId == labelId {
          return;
        }
        i := i + 1;
      }
    }

    method RemoveDbCtrlByName(dbName: CString)
      modifies `dbCtrlList
      ensures var i := DbNamed(old(dbCtrlList), dbName);
              dbCtrlList == if i < |old(dbCtrlList)| then old(dbCtrlList[..i] + dbCtrlList[i + 1..])
                            else old(dbCtrlList)
    {
      for i := 0 to |dbCtrlList|
        invariant dbCtrlList == old(dbCtrlList)
        invariant i <= DbNamed(dbCtrlList, dbName)
      {
        if dbCtrlList[i].dbName == dbName {
          dbCtrlList := dbCtrlList[..i] + dbCtrlList[i + 1..];
          return;
        }
      }
    }

    method DMSrCreateDb(dbName: CString) returns (outcome: Outcome)
      requires Valid()
      modifies this
      ensures Valid()
      ensures (View(), outcome) == CreateDbStep(old(View()), dbName)
    {
      var status := NameStatus(dbName);
      if status != GMERR_OK {
        return Rejected(status);
      }
      var present := IsDbNameExist(dbName);
      if present {
        return Rejected(GMERR_SRDB_NAME_EXISTED);
      }
      var dbId := GenSrDbId();
      dbCtrlList := dbCtrlList + [SrDbCtrl(dbName, dbId, [])];
      outcome := Done(dbId);
    }

    method DMSrDropDb(dbName: CString) returns (outcome: Outcome)
      requires Valid()
      modifies this
      ensures Valid()
      ensures (View(), outcome) == DropDbStep(old(View()), dbName)
    {
      var status := NameStatus(dbName);
      if status != GMERR_OK {
        return Rejected(status);
      }
      var present := IsDbNameExist(dbName);
      if !present {
        return Rejected(GMERR_SRDB_NAME_NOT_EXISTED);
      }
      var dbCtrl := DmGetDbCtrlByName(dbName);
      assert dbCtrl < |dbCtrlList|;   // the second search finds what the first one saw
      RemoveDbCtrlByName(dbName);
      outcome := Done(0);
    }

    // From the parsed field list on.
    method DMSrCreateTable(dbId: uint32, labelName: CString, fields: seq<Field>) returns (outcome: Outcome)
      requires Valid()
      modifies this
      ensures Valid()
      ensures (View(), outcome) == CreateTableStep(old(View()), dbId, labelName, fields)
    {
      if !managed {
        return Aborted;
      }
      var i := DmGetDbCtrlByDbId(dbId);
      if i == |dbCtrlList| {
        return Rejected(GMERR_SRDB_ID_NOT_EXISTED);
      }
      var labels := dbCtrlList[i].labelCtrlList;
      var present := IsLabelNameExist(labels, labelName);
      if present {
        return Rejected(GMERR_SRLABEL_NAME_EXISTED);
      }
      var labelId := GenSrTableId();
      var labelCtrl := SrLabel(labelId, labelName, fields, []);
      dbCtrlList := dbCtrlList[i := dbCtrlList[i].(labelCtrlList := labels + [labelCtrl])];
      outcome := Done(labelId);
    }

    method DMSrInsertData(dbId: uint32, labelId: uint32, insertData: seq<byte>) returns (outcome: Outcome)
      requires Valid()
      modifies this
      ensures Valid()
      ensures (View(), outcome) == InsertRowStep(old(View()), dbId, labelId, insertData)
    {
      if !managed {
        return Aborted;
      }
      var i := DmGetDbCtrlByDbId(dbId);
      if i == |dbCtrlList| {
        return Rejected(GMERR_SRDB_ID_NOT_EXISTED);
      }
      var labels := dbCtrlList[i].labelCtrlList;
      var k := DmGetLabelCtrlByLabelId(labels, labelId);
      if k == |labels| {
        return Rejected(GMERR_SRLABEL_ID_NOT_EXISTED);
      }
      if !RowRoom(labels[k]) {
        return Aborted;
      }
      dbCtrlList := dbCtrlList[i := dbCtrlList[i].(labelCtrlList := labels[k := WithRow(labels[k], insertData)])];
      outcome := Done(0);
    }

    method DMSrQueryTable(dbId: uint32, labelId: uint32) returns (outcome: Outcome, fields: seq<Field>)
      ensures (outcome, fields) == QueryAnswer(View(), dbId, labelId)
    {
      if !managed {
        return Aborted, [];
      }
      var i := DmGetDbCtrlByDbId(dbId);
      if i == |dbCtrlList| {
        return Rejected(GMERR_SRDB_ID_NOT_EXISTED), [];
      }
      var labels := dbCtrlList[i].labelCtrlList;
      var k := DmGetLabelCtrlByLabelId(labels, labelId);
      if k == |labels| {
        return Rejected(GMERR_SRLABEL_ID_NOT_EXISTED), [];
      }
      outcome, fields := Done(0), labels[k].fields;
    }
  }
}
