/** The table pam_status: sqlite_client.c, and its wrappers in pam_register_var.c.

    A parameter opens says whether the database can be opened; the statements that
    follow succeed. */
module StatusTable {
  import opened Bytes
  import opened OrderedMap

  datatype Row = Row(id: int, user: bytes, otp: Option<bytes>, timestamp: int)

  datatype Column = UserColumn | OtpColumn | TimestampColumn

  const VAR_MAXLEN: nat := 32

  // id is the primary key, and rows are visited in its order.
  predicate Keyed(rows: seq<Row>) {
    && (forall i :: 0 <= i < |rows| ==> rows[i].id > 0)
    && forall i, j :: 0 <= i < j < |rows| ==> rows[i].id < rows[j].id
  }

  // The row that serves a user: the last one
  function Find(rows: seq<Row>, user: bytes): (r: Option<Row>)
    ensures r.Some? ==> r.value in rows && r.value.user == user
    ensures r.None? ==> forall i :: 0 <= i < |rows| ==> rows[i].user != user
  {
    if rows == [] then None
    else
      var last := |rows| - 1;
      if rows[last].user == user then Some(rows[last]) else Find(rows[..last], user)
  }

  function IdOf(r: Option<Row>): int {
    match r case None => 0 case Some(row) => row.id
  }

  function NextId(rows: seq<Row>): int {
    if rows == [] then 1 else rows[|rows| - 1].id + 1
  }

  function Inserted(rows: seq<Row>, user: bytes, timestamp: int): seq<Row> {
    rows + [Row(NextId(rows), user, None, timestamp)]
  }

  function Purged(rows: seq<Row>, time: int): seq<Row> {
    if rows == [] then []
    else
      var last := |rows| - 1;
      Purged(rows[..last], time) + if rows[last].timestamp < time then [] else [rows[last]]
  }

  function WithOtp(rows: seq<Row>, id: int, otp: bytes): (r: seq<Row>)
    ensures |r| == |rows|
    ensures forall i :: 0 <= i < |r| ==> r[i] == if rows[i].id == id then rows[i].(otp := Some(otp)) else rows[i]
  {
    seq(|rows|, i requires 0 <= i < |rows| => if rows[i].id == id then rows[i].(otp := Some(otp)) else rows[i])
  }

  // What callback_data_str leaves in the caller's buffer
  function Copied(s: bytes): bytes {
    if |s| < VAR_MAXLEN then s else s[..VAR_MAXLEN]
  }

  function TextOf(r: Row, column: Column): Option<bytes> {
    match column
    case UserColumn => Some(Copied(r.user))
    case OtpColumn => (match r.otp case None => None case Some(s) => Some(Copied(s)))
    case TimestampColumn => None
  }

  function ColumnText(rows: seq<Row>, user: bytes, column: Column): Option<bytes> {
    match Find(rows, user) case None => None case Some(r) => TextOf(r, column)
  }

  function IsRegistered(rows: seq<Row>, user: bytes, column: Column): bool {
    match Find(rows, user)
    case None => false
    case Some(r) => if column == TimestampColumn then r.timestamp > 0 else TextOf(r, column).Some?
  }

  // ---- the laws of the table ----

  // The last row of the user serves him.
  lemma {:induction false} FindIsLast(rows: seq<Row>, user: bytes, i: nat)
    requires i < |rows| && rows[i].user == user && forall j :: i < j < |rows| ==> rows[j].user != user
    ensures Find(rows, user) == Some(rows[i])
  {
    var last := |rows| - 1;
    if i < last {
      FindIsLast(rows[..last], user, i);
    }
  }

  // Which columns count as registered, and what is read from the otp: 32 characters at most
  lemma ColumnsAre(rows: seq<Row>, user: bytes)
    ensures var r := Find(rows, user);
            && (IsRegistered(rows, user, UserColumn) <==> r.Some?)
            && (IsRegistered(rows, user, OtpColumn) <==> r.Some? && r.value.otp.Some?)
            && (IsRegistered(rows, user, TimestampColumn) <==> r.Some? && r.value.timestamp > 0)
    ensures var r, text := Find(rows, user), ColumnText(rows, user, OtpColumn);
            && (text.Some? <==> r.Some? && r.value.otp.Some?)
            && (text.Some? ==>
                 var otp := r.value.otp.value;
                 text.value <= otp && |text.value| == if |otp| < 32 then |otp| else 32)
  {
    hide Find;
  }

  // Exactly the rows with a timestamp below the time are gone.
  lemma {:induction false} PurgedRows(rows: seq<Row>, time: int, r: Row)
    ensures r in Purged(rows, time) <==> r in rows && r.timestamp >= time
  {
    if rows != [] {
      var front, last := rows[..|rows| - 1], rows[|rows| - 1];
      PurgedRows(front, time, r);
      assert rows == front + [last];
    }
  }

  lemma {:induction false} PurgedIsKeyed(rows: seq<Row>, time: int)
    requires Keyed(rows)
    ensures Keyed(Purged(rows, time))
  {
    if rows != [] {
      var front, last := rows[..|rows| - 1], rows[|rows| - 1];
      PurgedIsKeyed(front, time);
      hide Purged;
      forall i | 0 <= i < |Purged(front, time)| ensures Purged(front, time)[i].id < last.id {
        PurgedRows(front, time, Purged(front, time)[i]);
        var j :| 0 <= j < |front| && front[j] == Purged(front, time)[i];
        assert rows[j].id < rows[|rows| - 1].id;
      }
      PurgedStep(rows, time);
    }
  }

  lemma PurgedStep(rows: seq<Row>, time: int)
    requires rows != []
    ensures var front, last := rows[..|rows| - 1], rows[|rows| - 1];
            Purged(rows, time) == Purged(front, time) + if last.timestamp < time then [] else [last]
  {
  }

  lemma InsertedIsKeyed(rows: seq<Row>, user: bytes, timestamp: int)
    requires Keyed(rows)
    ensures Keyed(Inserted(rows, user, timestamp))
    ensures forall r :: r in rows ==> r.id < NextId(rows)
  {
    forall r | r in rows ensures r.id < NextId(rows) {
      var i :| 0 <= i < |rows| && rows[i] == r;
      assert i < |rows| - 1 ==> rows[i].id < rows[|rows| - 1].id;
    }
    var last := Row(NextId(rows), user, None, timestamp);
    forall i, j | 0 <= i < j < |rows| + 1 ensures (rows + [last])[i].id < (rows + [last])[j].id {
      assert rows[i] in rows;
    }
  }

  lemma OnlyRowWithItsKey(rows: seq<Row>, r: Row, r': Row)
    requires Keyed(rows) && r in rows && r' in rows && r.id == r'.id
    ensures r == r'
  {
    var i :| 0 <= i < |rows| && rows[i] == r;
    var j :| 0 <= j < |rows| && rows[j] == r';
  }

  lemma InsertedIsFound(rows: seq<Row>, user: bytes, timestamp: int)
    ensures Find(Inserted(rows, user, timestamp), user) == Some(Row(NextId(rows), user, None, timestamp))
  {
  }

  lemma WithOtpIsKeyed(rows: seq<Row>, id: int, otp: bytes)
    requires Keyed(rows)
    ensures Keyed(WithOtp(rows, id, otp))
    ensures OneRowEach(rows) ==> OneRowEach(WithOtp(rows, id, otp))
  {
  }

  lemma {:induction false} FindWithOtp(rows: seq<Row>, user: bytes, id: int, otp: bytes)
    requires Find(rows, user).Some?
    ensures Find(WithOtp(rows, id, otp), user)
         == var r := Find(rows, user).value; Some(if r.id == id then r.(otp := Some(otp)) else r)
  {
    var last := |rows| - 1;
    if rows[last].user != user {
      FindWithOtp(rows[..last], user, id, otp);
      assert WithOtp(rows, id, otp)[..last] == WithOtp(rows[..last], id, otp);
    }
  }

  // Each user has one row, as far as an insertion comes only when there is none.
  predicate OneRowEach(rows: seq<Row>) {
    forall i, j :: 0 <= i < j < |rows| ==> rows[i].user != rows[j].user
  }

  lemma InsertionKeepsOneRowEach(rows: seq<Row>, user: bytes, timestamp: int)
    requires OneRowEach(rows)
    ensures OneRowEach(Inserted(rows, user, timestamp)) <==> Find(rows, user) == None
  {
    var after := Inserted(rows, user, timestamp);
    if Find(rows, user).Some? {
      var i :| 0 <= i < |rows| && rows[i] == Find(rows, user).value;
      assert after[i].user == after[|rows|].user;
    }
  }

  lemma {:induction false} FindIsTheRow(rows: seq<Row>, i: nat)
    requires OneRowEach(rows) && i < |rows|
    ensures Find(rows, rows[i].user) == Some(rows[i])
  {
    var last := |rows| - 1;
    if i < last {
      FindIsTheRow(rows[..last], i);
    }
  }

  lemma {:induction false} PurgedKeepsOneRowEach(rows: seq<Row>, time: int)
    requires OneRowEach(rows)
    ensures OneRowEach(Purged(rows, time))
  {
    if rows != [] {
      var last := |rows| - 1;
      PurgedKeepsOneRowEach(rows[..last], time);
      forall x | x in Purged(rows[..last], time) ensures x.user != rows[last].user {
        PurgedRows(rows[..last], time, x);
        var i :| 0 <= i < last && rows[..last][i] == x;
        assert rows[i].user != rows[last].user;
      }
    }
  }

  // The update has gone through the first n rows.
  ghost predicate PartWithOtp(was: seq<Row>, rows: seq<Row>, id: int, otp: bytes, n: nat)
    ensures PartWithOtp(was, rows, id, otp, n) ==> |rows| == |was|
    ensures n == 0 && rows == was ==> PartWithOtp(was, rows, id, otp, n)
  {
    |rows| == |was| && forall j :: 0 <= j < |was| ==> rows[j] == if j < n then WithOtp(was, id, otp)[j] else was[j]
  }

  lemma NextWithOtp(was: seq<Row>, rows: seq<Row>, id: int, otp: bytes, n: nat)
    requires PartWithOtp(was, rows, id, otp, n) && n < |was|
    ensures PartWithOtp(was, if rows[n].id == id then rows[n := rows[n].(otp := Some(otp))] else rows, id, otp, n + 1)
  {
    hide WithOtp;
  }

  lemma WholeWithOtp(was: seq<Row>, rows: seq<Row>, id: int, otp: bytes)
    requires PartWithOtp(was, rows, id, otp, |was|)
    ensures rows == WithOtp(was, id, otp)
  {
    hide WithOtp;
  }

  // ---- sqlite_client.c ----

  class Table {
    var rows: seq<Row>

    ghost predicate Valid()
      reads this
    {
      Keyed(rows)
    }

    constructor ()
      ensures Valid() && rows == []
    {
      rows := [];
    }

    // sqlite_get_next_rowid: max(id) is NULL in an empty table, and id keeps its 0.
    method GetNextRowid() returns (rowid: int)
      requires Valid()
      ensures rowid == NextId(rows) && forall r :: r in rows ==> r.id < rowid
      ensures if rows == [] then rowid == 1 else rows[|rows| - 1].id == rowid - 1
    {
      var id := 0;
      for i := 0 to |rows|
        invariant id == if i == 0 then 0 else rows[i - 1].id
      {
        if rows[i].id > id {
          id := rows[i].id;
        }
      }
      InsertedIsKeyed(rows, [], 0);
      rowid := id + 1;
    }

    // sqlite_get_rowid: the callback overwrites its result for every row found.
    method GetRowid(user: bytes) returns (id: int)
      requires Valid()
      ensures id == IdOf(Find(rows, user))
    {
      id := 0;
      assert rows[..|rows|] == rows;
      for i := 0 to |rows|
        invariant id == IdOf(Find(rows[..i], user))
      {
        assert rows[..i + 1][..i] == rows[..i];
        if rows[i].user == user {
          id := rows[i].id;
        }
      }
    }

    // sqlite_insert_row
    method InsertRow(user: bytes, timestamp: int, opens: bool) returns (ret: int)
      requires Valid()
      modifies this
      ensures Valid() && ret == if opens then 0 else -1
      ensures rows == if opens then Inserted(old(rows), user, timestamp) else old(rows)
    {
      if !opens {
        return -1;
      }
      var rowid := GetNextRowid();
      InsertedIsKeyed(rows, user, timestamp);
      rows := rows + [Row(rowid, user, None, timestamp)];
      ret := 0;
    }

    // sqlite_get_col_str
    method GetColStr(user: bytes, column: Column, opens: bool) returns (value: Option<bytes>)
      requires Valid() && column != TimestampColumn
      ensures value == if opens then ColumnText(rows, user, column) else None
    {
      if !opens {
        return None;
      }
      var rowid := GetRowid(user);
      if rowid <= 0 {
        return None;
      }
      value := None;
      for i := 0 to |rows|
        invariant forall j :: 0 <= j < i && rows[j].id == rowid ==> value == TextOf(rows[j], column)
      {
        if rows[i].id == rowid {
          value := TextOf(rows[i], column);
          if value == None {  // SQLITE_ABORT
            break;
          }
        }
      }
    }

    // sqlite_get_col_int for the column timestamp
    method GetTimestamp(user: bytes, opens: bool) returns (ret: int)
      requires Valid()
      ensures ret == if !opens then -1 else match Find(rows, user) case None => -2 case Some(r) => r.timestamp
    {
      if !opens {
        return -1;
      }
      var rowid := GetRowid(user);
      if rowid <= 0 {
        return -2;
      }
      ret := 0;
      for i := 0 to |rows|
        invariant forall j :: 0 <= j < i && rows[j].id == rowid ==> ret == rows[j].timestamp
      {
        if rows[i].id == rowid {
          ret := rows[i].timestamp;
        }
      }
    }

    // sqlite_set_col_str for the column otp
    method SetOtp(user: bytes, value: bytes, opens: bool) returns (ret: int)
      requires Valid()
      modifies this
      ensures Valid() && ret == if !opens then -1 else if Find(old(rows), user) == None then -2 else 0
      ensures rows == if ret == 0 then WithOtp(old(rows), Find(old(rows), user).value.id, value) else old(rows)
    {
      if !opens {
        return -1;
      }
      var rowid := GetRowid(user);
      if rowid <= 0 {
        return -2;
      }
      ghost var was := rows;
      WithOtpIsKeyed(was, rowid, value);
      hide Find, Keyed, WithOtp, PartWithOtp;
      for i := 0 to |rows|
        invariant PartWithOtp(was, rows, rowid, value, i)
      {
        NextWithOtp(was, rows, rowid, value, i);
        if rows[i].id == rowid {
          rows := rows[i := rows[i].(otp := Some(value))];
        }
      }
      WholeWithOtp(was, rows, rowid, value);
      ret := 0;
    }

    // sqlite_purge_table
    method PurgeTable(time: int, opens: bool) returns (ret: int)
      requires Valid()
      modifies this
      ensures Valid() && ret == if opens then 0 else -1
      ensures rows == if opens then Purged(old(rows), time) else old(rows)
    {
      if !opens {
        return -1;
      }
      var kept: seq<Row> := [];
      for i := 0 to |rows|
        invariant rows == old(rows) && kept == Purged(rows[..i], time)
      {
        assert rows[..i + 1][..i] == rows[..i];
        if rows[i].timestamp >= time {
          kept := kept + [rows[i]];
        }
      }
      assert rows[..|rows|] == rows;
      PurgedIsKeyed(rows, time);
      rows := kept;
      ret := 0;
    }

    // sqlite_is_field_empty
    method IsFieldEmpty(user: bytes, column: Column, opens: bool) returns (ret: int)
      requires Valid()
      ensures ret == if opens && IsRegistered(rows, user, column) then 0 else 1
    {
      if column == TimestampColumn {
        var t := GetTimestamp(user, opens);
        if t <= 0 {
          return 1;
        }
      } else {
        var s := GetColStr(user, column, opens);
        if s == None {
          return 1;
        }
      }
      ret := 0;
    }

    // ---- pam_register_var.c: here 1 is success ----

    method IsRegisteredVar(user: bytes, column: Column, opens: bool) returns (ret: int)
      requires Valid()
      ensures ret == if opens && IsRegistered(rows, user, column) then 1 else 0
    {
      var empty := IsFieldEmpty(user, column, opens);
      ret := if empty == 0 then 1 else 0;
    }

    method RegisterInit(user: bytes, timestamp: int, opens: bool) returns (ret: int)
      requires Valid()
      modifies this
      ensures Valid() && ret == if opens then 1 else 0
      ensures rows == if opens then Inserted(old(rows), user, timestamp) else old(rows)
    {
      var failed := InsertRow(user, timestamp, opens);
      ret := if failed != 0 then 0 else 1;
    }

    method RegisterOtp(user: bytes, value: bytes, opens: bool) returns (ret: int)
      requires Valid()
      modifies this
      ensures Valid() && ret == if opens && Find(old(rows), user).Some? then 1 else 0
      ensures rows == if ret == 1 then WithOtp(old(rows), Find(old(rows), user).value.id, value) else old(rows)
    {
      var failed := SetOtp(user, value, opens);
      ret := if failed != 0 then 0 else 1;
    }

    method UnregisterExpirVars(time: int, opens: bool) returns (ret: int)
      requires Valid()
      modifies this
      ensures Valid() && ret == if opens then 1 else 0
      ensures rows == if opens then Purged(old(rows), time) else old(rows)
    {
      var failed := PurgeTable(time, opens);
      ret := if failed != 0 then 0 else 1;
    }

    method GetOtp(user: bytes, opens: bool) returns (otp: Option<bytes>)
      requires Valid()
      ensures otp == if opens then ColumnText(rows, user, OtpColumn) else None
    {
      otp := GetColStr(user, OtpColumn, opens);
    }
  }
}
