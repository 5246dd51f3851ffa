/** The database handler, with its three SQLite tables (`employees`, `entry_logs`,
    `exit_logs`) held as sequences of rows in insertion (rowid) order. Timestamps are
    integers in microseconds: SQLite hands back text, but its text order and the
    order of the integers agree. */
module Database {
  import opened Basics
  import opened FaceProcessor

  /** A point in time, in microseconds. */
  type Timestamp = int

  datatype LogKind = Entry | Exit

  /** A row of `employees`. */
  datatype EmployeeRow = EmployeeRow(id: int, instituteId: string, name: string, encoding: Embedding, photo: seq<bv8>)

  /** A row of `entry_logs` or `exit_logs`. */
  datatype LogRow = LogRow(id: int, employeeId: int, employeeName: string, time: Timestamp)

  /** One element of `get_employee_data`: the row without its photo. */
  datatype EmployeeData = EmployeeData(id: int, instituteId: string, name: string, encoding: Embedding)

  /** `last_log_type` (which is also `current_status`) and `last_log_time`. */
  datatype Status = Status(kind: Option<LogKind>, time: Option<Timestamp>)

  /** What `get_employee_details` returns. */
  datatype EmployeeDetails = EmployeeDetails(
    instituteId: string,
    name: string,
    photo: seq<bv8>,
    entryCount: nat,
    exitCount: nat,
    lastLogType: Option<LogKind>,
    lastLogTime: Option<Timestamp>,
    currentStatus: Option<LogKind>)

  function RowId(r: EmployeeRow): int { r.id }
  function RowInstituteId(r: EmployeeRow): string { r.instituteId }
  function LogId(r: LogRow): int { r.id }

  predicate HasInstituteId(rows: seq<EmployeeRow>, instituteId: string)
  {
    exists i :: 0 <= i < |rows| && rows[i].instituteId == instituteId
  }

  /** `SELECT ... FROM employees WHERE employee_institute_id = ?`: the position of the
      first matching row, if any. */
  function FindByInstituteId(rows: seq<EmployeeRow>, instituteId: string): (k: Option<nat>)
    ensures k.None? <==> !HasInstituteId(rows, instituteId)
    ensures k.Some? ==> k.value < |rows| && rows[k.value].instituteId == instituteId
    ensures k.Some? ==> forall j :: 0 <= j < k.value ==> rows[j].instituteId != instituteId
    decreases |rows|
  {
    if rows == [] then None
    else if rows[0].instituteId == instituteId then Some(0)
    else
      match FindByInstituteId(rows[1..], instituteId)
      case None =>
        assert forall i :: 0 < i < |rows| ==> rows[i] == rows[1..][i - 1];
        None
      case Some(k) => Some(k + 1)
  }

  /** `SELECT MAX(time) FROM logs WHERE employee_id = ?`. */
  function LastTime(rows: seq<LogRow>, employeeId: int): Option<Timestamp>
    decreases |rows|
  {
    if rows == [] then None
    else
      var prev := LastTime(rows[..|rows| - 1], employeeId);
      var row := rows[|rows| - 1];
      if row.employeeId != employeeId then prev
      else if prev.None? || row.time > prev.value then Some(row.time)
      else prev
  }

  /** `None` exactly when that employee has no row; otherwise the time of one of that
      employee's rows, and no row of theirs is later. */
  lemma {:induction false} LastTimeIsMax(rows: seq<LogRow>, employeeId: int)
    ensures var last := LastTime(rows, employeeId);
      && (last.None? <==> forall i :: 0 <= i < |rows| ==> rows[i].employeeId != employeeId)
      && (last.Some? ==> exists i :: 0 <= i < |rows| && rows[i].employeeId == employeeId && rows[i].time == last.value)
      && (last.Some? ==> forall i :: 0 <= i < |rows| && rows[i].employeeId == employeeId ==> rows[i].time <= last.value)
    decreases |rows|
  {
    if rows != [] {
      var init := rows[..|rows| - 1];
      LastTimeIsMax(init, employeeId);
      assert forall i :: 0 <= i < |rows| - 1 ==> rows[i] == init[i];
      var prev := LastTime(init, employeeId);
      if rows[|rows| - 1].employeeId == employeeId && prev.Some? && rows[|rows| - 1].time <= prev.value {
        var i :| 0 <= i < |init| && init[i].employeeId == employeeId && init[i].time == prev.value;
        assert rows[i] == init[i];
      }
    }
  }

  /** `SELECT COUNT(*) FROM logs WHERE employee_id = ?`. */
  function CountRows(rows: seq<LogRow>, employeeId: int): (n: nat)
    ensures n <= |rows|
    decreases |rows|
  {
    if rows == [] then 0
    else CountRows(rows[..|rows| - 1], employeeId) + (if rows[|rows| - 1].employeeId == employeeId then 1 else 0)
  }

  /** An employee has log rows exactly when the count is positive, which is exactly
      when the maximum time exists. */
  lemma {:induction false} CountMatchesLastTime(rows: seq<LogRow>, employeeId: int)
    ensures CountRows(rows, employeeId) == 0 <==> LastTime(rows, employeeId).None?
    decreases |rows|
  {
    if rows != [] {
      var init := rows[..|rows| - 1];
      CountMatchesLastTime(init, employeeId);
      assert forall i :: 0 <= i < |rows| - 1 ==> rows[i] == init[i];
    }
  }

  /** Appending one row adds one to its employee's count and nothing to the others'. */
  lemma CountAppend(rows: seq<LogRow>, row: LogRow, employeeId: int)
    ensures CountRows(rows + [row], employeeId) ==
      CountRows(rows, employeeId) + (if row.employeeId == employeeId then 1 else 0)
  {
    assert (rows + [row])[..|rows|] == rows;
  }

  /** The later of two optional timestamps. */
  function Latest(a: Option<Timestamp>, b: Option<Timestamp>): Option<Timestamp>
  {
    if a.None? then b
    else if b.None? then a
    else if a.value >= b.value then a else b
  }

  /** The status derivation of `get_employee_details`: the kind and time of the more
      recent log; an entry must be strictly later than the last exit to count, so
      equal timestamps give `Exit`. */
  function DeriveStatus(lastEntry: Option<Timestamp>, lastExit: Option<Timestamp>): (s: Status)
    ensures s.time == Latest(lastEntry, lastExit)
    ensures s.kind.None? <==> lastEntry.None? && lastExit.None?
    ensures s.kind.None? <==> s.time.None?
    ensures s.kind == Some(Entry) <==> lastEntry.Some? && (lastExit.None? || lastEntry.value > lastExit.value)
    ensures s.kind == Some(Entry) ==> s.time == lastEntry
    ensures s.kind == Some(Exit) ==> s.time == lastExit
  {
    if lastEntry.Some? && (lastExit.None? || lastEntry.value > lastExit.value) then Status(Some(Entry), lastEntry)
    else if lastExit.Some? then Status(Some(Exit), lastExit)
    else Status(None, None)
  }

  /** The `employees` table after `UPDATE employees SET encoding = ? WHERE employee_institute_id = ?`. */
  function SetEncoding(rows: seq<EmployeeRow>, instituteId: string, encoding: Embedding): seq<EmployeeRow>
  {
    seq(|rows|, i requires 0 <= i < |rows| => if rows[i].instituteId == instituteId then rows[i].(encoding := encoding) else rows[i])
  }

  /** Exactly the rows with that institute id get the new encoding; every other
      column and every other row is kept, in place. */
  lemma SetEncodingAt(rows: seq<EmployeeRow>, instituteId: string, encoding: Embedding)
    ensures |SetEncoding(rows, instituteId, encoding)| == |rows|
    ensures forall i :: 0 <= i < |rows| ==>
      SetEncoding(rows, instituteId, encoding)[i] ==
        (if rows[i].instituteId == instituteId then rows[i].(encoding := encoding) else rows[i])
  {
  }

  /** `DELETE FROM logs WHERE employee_id = ?`. */
  function WithoutLogsOf(rows: seq<LogRow>, employeeId: int): (r: seq<LogRow>)
  {
    Filter(rows, (row: LogRow) => row.employeeId != employeeId)
  }

  /** The count is the number of rows that the same `WHERE employee_id = ?` selects. */
  lemma {:induction false} CountRowsIsFilterLength(rows: seq<LogRow>, employeeId: int)
    ensures CountRows(rows, employeeId) == |Filter(rows, (row: LogRow) => row.employeeId == employeeId)|
    decreases |rows|
  {
    if rows != [] {
      var init, last := rows[..|rows| - 1], rows[|rows| - 1];
      assert rows == init + [last];
      CountRowsIsFilterLength(init, employeeId);
      CountAppend(init, last, employeeId);
      FilterAppend(init, [last], (row: LogRow) => row.employeeId == employeeId);
    }
  }

  /** After the cascade's `DELETE FROM logs WHERE employee_id = ?` that employee's
      count is zero and every other employee's count is unchanged. */
  lemma CountAfterDelete(rows: seq<LogRow>, employeeId: int, other: int)
    ensures CountRows(WithoutLogsOf(rows, employeeId), employeeId) == 0
    ensures other != employeeId ==> CountRows(WithoutLogsOf(rows, employeeId), other) == CountRows(rows, other)
  {
    var rest := WithoutLogsOf(rows, employeeId);
    CountMatchesLastTime(rest, employeeId);
    LastTimeIsMax(rest, employeeId);
    if other != employeeId {
      CountRowsIsFilterLength(rest, other);
      CountRowsIsFilterLength(rows, other);
      FilterFilter(rows, (row: LogRow) => row.employeeId != employeeId, (row: LogRow) => row.employeeId == other,
        (row: LogRow) => row.employeeId == other);
    }
  }

  /** `DELETE FROM logs WHERE id = ?`. */
  function WithoutLog(rows: seq<LogRow>, logId: int): (r: seq<LogRow>)
  {
    Filter(rows, (row: LogRow) => row.id != logId)
  }

  /** `DELETE FROM employees WHERE id = ?`. */
  function WithoutEmployee(rows: seq<EmployeeRow>, id: int): (r: seq<EmployeeRow>)
  {
    Filter(rows, (row: EmployeeRow) => row.id != id)
  }

  function ToData(row: EmployeeRow): EmployeeData
  {
    EmployeeData(row.id, row.instituteId, row.name, row.encoding)
  }

  /** The three tables, and the next value of each AUTOINCREMENT key. */
  class Db {
    var employees: seq<EmployeeRow>
    var entryLogs: seq<LogRow>
    var exitLogs: seq<LogRow>
    var nextEmployeeId: int
    var nextEntryLogId: int
    var nextExitLogId: int

    /** The UNIQUE and PRIMARY KEY constraints, and every AUTOINCREMENT counter
        ahead of the keys already used. */
    ghost predicate Valid()
      reads this
    {
      && DistinctBy(employees, RowInstituteId)
      && DistinctBy(employees, RowId)
      && DistinctBy(entryLogs, LogId)
      && DistinctBy(exitLogs, LogId)
      && 0 < nextEmployeeId && 0 < nextEntryLogId && 0 < nextExitLogId
      && (forall i :: 0 <= i < |employees| ==> 0 < employees[i].id < nextEmployeeId)
      && (forall i :: 0 <= i < |entryLogs| ==> 0 < entryLogs[i].id < nextEntryLogId)
      && (forall i :: 0 <= i < |exitLogs| ==> 0 < exitLogs[i].id < nextExitLogId)
    }

    /** `initialize_database` on a fresh file: three empty tables. */
    constructor ()
      ensures Valid()
      ensures employees == [] && entryLogs == [] && exitLogs == []
    {
      employees, entryLogs, exitLogs := [], [], [];
      nextEmployeeId, nextEntryLogId, nextExitLogId := 1, 1, 1;
    }

    /** `save_employee`: the insert succeeds only for an institute id not yet present;
        a duplicate raises the integrity error (here: `saved` is false) and inserts nothing. */
    method SaveEmployee(instituteId: string, name: string, embedding: Embedding, photo: seq<bv8>)
      returns (saved: bool)
      requires Valid()
      modifies this
      ensures Valid()
      ensures saved <==> !HasInstituteId(old(employees), instituteId)
      ensures saved ==> employees == old(employees) + [EmployeeRow(old(nextEmployeeId), instituteId, name, embedding, photo)]
      ensures !saved ==> employees == old(employees) && nextEmployeeId == old(nextEmployeeId)
      ensures saved ==> nextEmployeeId == old(nextEmployeeId) + 1
      ensures nextEntryLogId == old(nextEntryLogId) && nextExitLogId == old(nextExitLogId)
      ensures entryLogs == old(entryLogs) && exitLogs == old(exitLogs)
    {
      if FindByInstituteId(employees, instituteId).Some? {
        return false;
      }
      var row := EmployeeRow(nextEmployeeId, instituteId, name, embedding, photo);
      employees := employees + [row];
      nextEmployeeId := nextEmployeeId + 1;
      saved := true;
    }

    /** `update_employee_embedding`. */
    method UpdateEmployeeEmbedding(instituteId: string, embedding: Embedding)
      requires Valid()
      modifies this`employees
      ensures Valid()
      ensures employees == SetEncoding(old(employees), instituteId, embedding)
    {
      SetEncodingAt(employees, instituteId, embedding);
      employees := SetEncoding(employees, instituteId, embedding);
    }

    /** `log_entry`: one new row in `entry_logs`, stamped with `time`. */
    method LogEntry(employeeId: int, employeeName: string, time: Timestamp)
      requires Valid()
      modifies this`entryLogs, this`nextEntryLogId
      ensures Valid()
      ensures entryLogs == old(entryLogs) + [LogRow(old(nextEntryLogId), employeeId, employeeName, time)]
      ensures nextEntryLogId == old(nextEntryLogId) + 1
    {
      entryLogs := entryLogs + [LogRow(nextEntryLogId, employeeId, employeeName, time)];
      nextEntryLogId := nextEntryLogId + 1;
    }

    /** `log_exit`: one new row in `exit_logs`, stamped with `time`. */
    method LogExit(employeeId: int, employeeName: string, time: Timestamp)
      requires Valid()
      modifies this`exitLogs, this`nextExitLogId
      ensures Valid()
      ensures exitLogs == old(exitLogs) + [LogRow(old(nextExitLogId), employeeId, employeeName, time)]
      ensures nextExitLogId == old(nextExitLogId) + 1
    {
      exitLogs := exitLogs + [LogRow(nextExitLogId, employeeId, employeeName, time)];
      nextExitLogId := nextExitLogId + 1;
    }

    /** `get_employee_data`: every row, in table order, without its photo. */
    method GetEmployeeData() returns (data: seq<EmployeeData>)
      ensures |data| == |employees|
      ensures forall i :: 0 <= i < |data| ==> data[i] == ToData(employees[i])
    {
      data := [];
      var k := 0;
      while k < |employees|
        invariant 0 <= k <= |employees|
        invariant |data| == k
        invariant forall i :: 0 <= i < k ==> data[i] == ToData(employees[i])
      {
        data := data + [ToData(employees[k])];
        k := k + 1;
      }
    }

    /** `get_last_entry`. */
    function GetLastEntry(employeeId: int): Option<Timestamp>
      reads this
    {
      LastTime(entryLogs, employeeId)
    }

    /** `get_last_exit`. */
    function GetLastExit(employeeId: int): Option<Timestamp>
      reads this
    {
      LastTime(exitLogs, employeeId)
    }

    /** `get_employee_details`: `None` for an unknown institute id (the source fails
        there on indexing a missing row). */
    function GetEmployeeDetails(instituteId: string): (d: Option<EmployeeDetails>)
      reads this
      ensures d.None? <==> !HasInstituteId(employees, instituteId)
      ensures d.Some? ==> d.value.instituteId == instituteId && d.value.lastLogType == d.value.currentStatus
    {
      match FindByInstituteId(employees, instituteId)
      case None => None
      case Some(k) =>
        var emp := employees[k];
        var status := DeriveStatus(LastTime(entryLogs, emp.id), LastTime(exitLogs, emp.id));
        Some(EmployeeDetails(emp.instituteId, emp.name, emp.photo,
          CountRows(entryLogs, emp.id), CountRows(exitLogs, emp.id),
          status.kind, status.time, status.kind))
    }

    /** `delete_employee`: an unknown institute id gives `false` and changes nothing;
        otherwise the employee's row and all of its entry and exit rows go, and
        every other row stays in place. */
    method DeleteEmployee(instituteId: string) returns (deleted: bool)
      requires Valid()
      modifies this`employees, this`entryLogs, this`exitLogs
      ensures Valid()
      ensures deleted <==> HasInstituteId(old(employees), instituteId)
      ensures !deleted ==> employees == old(employees) && entryLogs == old(entryLogs) && exitLogs == old(exitLogs)
      ensures deleted ==>
        var id := old(employees)[FindByInstituteId(old(employees), instituteId).value].id;
        && employees == WithoutEmployee(old(employees), id)
        && entryLogs == WithoutLogsOf(old(entryLogs), id)
        && exitLogs == WithoutLogsOf(old(exitLogs), id)
      ensures deleted ==> !HasInstituteId(employees, instituteId)
    {
      var k := FindByInstituteId(employees, instituteId);
      if k.None? {
        return false;
      }
      var id := employees[k.value].id;
      RemovalKeepsKeys(this, id);
      NoOtherRowHasInstituteId(employees, k.value, id);
      entryLogs := WithoutLogsOf(entryLogs, id);
      exitLogs := WithoutLogsOf(exitLogs, id);
      employees := WithoutEmployee(employees, id);
      deleted := true;
    }

    /** `delete_entry_log`: the row with that key goes, the others stay. */
    method DeleteEntryLog(logId: int) returns (ok: bool)
      requires Valid()
      modifies this`entryLogs
      ensures Valid() && ok
      ensures entryLogs == WithoutLog(old(entryLogs), logId)
    {
      FilterKeepsDistinct(entryLogs, (r: LogRow) => r.id != logId, LogId);
      entryLogs := WithoutLog(entryLogs, logId);
      ok := true;
    }

    /** `delete_exit_log`: the row with that key goes, the others stay. */
    method DeleteExitLog(logId: int) returns (ok: bool)
      requires Valid()
      modifies this`exitLogs
      ensures Valid() && ok
      ensures exitLogs == WithoutLog(old(exitLogs), logId)
    {
      FilterKeepsDistinct(exitLogs, (r: LogRow) => r.id != logId, LogId);
      exitLogs := WithoutLog(exitLogs, logId);
      ok := true;
    }
  }

  /** The cascade delete keeps every key unique. */
  lemma RemovalKeepsKeys(db: Db, id: int)
    requires db.Valid()
    ensures DistinctBy(WithoutLogsOf(db.entryLogs, id), LogId)
    ensures DistinctBy(WithoutLogsOf(db.exitLogs, id), LogId)
    ensures DistinctBy(WithoutEmployee(db.employees, id), RowId)
    ensures DistinctBy(WithoutEmployee(db.employees, id), RowInstituteId)
  {
    FilterKeepsDistinct(db.entryLogs, (row: LogRow) => row.employeeId != id, LogId);
    FilterKeepsDistinct(db.exitLogs, (row: LogRow) => row.employeeId != id, LogId);
    FilterKeepsDistinct(db.employees, (row: EmployeeRow) => row.id != id, RowId);
    FilterKeepsDistinct(db.employees, (row: EmployeeRow) => row.id != id, RowInstituteId);
  }

  /** With unique institute ids and unique keys, removing the row at `k` by its key
      removes every row with its institute id. */
  lemma NoOtherRowHasInstituteId(rows: seq<EmployeeRow>, k: nat, id: int)
    requires k < |rows| && rows[k].id == id
    requires DistinctBy(rows, RowInstituteId)
    ensures !HasInstituteId(WithoutEmployee(rows, id), rows[k].instituteId)
  {
    var after := WithoutEmployee(rows, id);
    forall i | 0 <= i < |after|
      ensures after[i].instituteId != rows[k].instituteId
    {
      var j :| 0 <= j < |rows| && rows[j] == after[i];
      if j != k {
        assert RowInstituteId(rows[j]) != RowInstituteId(rows[k]) by {
          if j < k { } else { }
        }
      }
    }
  }

  /** Removing the row at `k` by its key keeps every row with another institute id,
      and keeps nothing that was not there. */
  lemma RemovalKeepsOthers(rows: seq<EmployeeRow>, k: nat, id: int)
    requires k < |rows| && rows[k].id == id
    requires DistinctBy(rows, RowId)
    ensures forall j :: 0 <= j < |rows| && rows[j].instituteId != rows[k].instituteId ==> rows[j] in WithoutEmployee(rows, id)
    ensures forall r :: r in WithoutEmployee(rows, id) ==> r in rows
  {
    forall j | 0 <= j < |rows| && rows[j].instituteId != rows[k].instituteId
      ensures rows[j] in WithoutEmployee(rows, id)
    {
      assert RowId(rows[j]) != RowId(rows[k]) by {
        if j < k { } else { }
      }
    }
  }

  /** The details of a known employee: counts are the numbers of log rows, and the
      status is the kind of the later of the last entry and the last exit. */
  lemma DetailsOfKnownEmployee(db: Db, instituteId: string, k: nat)
    requires k < |db.employees| && db.employees[k].instituteId == instituteId
    requires DistinctBy(db.employees, RowInstituteId)
    ensures
      var id := db.employees[k].id;
      var d := db.GetEmployeeDetails(instituteId);
      && d.Some?
      && d.value.name == db.employees[k].name
      && d.value.entryCount == CountRows(db.entryLogs, id)
      && d.value.exitCount == CountRows(db.exitLogs, id)
      && d.value.lastLogTime == Latest(LastTime(db.entryLogs, id), LastTime(db.exitLogs, id))
      && (d.value.currentStatus == Some(Entry) <==>
           LastTime(db.entryLogs, id).Some? &&
           (LastTime(db.exitLogs, id).None? || LastTime(db.entryLogs, id).value > LastTime(db.exitLogs, id).value))
      && (d.value.currentStatus.None? <==> d.value.entryCount == 0 && d.value.exitCount == 0)
  {
    var found := FindByInstituteId(db.employees, instituteId);
    assert found == Some(k);
    var id := db.employees[k].id;
    CountMatchesLastTime(db.entryLogs, id);
    CountMatchesLastTime(db.exitLogs, id);
  }
}
