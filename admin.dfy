/** The pure rules of the admin panel: the time-since-last-log display, the
    case-insensitive institute-id search, the status label and the registration
    gates. */
module Admin {
  import opened Basics
  import opened Text
  import opened Database
  import opened Recognition
  import opened FaceProcessor
  import opened Registrar

  /** Hours, minutes and seconds of an elapsed time, as the two `divmod`s give them. */
  datatype Elapsed = Elapsed(hours: int, minutes: int, seconds: int)

  /** `int(delta.total_seconds())`: a time difference in microseconds, truncated
      toward zero to whole seconds (Python's `int` on a float). */
  function TotalSeconds(deltaMicros: int): (t: int)
    ensures deltaMicros >= 0 ==> 0 <= t && t * 1000000 <= deltaMicros < (t + 1) * 1000000
    ensures deltaMicros < 0 ==> t <= 0 && (t - 1) * 1000000 < deltaMicros <= t * 1000000
  {
    if deltaMicros >= 0 then deltaMicros / 1000000 else -((-deltaMicros) / 1000000)
  }

  /** `hours, remainder = divmod(total, 3600)` then `minutes, seconds = divmod(remainder, 60)`.
      Python floors and so does Dafny for a positive divisor, negative totals included. */
  function SplitElapsed(total: int): (e: Elapsed)
    ensures e.hours * 3600 + e.minutes * 60 + e.seconds == total
    ensures 0 <= e.minutes < 60 && 0 <= e.seconds < 60
  {
    var hours := total / 3600;
    var remainder := total % 3600;
    Elapsed(hours, remainder / 60, remainder % 60)
  }

  /** A quotient and remainder by 60 with the remainder in range are the floor ones. */
  lemma DivMod60Unique(a: int, q: int, r: int)
    requires 0 <= r < 60 && a == q * 60 + r
    ensures q == a / 60 && r == a % 60
  {
  }

  /** The same for 3600. */
  lemma DivMod3600Unique(a: int, q: int, r: int)
    requires 0 <= r < 3600 && a == q * 3600 + r
    ensures q == a / 3600 && r == a % 3600
  {
  }

  /** The split is the only one with minutes and seconds in [0, 60). */
  lemma SplitElapsedUnique(total: int, e: Elapsed)
    requires e.hours * 3600 + e.minutes * 60 + e.seconds == total
    requires 0 <= e.minutes < 60 && 0 <= e.seconds < 60
    ensures e == SplitElapsed(total)
  {
    DivMod3600Unique(total, e.hours, e.minutes * 60 + e.seconds);
    DivMod60Unique(total % 3600, e.minutes, e.seconds);
  }

  /** The plural ending of the display: "s" unless the count is exactly 1. */
  function PluralS(count: int): string
  {
    if count != 1 then "s" else ""
  }

  /** `f"{hours} hour{s} and {minutes} minute{s}"`. */
  function TimeDisplay(total: int): string
  {
    var e := SplitElapsed(total);
    IntToString(e.hours) + (" hour" + PluralS(e.hours) + (" and " + (IntToString(e.minutes) + (" minute" + PluralS(e.minutes)))))
  }

  /** The line the details view adds when there is a last log time: the time since
      that log, `now` being the clock at rendering. */
  function ElapsedLine(lastLogTime: Option<Timestamp>, now: Timestamp): (line: Option<string>)
    ensures line.Some? <==> lastLogTime.Some?
  {
    if lastLogTime.None? then None
    else Some("Time since last log: " + TimeDisplay(TotalSeconds(now - lastLogTime.value)))
  }

  predicate NoSpace(s: string)
  {
    forall i :: 0 <= i < |s| ==> s[i] != ' '
  }

  lemma IntToStringNoSpace(n: int)
    ensures NoSpace(IntToString(n))
  {
    var s := IntToString(n);
    if n < 0 {
      assert s[1..] == NatToString(-n);
      forall i | 0 <= i < |s|
        ensures s[i] != ' '
      {
        if i > 0 {
          assert s[i] == NatToString(-n)[i - 1];
        }
      }
    }
  }

  /** A word without spaces followed by text starting with a space splits back
      uniquely. */
  lemma SplitAtSpace(a: string, x: string, b: string, y: string)
    requires NoSpace(a) && NoSpace(b)
    requires |x| > 0 && x[0] == ' ' && |y| > 0 && y[0] == ' '
    requires a + x == b + y
    ensures a == b && x == y
  {
    assert a == (a + x)[..|a|];
    assert b == (b + y)[..|b|];
    assert x == (a + x)[|a|..];
    assert y == (b + y)[|b|..];
  }

  /** Removing a common prefix. */
  lemma DropCommonPrefix(p: string, x: string, y: string)
    requires p + x == p + y
    ensures x == y
  {
    assert x == (p + x)[|p|..];
    assert y == (p + y)[|p|..];
  }

  /** The display shows the whole minutes and nothing else: two totals give the same
      text exactly when they fall in the same minute (the seconds are dropped, and
      hours and minutes can be read back). */
  lemma TimeDisplayShowsWholeMinutes(a: int, b: int)
    ensures TimeDisplay(a) == TimeDisplay(b) <==> a / 60 == b / 60
  {
    var ea, eb := SplitElapsed(a), SplitElapsed(b);
    DivMod60Unique(a, ea.hours * 60 + ea.minutes, ea.seconds);
    DivMod60Unique(b, eb.hours * 60 + eb.minutes, eb.seconds);
    if TimeDisplay(a) == TimeDisplay(b) {
      var xa := " hour" + PluralS(ea.hours) + (" and " + (IntToString(ea.minutes) + (" minute" + PluralS(ea.minutes))));
      var xb := " hour" + PluralS(eb.hours) + (" and " + (IntToString(eb.minutes) + (" minute" + PluralS(eb.minutes))));
      IntToStringNoSpace(ea.hours);
      IntToStringNoSpace(eb.hours);
      SplitAtSpace(IntToString(ea.hours), xa, IntToString(eb.hours), xb);
      IntToStringInjective(ea.hours, eb.hours);
      var p := " hour" + PluralS(ea.hours) + " and ";
      assert xa == p + (IntToString(ea.minutes) + (" minute" + PluralS(ea.minutes)));
      assert xb == p + (IntToString(eb.minutes) + (" minute" + PluralS(eb.minutes)));
      DropCommonPrefix(p, IntToString(ea.minutes) + (" minute" + PluralS(ea.minutes)), IntToString(eb.minutes) + (" minute" + PluralS(eb.minutes)));
      IntToStringNoSpace(ea.minutes);
      IntToStringNoSpace(eb.minutes);
      SplitAtSpace(IntToString(ea.minutes), " minute" + PluralS(ea.minutes), IntToString(eb.minutes), " minute" + PluralS(eb.minutes));
      IntToStringInjective(ea.minutes, eb.minutes);
    }
    if a / 60 == b / 60 {
      DivMod60Unique(a / 60, ea.hours, ea.minutes);
      DivMod60Unique(b / 60, eb.hours, eb.minutes);
    }
  }

  /** One hour and no minutes read "1 hour and 0 minutes": the singular appears
      for a count of exactly one, and a count of zero takes the plural. */
  lemma TimeDisplayOneHour()
    ensures TimeDisplay(3600) == "1 hour and 0 minutes"
  {
    assert SplitElapsed(3600) == Elapsed(1, 0, 0);
    assert DigitChar(0) == '0' && DigitChar(1) == '1';
    assert IntToString(1) == "1" && IntToString(0) == "0";
    assert PluralS(1) == "" && PluralS(0) == "s";
  }

  /** Two hours, one minute and 59 seconds read "2 hours and 1 minute". */
  lemma TimeDisplayDropsSeconds()
    ensures TimeDisplay(7319) == "2 hours and 1 minute"
  {
    assert SplitElapsed(7319) == Elapsed(2, 1, 59);
    assert DigitChar(1) == '1' && DigitChar(2) == '2';
    assert IntToString(2) == "2" && IntToString(1) == "1";
    assert PluralS(2) == "s" && PluralS(1) == "";
  }

  /** The search test of `view_employees` and `delete_employee`: the lower-cased
      search text occurs in the lower-cased institute id. */
  predicate MatchesSearch(search: string, e: EmployeeData)
  {
    Contains(Lower(e.instituteId), Lower(search))
  }

  /** The list comprehension that filters the employees by the search text. */
  function SearchFilter(employees: seq<EmployeeData>, search: string): seq<EmployeeData>
  {
    Filter(employees, (e: EmployeeData) => MatchesSearch(search, e))
  }

  /** The search keeps exactly the employees whose institute id contains the search
      text, ignoring ASCII case, in their original order. */
  lemma SearchFilterKeeps(a: seq<EmployeeData>, b: seq<EmployeeData>, search: string)
    ensures forall i :: 0 <= i < |SearchFilter(a, search)| ==>
      SearchFilter(a, search)[i] in a && MatchesSearch(search, SearchFilter(a, search)[i])
    ensures forall i :: 0 <= i < |a| && MatchesSearch(search, a[i]) ==> a[i] in SearchFilter(a, search)
    ensures SearchFilter(a + b, search) == SearchFilter(a, search) + SearchFilter(b, search)
  {
    FilterAppend(a, b, (e: EmployeeData) => MatchesSearch(search, e));
  }

  /** An empty search keeps everyone. */
  lemma EmptySearchKeepsAll(employees: seq<EmployeeData>)
    ensures SearchFilter(employees, "") == employees
  {
    forall i | 0 <= i < |employees|
      ensures MatchesSearch("", employees[i])
    {
      ContainsEmpty(Lower(employees[i].instituteId));
    }
    FilterAll(employees, (e: EmployeeData) => MatchesSearch("", e));
  }

  lemma LowerIdempotent(s: string)
    ensures Lower(Lower(s)) == Lower(s)
  {
  }

  /** Searching for a text and for its lower-cased form finds the same employees. */
  lemma SearchIgnoresCase(employees: seq<EmployeeData>, search: string)
    ensures SearchFilter(employees, Lower(search)) == SearchFilter(employees, search)
  {
    LowerIdempotent(search);
    FilterCongruent(employees, (e: EmployeeData) => MatchesSearch(Lower(search), e), (e: EmployeeData) => MatchesSearch(search, e));
  }

  /** The "Current Status" line of the details view. */
  function StatusLabel(currentStatus: Option<LogKind>): (shown: string)
    ensures shown == "Inside Campus" || shown == "Outside Campus"
  {
    if currentStatus == Some(Entry) then "Inside Campus" else "Outside Campus"
  }

  /** The panel and the recognition app agree: the panel shows someone inside
      exactly when their next recognised arrival would be logged as an exit, and
      outside (including never logged) exactly when it would be an entry. */
  lemma StatusLabelMatchesNextLog(lastEntry: Option<Timestamp>, lastExit: Option<Timestamp>)
    ensures StatusLabel(DeriveStatus(lastEntry, lastExit).kind) == "Inside Campus" <==>
      ChooseLogType(lastEntry, lastExit) == Exit
    ensures StatusLabel(DeriveStatus(lastEntry, lastExit).kind) == "Outside Campus" <==>
      ChooseLogType(lastEntry, lastExit) == Entry
  {
    ChooseLogTypeFlipsStatus(lastEntry, lastExit);
  }

  /** The two ways the panel registers an employee. */
  datatype RegistrationMethod = UploadPhotos | LiveCapture

  /** The upload path runs only when "Register" is clicked, both fields are filled
      in and exactly ten files are uploaded. */
  predicate UploadGate(clicked: bool, name: string, instituteId: string, uploads: nat)
  {
    clicked && name != "" && instituteId != "" && uploads == 10
  }

  /** The live path runs only when "Start Live Registration" is clicked and both
      fields are filled in. */
  predicate LiveGate(clicked: bool, name: string, instituteId: string)
  {
    clicked && name != "" && instituteId != ""
  }

  /** The rows left after deleting every log whose key is selected. */
  function WithoutLogs(rows: seq<LogRow>, logIds: seq<int>): seq<LogRow>
  {
    Filter(rows, (r: LogRow) => r.id !in logIds)
  }

  /** Deleting the selected logs removes exactly them: no remaining row has a
      selected key, every unselected row stays, in order. */
  lemma WithoutLogsSpec(rows: seq<LogRow>, logIds: seq<int>, more: seq<LogRow>)
    ensures forall i :: 0 <= i < |WithoutLogs(rows, logIds)| ==>
      WithoutLogs(rows, logIds)[i].id !in logIds && WithoutLogs(rows, logIds)[i] in rows
    ensures forall i :: 0 <= i < |rows| && rows[i].id !in logIds ==> rows[i] in WithoutLogs(rows, logIds)
    ensures WithoutLogs(rows + more, logIds) == WithoutLogs(rows, logIds) + WithoutLogs(more, logIds)
  {
    FilterAppend(rows, more, (r: LogRow) => r.id !in logIds);
  }

  /** With nothing selected yet, every row stays. */
  lemma NothingSelected(rows: seq<LogRow>, logIds: seq<int>)
    ensures WithoutLogs(rows, logIds[..0]) == rows
  {
    FilterAll(rows, (r: LogRow) => r.id !in logIds[..0]);
  }

  /** One more selected key: delete its row from what the earlier keys left. */
  lemma {:induction false} WithoutLogsStep(rows: seq<LogRow>, logIds: seq<int>, i: nat)
    requires i < |logIds|
    ensures WithoutLog(WithoutLogs(rows, logIds[..i]), logIds[i]) == WithoutLogs(rows, logIds[..i + 1])
    decreases |rows|
  {
    if rows != [] {
      WithoutLogsStep(rows[1..], logIds, i);
      var r := rows[0];
      var rest := WithoutLogs(rows[1..], logIds[..i]);
      assert logIds[..i + 1] == logIds[..i] + [logIds[i]];
      assert r.id in logIds[..i + 1] <==> r.id in logIds[..i] || r.id == logIds[i];
      if r.id !in logIds[..i] {
        assert WithoutLogs(rows, logIds[..i]) == [r] + rest;
        assert ([r] + rest)[1..] == rest;
        var kept := if r.id != logIds[i] then [r] else [];
        assert WithoutLog([r] + rest, logIds[i]) == kept + WithoutLog(rest, logIds[i]);
        assert WithoutLogs(rows, logIds[..i + 1]) == kept + WithoutLogs(rows[1..], logIds[..i + 1]);
      } else {
        assert WithoutLogs(rows, logIds[..i]) == rest;
        assert WithoutLogs(rows, logIds[..i + 1]) == WithoutLogs(rows[1..], logIds[..i + 1]);
      }
    }
  }

  /** The `employees` table after deleting the `selected` institute ids. */
  function WithoutInstituteIds(rows: seq<EmployeeRow>, selected: seq<string>): seq<EmployeeRow>
  {
    Filter(rows, (r: EmployeeRow) => r.instituteId !in selected)
  }

  /** The database ids of the rows carrying one of the `selected` institute ids. */
  function IdsOfSelected(rows: seq<EmployeeRow>, selected: seq<string>): set<int>
  {
    set r | r in rows && r.instituteId in selected :: r.id
  }

  /** A log table after deleting the rows of the employees with database ids `ids`. */
  function WithoutLogsOfAll(logs: seq<LogRow>, ids: set<int>): seq<LogRow>
  {
    Filter(logs, (l: LogRow) => l.employeeId !in ids)
  }

  /** After deleting the `selected` institute ids from `orig`: none of them remains,
      every row with another institute id stays, and nothing is added. */
  predicate DeletedSoFar(orig: seq<EmployeeRow>, rows: seq<EmployeeRow>, selected: seq<string>)
  {
    && (forall id :: id in selected ==> !HasInstituteId(rows, id))
    && (forall r :: r in orig && r.instituteId !in selected ==> r in rows)
    && (forall r :: r in rows ==> r in orig)
  }

  /** The filtered table is what deleting the selected ids should leave. */
  lemma WithoutInstituteIdsDeletes(orig: seq<EmployeeRow>, selected: seq<string>)
    ensures DeletedSoFar(orig, WithoutInstituteIds(orig, selected), selected)
  {
    var rows := WithoutInstituteIds(orig, selected);
    forall id, m | id in selected && 0 <= m < |rows|
      ensures rows[m].instituteId != id
    {
    }
    forall r | r in orig && r.instituteId !in selected
      ensures r in rows
    {
      var n :| 0 <= n < |orig| && orig[n] == r;
    }
  }

  /** Selecting none of a table's institute ids deletes nothing. */
  lemma KeepAllEmployees(rows: seq<EmployeeRow>, selected: seq<string>)
    requires forall i :: 0 <= i < |rows| ==> rows[i].instituteId !in selected
    ensures WithoutInstituteIds(rows, selected) == rows
  {
    FilterAll(rows, (r: EmployeeRow) => r.instituteId !in selected);
  }

  /** Deleting the log rows of ids no row refers to deletes nothing. */
  lemma KeepAllLogs(logs: seq<LogRow>, ids: set<int>)
    requires forall i :: 0 <= i < |logs| ==> logs[i].employeeId !in ids
    ensures WithoutLogsOfAll(logs, ids) == logs
  {
    FilterAll(logs, (l: LogRow) => l.employeeId !in ids);
  }

  /** When `before` still holds a row with institute id `x`, its database id is the
      one database id of `orig` that goes with `x`. */
  lemma {:induction false} KeyOfFoundRow(orig: seq<EmployeeRow>, selected: seq<string>, x: string)
    requires DistinctBy(orig, RowId) && DistinctBy(orig, RowInstituteId)
    requires HasInstituteId(WithoutInstituteIds(orig, selected), x)
    ensures var before := WithoutInstituteIds(orig, selected);
      var id := before[FindByInstituteId(before, x).value].id;
      && (forall j :: 0 <= j < |orig| ==> (orig[j].id == id <==> orig[j].instituteId == x))
      && x !in selected
  {
    var before := WithoutInstituteIds(orig, selected);
    var k := FindByInstituteId(before, x).value;
    var m :| 0 <= m < |orig| && orig[m] == before[k];
    forall j | 0 <= j < |orig|
      ensures orig[j].id == orig[m].id <==> orig[j].instituteId == x
    {
      if j != m {
        assert RowId(orig[j]) != RowId(orig[m]) && RowInstituteId(orig[j]) != RowInstituteId(orig[m]) by {
          if j < m { } else { }
        }
      }
    }
  }

  /** A `delete_employee` call that finds `x` removes the row by its key: that is
      deleting `selected + [x]`, and the key joins the deleted ones. */
  lemma {:induction false} DeleteFound(orig: seq<EmployeeRow>, selected: seq<string>, x: string)
    requires DistinctBy(orig, RowId) && DistinctBy(orig, RowInstituteId)
    requires HasInstituteId(WithoutInstituteIds(orig, selected), x)
    ensures var before := WithoutInstituteIds(orig, selected);
      var id := before[FindByInstituteId(before, x).value].id;
      && WithoutEmployee(before, id) == WithoutInstituteIds(orig, selected + [x])
      && IdsOfSelected(orig, selected + [x]) == IdsOfSelected(orig, selected) + {id}
  {
    var before := WithoutInstituteIds(orig, selected);
    var more := selected + [x];
    var id := before[FindByInstituteId(before, x).value].id;
    KeyOfFoundRow(orig, selected, x);
    FilterFilter(orig, (r: EmployeeRow) => r.instituteId !in selected, (row: EmployeeRow) => row.id != id,
      (r: EmployeeRow) => r.instituteId !in more);
    forall i | i in IdsOfSelected(orig, more)
      ensures i in IdsOfSelected(orig, selected) + {id}
    {
      var r :| r in orig && r.instituteId in more && r.id == i;
      var j :| 0 <= j < |orig| && orig[j] == r;
    }
    assert id in IdsOfSelected(orig, more) by {
      var r := before[FindByInstituteId(before, x).value];
      assert r in orig;
    }
  }

  /** A `delete_employee` call that does not find `x` changes nothing, and `x` was
      already deleted or never there. */
  lemma {:induction false} DeleteMissing(orig: seq<EmployeeRow>, selected: seq<string>, x: string)
    requires !HasInstituteId(WithoutInstituteIds(orig, selected), x)
    ensures WithoutInstituteIds(orig, selected) == WithoutInstituteIds(orig, selected + [x])
    ensures IdsOfSelected(orig, selected + [x]) == IdsOfSelected(orig, selected)
  {
    var more := selected + [x];
    forall j | 0 <= j < |orig| && orig[j].instituteId == x
      ensures x in selected
    {
    }
    FilterCongruent(orig, (r: EmployeeRow) => r.instituteId !in selected, (r: EmployeeRow) => r.instituteId !in more);
    forall i | i in IdsOfSelected(orig, more)
      ensures i in IdsOfSelected(orig, selected)
    {
      var r :| r in orig && r.instituteId in more && r.id == i;
      var j :| 0 <= j < |orig| && orig[j] == r;
    }
  }

  /** Deleting the log rows of one more database id. */
  lemma {:induction false} DeleteLogsStep(logs: seq<LogRow>, ids: set<int>, id: int)
    ensures WithoutLogsOf(WithoutLogsOfAll(logs, ids), id) == WithoutLogsOfAll(logs, ids + {id})
  {
    FilterFilter(logs, (l: LogRow) => l.employeeId !in ids, (row: LogRow) => row.employeeId != id,
      (l: LogRow) => l.employeeId !in ids + {id});
  }

  /** One `delete_employee` call for `x`, as `Db.DeleteEmployee` states it, extends
      the deletion of `done` to `done + [x]` on the `employees` table. */
  lemma {:induction false} EmployeesOneMore(orig: seq<EmployeeRow>, done: seq<string>, x: string,
                                            employees: seq<EmployeeRow>, employees': seq<EmployeeRow>)
    requires DistinctBy(orig, RowId) && DistinctBy(orig, RowInstituteId)
    requires employees == WithoutInstituteIds(orig, done)
    requires !HasInstituteId(employees, x) ==> employees' == employees
    requires HasInstituteId(employees, x) ==>
      employees' == WithoutEmployee(employees, employees[FindByInstituteId(employees, x).value].id)
    ensures employees' == WithoutInstituteIds(orig, done + [x])
  {
    if HasInstituteId(employees, x) {
      DeleteFound(orig, done, x);
    } else {
      DeleteMissing(orig, done, x);
    }
  }

  /** The same call on a log table: the rows of the employee it removed go. */
  lemma {:induction false} LogsOneMore(orig: seq<EmployeeRow>, logs0: seq<LogRow>, done: seq<string>, x: string,
                                       employees: seq<EmployeeRow>, logs: seq<LogRow>, logs': seq<LogRow>)
    requires DistinctBy(orig, RowId) && DistinctBy(orig, RowInstituteId)
    requires employees == WithoutInstituteIds(orig, done)
    requires logs == WithoutLogsOfAll(logs0, IdsOfSelected(orig, done))
    requires !HasInstituteId(employees, x) ==> logs' == logs
    requires HasInstituteId(employees, x) ==>
      logs' == WithoutLogsOf(logs, employees[FindByInstituteId(employees, x).value].id)
    ensures logs' == WithoutLogsOfAll(logs0, IdsOfSelected(orig, done + [x]))
  {
    if HasInstituteId(employees, x) {
      DeleteFound(orig, done, x);
      DeleteLogsStep(logs0, IdsOfSelected(orig, done), employees[FindByInstituteId(employees, x).value].id);
    } else {
      DeleteMissing(orig, done, x);
    }
  }

  /** The admin panel, with the database it writes and the registrar of the live
      path. Both open the same database file, so they share one `Db`. */
  class AdminApp {
    const db: Db
    const registrar: EmployeeRegistrar

    constructor (db: Db)
      ensures this.db == db && registrar.db == db
    {
      this.db := db;
      registrar := new EmployeeRegistrar(db);
    }

    /** `process_uploaded_photos`: register from the first embedding of each upload,
        with the first upload as photo; a duplicate institute id is reported, not
        raised. */
    method ProcessUploadedPhotos<Img>(name: string, instituteId: string, uploads: seq<Img>,
                                      embed: Img -> seq<Embedding>, average: seq<Embedding> -> Embedding,
                                      photoOf: Img -> seq<bv8>)
      returns (outcome: Registration)
      requires db.Valid()
      modifies db
      ensures db.Valid()
      ensures outcome == NoEmbeddings <==> FirstEmbeddings(uploads, embed) == []
      ensures outcome == DuplicateInstituteId <==> FirstEmbeddings(uploads, embed) != [] && HasInstituteId(old(db.employees), instituteId)
      ensures outcome == Registered ==>
        uploads != [] && db.employees == old(db.employees) + [EmployeeRow(old(db.nextEmployeeId), instituteId, name, average(FirstEmbeddings(uploads, embed)), photoOf(uploads[0]))]
      ensures outcome != Registered ==> db.employees == old(db.employees)
      ensures db.entryLogs == old(db.entryLogs) && db.exitLogs == old(db.exitLogs)
    {
      // The photo is only read once some upload gave an embedding, so there is a first upload.
      var photo := if uploads == [] then [] else photoOf(uploads[0]);
      outcome := RegisterFromImages(db, instituteId, name, photo, uploads, embed, average);
      if outcome == Registered && uploads == [] {
        FirstEmbeddingsEmpty(uploads, embed);
        assert false;
      }
    }

    /** `register_employee`: each path runs only behind its gate; nothing changes
        otherwise, and no path touches the logs. Once past its gate, the upload path
        ends as `process_uploaded_photos` does and the live path as `capture_face_samples`
        does with the typed name and institute id. */
    method RegisterEmployee<Img>(how: RegistrationMethod, clicked: bool, name: string, instituteId: string,
                                 uploads: seq<Img>, embedUpload: Img -> seq<Embedding>, photoOfUpload: Img -> seq<bv8>,
                                 dataRoot: string, events: seq<CaptureEvent>, listing: seq<string>,
                                 embedFile: string -> seq<Embedding>, photoOfFile: string -> seq<bv8>,
                                 average: seq<Embedding> -> Embedding)
      returns (ran: bool, outcome: Option<Registration>)
      requires db.Valid() && registrar.db == db
      modifies db
      ensures db.Valid()
      ensures how == UploadPhotos ==> (ran <==> UploadGate(clicked, name, instituteId, |uploads|))
      ensures how == LiveCapture ==> (ran <==> LiveGate(clicked, name, instituteId))
      ensures !ran ==> outcome.None? && db.employees == old(db.employees)
      ensures how == UploadPhotos && ran ==>
        && outcome.Some?
        && (outcome.value == NoEmbeddings <==> FirstEmbeddings(uploads, embedUpload) == [])
        && (outcome.value == DuplicateInstituteId <==>
              FirstEmbeddings(uploads, embedUpload) != [] && HasInstituteId(old(db.employees), instituteId))
        && (outcome.value == Registered ==>
              uploads != [] &&
              db.employees == old(db.employees) + [EmployeeRow(old(db.nextEmployeeId), instituteId, name,
                                                               average(FirstEmbeddings(uploads, embedUpload)),
                                                               photoOfUpload(uploads[0]))])
        && (outcome.value != Registered ==> db.employees == old(db.employees))
      ensures how == LiveCapture && ran ==>
        var images := RunPlan(events, POSES, PathJoin(dataRoot, FolderName(name, instituteId)), FolderName(name, instituteId)).images;
        var files := ListedPaths(PathJoin(dataRoot, FolderName(name, instituteId)), listing);
        && (outcome.None? <==> images == [])
        && (outcome.None? ==> db.employees == old(db.employees))
        && (outcome.Some? ==>
              && (outcome.value == NoEmbeddings <==> FirstEmbeddings(files, embedFile) == [])
              && (outcome.value == DuplicateInstituteId <==>
                    FirstEmbeddings(files, embedFile) != [] && HasInstituteId(old(db.employees), instituteId))
              && (outcome.value == Registered ==>
                    db.employees == old(db.employees) + [EmployeeRow(old(db.nextEmployeeId), instituteId, name,
                                                                     average(FirstEmbeddings(files, embedFile)),
                                                                     photoOfFile(images[0]))])
              && (outcome.value != Registered ==> db.employees == old(db.employees)))
      ensures db.entryLogs == old(db.entryLogs) && db.exitLogs == old(db.exitLogs)
    {
      ran := false;
      outcome := None;
      if how == UploadPhotos {
        if UploadGate(clicked, name, instituteId, |uploads|) {
          ran := true;
          var registered := ProcessUploadedPhotos(name, instituteId, uploads, embedUpload, average, photoOfUpload);
          outcome := Some(registered);
        }
      } else if LiveGate(clicked, name, instituteId) {
        ran := true;
        var images;
        images, outcome := registrar.CaptureFaceSamples(name, instituteId, "", "", dataRoot, events, listing,
                                                        embedFile, average, photoOfFile);
      }
    }

    /** `delete_employee`'s button: delete the selected employees one after another.
        The employees table keeps, in order, exactly the rows with an unselected
        institute id, and each log table loses exactly the rows of the deleted
        employees. */
    method DeleteSelectedEmployees(selected: seq<string>)
      requires db.Valid()
      modifies db`employees, db`entryLogs, db`exitLogs
      ensures db.Valid()
      ensures db.employees == WithoutInstituteIds(old(db.employees), selected)
      ensures db.entryLogs == WithoutLogsOfAll(old(db.entryLogs), IdsOfSelected(old(db.employees), selected))
      ensures db.exitLogs == WithoutLogsOfAll(old(db.exitLogs), IdsOfSelected(old(db.employees), selected))
      ensures DeletedSoFar(old(db.employees), db.employees, selected)
    {
      ghost var orig, entry0, exit0 := db.employees, db.entryLogs, db.exitLogs;
      KeepAllEmployees(orig, []);
      KeepAllLogs(entry0, {});
      KeepAllLogs(exit0, {});
      assert IdsOfSelected(orig, selected[..0]) == {};
      for i := 0 to |selected|
        invariant db.Valid()
        invariant db.employees == WithoutInstituteIds(orig, selected[..i])
        invariant db.entryLogs == WithoutLogsOfAll(entry0, IdsOfSelected(orig, selected[..i]))
        invariant db.exitLogs == WithoutLogsOfAll(exit0, IdsOfSelected(orig, selected[..i]))
      {
        assert selected[..i + 1] == selected[..i] + [selected[i]];
        ghost var employees, entryLogs, exitLogs := db.employees, db.entryLogs, db.exitLogs;
        var _ := db.DeleteEmployee(selected[i]);
        EmployeesOneMore(orig, selected[..i], selected[i], employees, db.employees);
        LogsOneMore(orig, entry0, selected[..i], selected[i], employees, entryLogs, db.entryLogs);
        LogsOneMore(orig, exit0, selected[..i], selected[i], employees, exitLogs, db.exitLogs);
      }
      assert selected[..|selected|] == selected;
      WithoutInstituteIdsDeletes(orig, selected);
    }

    /** `manage_logs`' delete button: delete the selected logs of the chosen table one
        after another; the table then holds exactly the unselected rows. */
    method DeleteSelectedLogs(kind: LogKind, logIds: seq<int>)
      requires db.Valid()
      modifies db`entryLogs, db`exitLogs
      ensures db.Valid()
      ensures kind == Entry ==> db.entryLogs == WithoutLogs(old(db.entryLogs), logIds) && db.exitLogs == old(db.exitLogs)
      ensures kind == Exit ==> db.exitLogs == WithoutLogs(old(db.exitLogs), logIds) && db.entryLogs == old(db.entryLogs)
    {
      NothingSelected(db.entryLogs, logIds);
      NothingSelected(db.exitLogs, logIds);
      for i := 0 to |logIds|
        invariant db.Valid()
        invariant kind == Entry ==> db.entryLogs == WithoutLogs(old(db.entryLogs), logIds[..i]) && db.exitLogs == old(db.exitLogs)
        invariant kind == Exit ==> db.exitLogs == WithoutLogs(old(db.exitLogs), logIds[..i]) && db.entryLogs == old(db.entryLogs)
      {
        if kind == Entry {
          WithoutLogsStep(old(db.entryLogs), logIds, i);
          var ok := db.DeleteEntryLog(logIds[i]);
        } else {
          WithoutLogsStep(old(db.exitLogs), logIds, i);
          var ok := db.DeleteExitLog(logIds[i]);
        }
      }
      assert logIds[..|logIds|] == logIds;
    }
  }
}
