/** The recognition application: per-frame matching of detected faces against the
    roster, the adaptive update of accepted matches with write-through to the
    database, the set of people currently in view, and the entry/exit decision
    behind a one-minute cooldown. */
module Recognition {
  import opened Basics
  import opened FaceProcessor
  import opened Database

  /** `DETECTION_THRESHOLD` of the configuration: a match must be strictly above it. */
  const DETECTION_THRESHOLD: real := 0.6

  /** `log_cooldown` = one minute, in microseconds. */
  const LOG_COOLDOWN: int := 60 * 1000000

  // ---------------------------------------------------------------- loading

  /** One roster record as `_load_known_embeddings` builds it: the anchor is the
      encoding read at load time, and the history holds just that encoding. */
  function LoadRecord(d: EmployeeData): (r: EmployeeRecord)
    ensures r.id == d.id && r.instituteId == d.instituteId && r.name == d.name
    ensures r.encoding == r.originalEncoding == d.encoding
    ensures r.history == Some([d.encoding]) && r.sighting.None?
  {
    EmployeeRecord(d.id, d.instituteId, d.name, d.encoding, d.encoding, Some([d.encoding]), None)
  }

  /** The roster in table order (the institute ids are unique, so the dictionary the
      source builds keeps one record per row, in row order). */
  function LoadRoster(rows: seq<EmployeeRow>): (roster: seq<EmployeeRecord>)
    ensures |roster| == |rows|
    ensures forall i :: 0 <= i < |rows| ==> roster[i] == LoadRecord(ToData(rows[i]))
  {
    seq(|rows|, i requires 0 <= i < |rows| => LoadRecord(ToData(rows[i])))
  }

  // ---------------------------------------------------------------- matching

  /** Python's `max(roster, key=similarity, default=None)`: the position of the first
      record with the greatest similarity to `observed`, or `None` for an empty roster. */
  function FirstBest(roster: seq<EmployeeRecord>, observed: Embedding, sim: Similarity): (best: Option<nat>)
    ensures best.None? <==> roster == []
    ensures best.Some? ==> best.value < |roster|
    decreases |roster|
  {
    if roster == [] then None
    else
      var init := roster[..|roster| - 1];
      var prev := FirstBest(init, observed, sim);
      if prev.None? || sim(observed, roster[|roster| - 1].encoding) > sim(observed, roster[prev.value].encoding)
      then Some(|roster| - 1)
      else prev
  }

  /** The selected record has the greatest similarity, and every record before it a
      strictly smaller one: it is the first maximum. */
  lemma {:induction false} FirstBestIsFirstMax(roster: seq<EmployeeRecord>, observed: Embedding, sim: Similarity)
    requires roster != []
    ensures var b := FirstBest(roster, observed, sim).value;
      && (forall j :: 0 <= j < |roster| ==> sim(observed, roster[j].encoding) <= sim(observed, roster[b].encoding))
      && (forall j :: 0 <= j < b ==> sim(observed, roster[j].encoding) < sim(observed, roster[b].encoding))
    decreases |roster|
  {
    var init := roster[..|roster| - 1];
    assert forall j :: 0 <= j < |init| ==> init[j] == roster[j];
    if init != [] {
      FirstBestIsFirstMax(init, observed, sim);
    }
  }

  /** The scan `max` performs, one record at a time, keeping the first maximum. */
  method SelectBestMatch(roster: seq<EmployeeRecord>, observed: Embedding, sim: Similarity)
    returns (best: Option<nat>)
    ensures best == FirstBest(roster, observed, sim)
    ensures best.Some? ==> best.value < |roster|
  {
    best := None;
    var k := 0;
    while k < |roster|
      invariant 0 <= k <= |roster|
      invariant best == FirstBest(roster[..k], observed, sim)
    {
      assert roster[..k + 1][..k] == roster[..k];
      if best.None? || sim(observed, roster[k].encoding) > sim(observed, roster[best.value].encoding) {
        best := Some(k);
      }
      k := k + 1;
    }
    assert roster[..k] == roster;
  }

  /** The roster after one face, and the record accepted for it, if any. */
  datatype FaceOutcome = FaceOutcome(roster: seq<EmployeeRecord>, accepted: Option<EmployeeRecord>)

  /** The same person in the same registration: what the matcher never changes. */
  predicate SameIdentity(a: EmployeeRecord, b: EmployeeRecord)
  {
    a.id == b.id && a.instituteId == b.instituteId && a.name == b.name && a.originalEncoding == b.originalEncoding
  }

  /** One iteration of `recognize_employees`: the best record gets the sighting
      (`confidence`, `bbox`, `current_embedding`) and, above the threshold, the
      refined encoding. */
  function MatchFace(roster: seq<EmployeeRecord>, face: Face, sim: Similarity, refine: Refiner): FaceOutcome
  {
    match FirstBest(roster, face.embedding, sim)
    case None => FaceOutcome(roster, None)
    case Some(i) =>
      var similarity := sim(face.embedding, roster[i].encoding);
      var seen := roster[i].(sighting := Some(Sighting(similarity, face.bbox, face.embedding)));
      if similarity > DETECTION_THRESHOLD then
        var upd := UpdateEmbedding(seen, refine);
        var rec := upd.record.(encoding := upd.embedding);
        FaceOutcome(roster[i := rec], Some(rec))
      else
        FaceOutcome(roster[i := seen], None)
  }

  /** What one face does to the roster. A face is accepted exactly when its best
      similarity is strictly above the threshold; a rejected face changes no
      encoding and no history; an accepted one gives the best record the refined
      embedding of its history with the new observation pushed on. Identities and
      anchors never change. */
  lemma MatchFaceSpec(roster: seq<EmployeeRecord>, face: Face, sim: Similarity, refine: Refiner)
    ensures var m := MatchFace(roster, face, sim, refine);
      && |m.roster| == |roster|
      && (forall j :: 0 <= j < |roster| ==> SameIdentity(m.roster[j], roster[j]))
      && (roster == [] ==> m == FaceOutcome(roster, None))
      && (m.accepted.Some? <==>
           FirstBest(roster, face.embedding, sim).Some? &&
           sim(face.embedding, roster[FirstBest(roster, face.embedding, sim).value].encoding) > DETECTION_THRESHOLD)
      && (m.accepted.None? ==> forall j :: 0 <= j < |roster| ==>
           m.roster[j].encoding == roster[j].encoding && m.roster[j].history == roster[j].history)
      && (m.accepted.Some? ==>
           var i := FirstBest(roster, face.embedding, sim).value;
           var rec := m.accepted.value;
           && m.roster == roster[i := rec]
           && rec.history == Some(PushHistory(StartingHistory(roster[i]), face.embedding))
           && rec.encoding == refine(roster[i].originalEncoding, rec.history.value))
  {
  }

  /** The roster after a frame and the recognised records, in face order. */
  datatype Recognized = Recognized(roster: seq<EmployeeRecord>, records: seq<EmployeeRecord>)

  /** `recognize_employees` over the faces of one frame. */
  function RecognizeFaces(roster: seq<EmployeeRecord>, faces: seq<Face>, sim: Similarity, refine: Refiner): Recognized
    decreases |faces|
  {
    if faces == [] then Recognized(roster, [])
    else
      var prev := RecognizeFaces(roster, faces[..|faces| - 1], sim, refine);
      var m := MatchFace(prev.roster, faces[|faces| - 1], sim, refine);
      Recognized(m.roster, prev.records + (if m.accepted.Some? then [m.accepted.value] else []))
  }

  /** One more face: the frame so far, then that face against the roster so far. */
  lemma RecognizeFacesStep(roster: seq<EmployeeRecord>, faces: seq<Face>, k: nat, sim: Similarity, refine: Refiner)
    requires k < |faces|
    ensures var prev := RecognizeFaces(roster, faces[..k], sim, refine);
      var m := MatchFace(prev.roster, faces[k], sim, refine);
      RecognizeFaces(roster, faces[..k + 1], sim, refine) ==
        Recognized(m.roster, prev.records + (if m.accepted.Some? then [m.accepted.value] else []))
  {
    assert faces[..k + 1][..k] == faces[..k];
  }

  /** An empty roster recognises nobody, whatever the faces. */
  lemma {:induction false} EmptyRosterRecognizesNobody(faces: seq<Face>, sim: Similarity, refine: Refiner)
    ensures RecognizeFaces([], faces, sim, refine) == Recognized([], [])
    decreases |faces|
  {
    if faces != [] {
      EmptyRosterRecognizesNobody(faces[..|faces| - 1], sim, refine);
    }
  }

  /** Some roster record has the same identity as `rec`. */
  predicate IdentityIn(rec: EmployeeRecord, roster: seq<EmployeeRecord>)
  {
    exists j :: 0 <= j < |roster| && SameIdentity(rec, roster[j])
  }

  /** A frame keeps every record's identity and anchor, recognises at most one
      record per face, and every recognised record is a roster member. */
  lemma {:induction false} RecognizeKeepsRoster(roster: seq<EmployeeRecord>, faces: seq<Face>, sim: Similarity, refine: Refiner)
    ensures var r := RecognizeFaces(roster, faces, sim, refine);
      && |r.roster| == |roster|
      && (forall j :: 0 <= j < |roster| ==> SameIdentity(r.roster[j], roster[j]))
      && |r.records| <= |faces|
      && (forall k :: 0 <= k < |r.records| ==> IdentityIn(r.records[k], roster))
    decreases |faces|
  {
    if faces != [] {
      var init := faces[..|faces| - 1];
      var face := faces[|faces| - 1];
      RecognizeKeepsRoster(roster, init, sim, refine);
      var prev := RecognizeFaces(roster, init, sim, refine);
      var m := MatchFace(prev.roster, face, sim, refine);
      MatchFaceSpec(prev.roster, face, sim, refine);
      var r := RecognizeFaces(roster, faces, sim, refine);
      assert r == Recognized(m.roster, prev.records + (if m.accepted.Some? then [m.accepted.value] else []));
      if m.accepted.Some? {
        var i := FirstBest(prev.roster, face.embedding, sim).value;
        assert m.roster[i] == m.accepted.value;
        assert SameIdentity(m.accepted.value, roster[i]);
        assert r.records[|r.records| - 1] == m.accepted.value;
      }
      forall k | 0 <= k < |r.records|
        ensures IdentityIn(r.records[k], roster)
      {
        if k < |prev.records| {
          assert r.records[k] == prev.records[k];
        }
      }
    }
  }

  /** The `employees` table after the write-through of every recognised record, in order. */
  function ApplyWrites(rows: seq<EmployeeRow>, written: seq<EmployeeRecord>): seq<EmployeeRow>
    decreases |written|
  {
    if written == [] then rows
    else
      var w := written[|written| - 1];
      SetEncoding(ApplyWrites(rows, written[..|written| - 1]), w.instituteId, w.encoding)
  }

  /** The encoding of the last write for an institute id, if there is one. */
  function LastWrite(written: seq<EmployeeRecord>, instituteId: string): Option<Embedding>
    decreases |written|
  {
    if written == [] then None
    else if written[|written| - 1].instituteId == instituteId then Some(written[|written| - 1].encoding)
    else LastWrite(written[..|written| - 1], instituteId)
  }

  /** One more write: applied on top of the earlier ones. */
  lemma ApplyWritesStep(rows: seq<EmployeeRow>, written: seq<EmployeeRecord>, w: EmployeeRecord)
    ensures ApplyWrites(rows, written + [w]) == SetEncoding(ApplyWrites(rows, written), w.instituteId, w.encoding)
  {
    assert (written + [w])[..|written|] == written;
  }

  /** Write-through: after the writes, each row holds the last encoding written for
      its institute id, or its old encoding when none was written; nothing else changes. */
  lemma {:induction false} ApplyWritesAt(rows: seq<EmployeeRow>, written: seq<EmployeeRecord>, j: nat)
    requires j < |rows|
    ensures |ApplyWrites(rows, written)| == |rows|
    ensures ApplyWrites(rows, written)[j] ==
      match LastWrite(written, rows[j].instituteId)
      case None => rows[j]
      case Some(e) => rows[j].(encoding := e)
    decreases |written|
  {
    if written != [] {
      ApplyWritesAt(rows, written[..|written| - 1], j);
      var w := written[|written| - 1];
      SetEncodingAt(ApplyWrites(rows, written[..|written| - 1]), w.instituteId, w.encoding);
    }
  }

  /** A worked case: with similarities 0.9 for A and 0.4 for B, A is accepted and B
      is neither accepted nor changed. */
  lemma AcceptsClearBestMatch(a: EmployeeRecord, b: EmployeeRecord, face: Face, sim: Similarity, refine: Refiner)
    requires sim(face.embedding, a.encoding) == 0.9 && sim(face.embedding, b.encoding) == 0.4
    ensures var m := MatchFace([a, b], face, sim, refine);
      m.accepted.Some? && m.accepted.value.id == a.id && m.roster[1] == b
  {
    assert FirstBest([a, b], face.embedding, sim) == Some(0) by {
      assert [a, b][..1] == [a];
      assert FirstBest([a], face.embedding, sim) == Some(0);
    }
  }

  // ---------------------------------------------------------------- logging

  /** `determine_log_type` from the last entry and last exit. */
  function ChooseLogType(lastEntry: Option<Timestamp>, lastExit: Option<Timestamp>): LogKind
  {
    if lastEntry.None? && lastExit.None? then Entry
    else if lastEntry.Some? && (lastExit.None? || lastEntry.value > lastExit.value) then Exit
    else Entry
  }

  /** The next event flips the status the details view derives from the same two
      timestamps: an `Exit` exactly for someone currently inside; someone never
      logged, last seen leaving, or with equal entry and exit times enters. */
  lemma ChooseLogTypeFlipsStatus(lastEntry: Option<Timestamp>, lastExit: Option<Timestamp>)
    ensures ChooseLogType(lastEntry, lastExit) == Exit <==> DeriveStatus(lastEntry, lastExit).kind == Some(Entry)
    ensures lastEntry.None? && lastExit.None? ==> ChooseLogType(lastEntry, lastExit) == Entry
    ensures lastEntry.Some? && lastExit == lastEntry ==> ChooseLogType(lastEntry, lastExit) == Entry
  {
  }

  /** The cooldown gate of `log_access`: an event is written unless the last
      committed one for that id is less than a minute old. */
  predicate CooldownElapsed(lastLogTimes: map<int, Timestamp>, employeeId: int, now: Timestamp)
  {
    employeeId !in lastLogTimes || now - lastLogTimes[employeeId] >= LOG_COOLDOWN
  }

  /** The state `log_access` works on: both log tables with their counters, and
      the cooldown map (`last_log_times`, keyed by the database id). */
  datatype LogState = LogState(
    entryLogs: seq<LogRow>,
    exitLogs: seq<LogRow>,
    nextEntryLogId: int,
    nextExitLogId: int,
    lastLogTimes: map<int, Timestamp>)

  /** `log_access`: inside the cooldown nothing happens; otherwise one row of the
      given kind is written, and only then is the id's time set to `now`. */
  function Access(s: LogState, employeeId: int, name: string, kind: LogKind, now: Timestamp): LogState
  {
    if !CooldownElapsed(s.lastLogTimes, employeeId, now) then s
    else if kind == Entry then
      s.(entryLogs := s.entryLogs + [LogRow(s.nextEntryLogId, employeeId, name, now)],
         nextEntryLogId := s.nextEntryLogId + 1,
         lastLogTimes := s.lastLogTimes[employeeId := now])
    else
      s.(exitLogs := s.exitLogs + [LogRow(s.nextExitLogId, employeeId, name, now)],
         nextExitLogId := s.nextExitLogId + 1,
         lastLogTimes := s.lastLogTimes[employeeId := now])
  }

  /** Inside the cooldown the state is untouched; outside it exactly one row is added,
      to the table of the given kind, stamped `now` under the next id of that table,
      and the cooldown entry of the id moves to `now`. */
  lemma AccessEffect(s: LogState, employeeId: int, name: string, kind: LogKind, now: Timestamp)
    ensures var r := Access(s, employeeId, name, kind, now);
      && (!CooldownElapsed(s.lastLogTimes, employeeId, now) ==> r == s)
      && (CooldownElapsed(s.lastLogTimes, employeeId, now) ==>
        && r.lastLogTimes == s.lastLogTimes[employeeId := now]
        && |r.entryLogs| + |r.exitLogs| == |s.entryLogs| + |s.exitLogs| + 1
        && (kind == Entry ==> r.entryLogs == s.entryLogs + [LogRow(s.nextEntryLogId, employeeId, name, now)] && r.exitLogs == s.exitLogs)
        && (kind == Exit ==> r.exitLogs == s.exitLogs + [LogRow(s.nextExitLogId, employeeId, name, now)] && r.entryLogs == s.entryLogs))
  {
  }

  /** The cooldown map never rolls back, whatever the clock does: an id's time is
      overwritten only by one at least a minute later. */
  lemma AccessAdvancesCooldown(s: LogState, employeeId: int, name: string, kind: LogKind, now: Timestamp)
    ensures var r := Access(s, employeeId, name, kind, now);
      forall id :: id in s.lastLogTimes ==> id in r.lastLogTimes && s.lastLogTimes[id] <= r.lastLogTimes[id]
  {
  }

  /** One call of `log_access`. */
  datatype AccessCall = AccessCall(employeeId: int, name: string, kind: LogKind, time: Timestamp)

  /** A series of `log_access` calls. */
  function AccessRun(s: LogState, calls: seq<AccessCall>): LogState
    decreases |calls|
  {
    if calls == [] then s
    else
      var c := calls[|calls| - 1];
      Access(AccessRun(s, calls[..|calls| - 1]), c.employeeId, c.name, c.kind, c.time)
  }

  /** Whether the `j`-th call of a series writes a row. */
  predicate CommitsAt(s: LogState, calls: seq<AccessCall>, j: nat)
    requires j < |calls|
  {
    CooldownElapsed(AccessRun(s, calls[..j]).lastLogTimes, calls[j].employeeId, calls[j].time)
  }

  /** The calls are made at times that never go back. */
  predicate NonDecreasingTimes(calls: seq<AccessCall>)
  {
    forall k, l :: 0 <= k <= l < |calls| ==> calls[k].time <= calls[l].time
  }

  /** Once call `i` has committed, the cooldown entry of its id stays at or after its time. */
  lemma {:induction false} CommitIsRemembered(s: LogState, calls: seq<AccessCall>, i: nat, n: nat)
    requires i < n <= |calls|
    requires CommitsAt(s, calls, i)
    ensures calls[i].employeeId in AccessRun(s, calls[..n]).lastLogTimes
    ensures AccessRun(s, calls[..n]).lastLogTimes[calls[i].employeeId] >= calls[i].time
    decreases n
  {
    assert calls[..n][..n - 1] == calls[..n - 1];
    if n - 1 > i {
      CommitIsRemembered(s, calls, i, n - 1);
    } else {
      assert n - 1 == i;
    }
  }

  /** Two committed events for the same id are at least a minute apart, also when
      the clock goes back between them: repeated arrivals within the cooldown
      produce at most one logged event. */
  lemma CooldownSpacing(s: LogState, calls: seq<AccessCall>, i: nat, j: nat)
    requires i < j < |calls|
    requires calls[i].employeeId == calls[j].employeeId
    requires CommitsAt(s, calls, i) && CommitsAt(s, calls, j)
    ensures calls[j].time - calls[i].time >= LOG_COOLDOWN
  {
    CommitIsRemembered(s, calls, i, j);
  }

  /** An employee who arrives in a frame, with the name under which to log. */
  datatype Arrival = Arrival(id: int, name: string)

  /** The ids of a list of records. */
  function IdsOf(records: seq<EmployeeRecord>): set<int>
  {
    set k | 0 <= k < |records| :: records[k].id
  }

  /** The arrivals of a frame: each recognised id that was not present in the previous
      frame, at its first recognition in this frame. */
  function NewArrivals(recognized: seq<EmployeeRecord>, present: set<int>): seq<Arrival>
    decreases |recognized|
  {
    if recognized == [] then []
    else
      var init := recognized[..|recognized| - 1];
      var r := recognized[|recognized| - 1];
      if r.id in present || r.id in IdsOf(init) then NewArrivals(init, present)
      else NewArrivals(init, present) + [Arrival(r.id, r.name)]
  }

  function ArrivalId(a: Arrival): int { a.id }

  /** Each id arrives at most once per frame, and the arrivals are exactly the ids
      recognised now that were absent from the previous frame. */
  lemma {:induction false} ArrivalsAreNewIds(recognized: seq<EmployeeRecord>, present: set<int>)
    ensures DistinctBy(NewArrivals(recognized, present), ArrivalId)
    ensures forall k :: 0 <= k < |NewArrivals(recognized, present)| ==>
      NewArrivals(recognized, present)[k].id in IdsOf(recognized) - present
    ensures forall id :: id in IdsOf(recognized) - present ==>
      exists k :: 0 <= k < |NewArrivals(recognized, present)| && NewArrivals(recognized, present)[k].id == id
    decreases |recognized|
  {
    if recognized != [] {
      var init := recognized[..|recognized| - 1];
      var r := recognized[|recognized| - 1];
      ArrivalsAreNewIds(init, present);
      assert forall k :: 0 <= k < |init| ==> init[k] == recognized[k];
      assert IdsOf(recognized) == IdsOf(init) + {r.id};
      var before := NewArrivals(init, present);
      var after := NewArrivals(recognized, present);
      assert forall k :: 0 <= k < |before| ==> after[k] == before[k];
      forall id | id in IdsOf(recognized) - present
        ensures exists k :: 0 <= k < |after| && after[k].id == id
      {
        if id in IdsOf(init) {
          assert id in IdsOf(init) - present;
          var k :| 0 <= k < |before| && before[k].id == id;
          assert after[k].id == id;
        } else {
          assert id == r.id;
          assert after[|after| - 1].id == id;
        }
      }
    }
  }

  /** One more recognised record: it arrives exactly when its id was neither present
      before the frame nor recognised earlier in it. */
  lemma NewArrivalsStep(recognized: seq<EmployeeRecord>, k: nat, present: set<int>)
    requires k < |recognized|
    ensures IdsOf(recognized[..k + 1]) == IdsOf(recognized[..k]) + {recognized[k].id}
    ensures NewArrivals(recognized[..k + 1], present) ==
      if recognized[k].id in present + IdsOf(recognized[..k]) then NewArrivals(recognized[..k], present)
      else NewArrivals(recognized[..k], present) + [Arrival(recognized[k].id, recognized[k].name)]
  {
    assert recognized[..k + 1][..k] == recognized[..k];
    assert forall j :: 0 <= j < k ==> recognized[..k + 1][j] == recognized[..k][j];
  }

  /** The `log_access` state after the arrivals of a frame, each logged with the type
      `determine_log_type` chooses from the tables as they are at that moment. */
  function LogArrivals(s: LogState, arrivals: seq<Arrival>, now: Timestamp): LogState
    decreases |arrivals|
  {
    if arrivals == [] then s
    else
      var prev := LogArrivals(s, arrivals[..|arrivals| - 1], now);
      var a := arrivals[|arrivals| - 1];
      Access(prev, a.id, a.name, ChooseLogType(LastTime(prev.entryLogs, a.id), LastTime(prev.exitLogs, a.id)), now)
  }

  /** One more arrival: logged against the tables as the earlier arrivals left them. */
  lemma LogArrivalsStep(s: LogState, arrivals: seq<Arrival>, a: Arrival, now: Timestamp)
    ensures var prev := LogArrivals(s, arrivals, now);
      LogArrivals(s, arrivals + [a], now) ==
        Access(prev, a.id, a.name, ChooseLogType(LastTime(prev.entryLogs, a.id), LastTime(prev.exitLogs, a.id)), now)
  {
    assert (arrivals + [a])[..|arrivals|] == arrivals;
  }

  /** A single arrival is one `log_access` call with the type chosen on the tables as they are. */
  lemma {:induction false} LogOneArrival(s: LogState, a: Arrival, now: Timestamp)
    ensures LogArrivals(s, [a], now) ==
      Access(s, a.id, a.name, ChooseLogType(LastTime(s.entryLogs, a.id), LastTime(s.exitLogs, a.id)), now)
  {
    assert [a][..0] == [];
  }

  /** A worked case: an employee with no logs enters on first arrival, is
      suppressed 30 s later, and leaves on arriving again 70 s after the first time. */
  lemma {:induction false} EntryThenSuppressedThenExit(id: int, name: string, t0: Timestamp)
    ensures
      var s0 := LogState([], [], 1, 1, map[]);
      var s1 := LogArrivals(s0, [Arrival(id, name)], t0);
      var s2 := LogArrivals(s1, [Arrival(id, name)], t0 + 30 * 1000000);
      var s3 := LogArrivals(s2, [Arrival(id, name)], t0 + 70 * 1000000);
      && s1.entryLogs == [LogRow(1, id, name, t0)] && s1.exitLogs == []
      && s2 == s1
      && s3.entryLogs == s1.entryLogs && s3.exitLogs == [LogRow(1, id, name, t0 + 70 * 1000000)]
  {
    var a := Arrival(id, name);
    var s0 := LogState([], [], 1, 1, map[]);
    LogOneArrival(s0, a, t0);
    assert ChooseLogType(LastTime(s0.entryLogs, id), LastTime(s0.exitLogs, id)) == Entry;
    var s1 := LogArrivals(s0, [a], t0);
    var row := LogRow(1, id, name, t0);
    assert s1.entryLogs == [row] && s1.exitLogs == [] && s1.lastLogTimes == map[id := t0];
    var t2 := t0 + 30 * 1000000;
    LogOneArrival(s1, a, t2);
    assert !CooldownElapsed(s1.lastLogTimes, id, t2);
    var s2 := LogArrivals(s1, [a], t2);
    assert s2 == s1;
    var t3 := t0 + 70 * 1000000;
    LogOneArrival(s2, a, t3);
    assert [row][..0] == [];
    assert LastTime(s2.entryLogs, id) == Some(t0);
    assert LastTime(s2.exitLogs, id) == None;
    assert CooldownElapsed(s2.lastLogTimes, id, t3);
    assert ChooseLogType(LastTime(s2.entryLogs, id), LastTime(s2.exitLogs, id)) == Exit;
  }

  // ---------------------------------------------------------------- the application

  /** One camera read: whether it succeeded, the detector's faces, the clock, and
      the key the operator pressed (already masked with 0xFF). */
  datatype FrameInput = FrameInput(ok: bool, faces: seq<Face>, now: Timestamp, key: int)

  /** How many frames `run` processes: it stops before the first failed read, and
      after the first frame on which 'q' was pressed. */
  function FramesProcessed(frames: seq<FrameInput>): nat
  {
    if frames == [] || !frames[0].ok then 0
    else if frames[0].key == KEY_Q then 1
    else 1 + FramesProcessed(frames[1..])
  }

  /** Every processed frame was read successfully, 'q' was pressed on none but
      possibly the last of them, and the loop stops only at the end of the input,
      at a failed read, or right after 'q'. */
  lemma {:induction false} FramesProcessedStops(frames: seq<FrameInput>)
    ensures FramesProcessed(frames) <= |frames|
    ensures forall j :: 0 <= j < FramesProcessed(frames) ==> frames[j].ok
    ensures forall j :: 0 <= j < FramesProcessed(frames) - 1 ==> frames[j].key != KEY_Q
    ensures FramesProcessed(frames) < |frames| ==>
      !frames[FramesProcessed(frames)].ok || (0 < FramesProcessed(frames) && frames[FramesProcessed(frames) - 1].key == KEY_Q)
  {
    if frames != [] && frames[0].ok && frames[0].key != KEY_Q {
      FramesProcessedStops(frames[1..]);
    }
  }

  /** Everything one pass of `run` reads and writes: the roster, the `employees`
      table, the `log_access` state and the set of ids present in the last frame. */
  datatype AppState = AppState(roster: seq<EmployeeRecord>, employees: seq<EmployeeRow>, logs: LogState, present: set<int>)

  /** The arrivals of one frame against the state before it. */
  function FrameArrivals(st: AppState, f: FrameInput, sim: Similarity, refine: Refiner): seq<Arrival>
  {
    NewArrivals(RecognizeFaces(st.roster, DetectFaces(f.faces), sim, refine).records, st.present)
  }

  /** One pass of the loop in `run`: recognise the confident faces, write the
      refined encodings through, log the arrivals at the frame's time, and keep as
      present the ids recognised now. */
  function FrameStep(st: AppState, f: FrameInput, sim: Similarity, refine: Refiner): AppState
  {
    var r := RecognizeFaces(st.roster, DetectFaces(f.faces), sim, refine);
    AppState(r.roster, ApplyWrites(st.employees, r.records),
      LogArrivals(st.logs, FrameArrivals(st, f, sim, refine), f.now), IdsOf(r.records))
  }

  /** The state after a series of passes, one `FrameStep` per frame, in order. */
  function RunFrames(st: AppState, frames: seq<FrameInput>, sim: Similarity, refine: Refiner): AppState
    decreases |frames|
  {
    if frames == [] then st
    else FrameStep(RunFrames(st, frames[..|frames| - 1], sim, refine), frames[|frames| - 1], sim, refine)
  }

  /** The `log_access` calls the arrivals of a frame make, each with the type
      `determine_log_type` chooses at that moment. */
  function ArrivalCalls(s: LogState, arrivals: seq<Arrival>, now: Timestamp): seq<AccessCall>
    decreases |arrivals|
  {
    if arrivals == [] then []
    else
      var init := arrivals[..|arrivals| - 1];
      var prev := LogArrivals(s, init, now);
      var a := arrivals[|arrivals| - 1];
      ArrivalCalls(s, init, now) +
        [AccessCall(a.id, a.name, ChooseLogType(LastTime(prev.entryLogs, a.id), LastTime(prev.exitLogs, a.id)), now)]
  }

  /** Every `log_access` call of a series of passes, in the order they are made. */
  function RunCalls(st: AppState, frames: seq<FrameInput>, sim: Similarity, refine: Refiner): seq<AccessCall>
    decreases |frames|
  {
    if frames == [] then []
    else
      var prev := RunFrames(st, frames[..|frames| - 1], sim, refine);
      var f := frames[|frames| - 1];
      RunCalls(st, frames[..|frames| - 1], sim, refine) + ArrivalCalls(prev.logs, FrameArrivals(prev, f, sim, refine), f.now)
  }

  /** Logging the arrivals of a frame is a run of `log_access` calls, one per
      arrival, in arrival order. */
  lemma {:induction false} ArrivalsAreAccessRun(s: LogState, arrivals: seq<Arrival>, now: Timestamp)
    ensures LogArrivals(s, arrivals, now) == AccessRun(s, ArrivalCalls(s, arrivals, now))
    decreases |arrivals|
  {
    if arrivals != [] {
      var init := arrivals[..|arrivals| - 1];
      ArrivalsAreAccessRun(s, init, now);
      var calls := ArrivalCalls(s, init, now);
      assert ArrivalCalls(s, arrivals, now)[..|calls|] == calls;
    }
  }

  /** The `k`-th call is for the `k`-th arrival's id, at the frame's time. */
  lemma {:induction false} ArrivalCallsAt(s: LogState, arrivals: seq<Arrival>, now: Timestamp)
    ensures |ArrivalCalls(s, arrivals, now)| == |arrivals|
    ensures forall k :: 0 <= k < |arrivals| ==>
      ArrivalCalls(s, arrivals, now)[k].employeeId == arrivals[k].id && ArrivalCalls(s, arrivals, now)[k].time == now
    decreases |arrivals|
  {
    if arrivals != [] {
      var init := arrivals[..|arrivals| - 1];
      ArrivalCallsAt(s, init, now);
      assert forall k :: 0 <= k < |init| ==> init[k] == arrivals[k];
    }
  }

  /** Running two series of calls one after the other is running their concatenation. */
  lemma {:induction false} AccessRunAppend(s: LogState, a: seq<AccessCall>, b: seq<AccessCall>)
    ensures AccessRun(s, a + b) == AccessRun(AccessRun(s, a), b)
    decreases |b|
  {
    if b == [] {
      assert a + b == a;
    } else {
      AccessRunAppend(s, a, b[..|b| - 1]);
      assert (a + b)[..|a + b| - 1] == a + b[..|b| - 1];
    }
  }

  /** Over a whole run, the log tables and the cooldown map are those of one run of
      `log_access` calls: the arrivals of every frame, in order. */
  lemma {:induction false} RunIsAccessRun(st: AppState, frames: seq<FrameInput>, sim: Similarity, refine: Refiner)
    ensures RunFrames(st, frames, sim, refine).logs == AccessRun(st.logs, RunCalls(st, frames, sim, refine))
    decreases |frames|
  {
    if frames != [] {
      var init := frames[..|frames| - 1];
      var prev := RunFrames(st, init, sim, refine);
      var f := frames[|frames| - 1];
      RunIsAccessRun(st, init, sim, refine);
      ArrivalsAreAccessRun(prev.logs, FrameArrivals(prev, f, sim, refine), f.now);
      AccessRunAppend(st.logs, RunCalls(st, init, sim, refine), ArrivalCalls(prev.logs, FrameArrivals(prev, f, sim, refine), f.now));
    }
  }

  /** The clock read at each frame never goes back. */
  predicate ClockNonDecreasing(frames: seq<FrameInput>)
  {
    forall k, l :: 0 <= k <= l < |frames| ==> frames[k].now <= frames[l].now
  }

  /** Calls in time order, followed by calls all made at a time `t` no earlier than
      any of them, are still in time order, and none is later than `t`. */
  lemma AppendAtTime(before: seq<AccessCall>, last: seq<AccessCall>, t: Timestamp)
    requires NonDecreasingTimes(before)
    requires forall k :: 0 <= k < |before| ==> before[k].time <= t
    requires forall k :: 0 <= k < |last| ==> last[k].time == t
    ensures NonDecreasingTimes(before + last)
    ensures forall k :: 0 <= k < |before + last| ==> (before + last)[k].time <= t
  {
    var all := before + last;
    forall k, l | 0 <= k <= l < |all|
      ensures all[k].time <= all[l].time
    {
      if l < |before| {
        assert all[k] == before[k] && all[l] == before[l];
      } else if k < |before| {
        assert all[k] == before[k] && all[l] == last[l - |before|];
      } else {
        assert all[k] == last[k - |before|] && all[l] == last[l - |before|];
      }
    }
  }

  /** With a clock that never goes back, the calls of a run are made at
      non-decreasing times, none later than the last frame's. */
  lemma {:induction false} RunCallsInTimeOrder(st: AppState, frames: seq<FrameInput>, sim: Similarity, refine: Refiner)
    requires ClockNonDecreasing(frames)
    ensures NonDecreasingTimes(RunCalls(st, frames, sim, refine))
    ensures frames != [] ==> forall k :: 0 <= k < |RunCalls(st, frames, sim, refine)| ==>
      RunCalls(st, frames, sim, refine)[k].time <= frames[|frames| - 1].now
    decreases |frames|
  {
    if frames != [] {
      var init := frames[..|frames| - 1];
      var prev := RunFrames(st, init, sim, refine);
      var f := frames[|frames| - 1];
      assert ClockNonDecreasing(init) by {
        assert forall k :: 0 <= k < |init| ==> init[k] == frames[k];
      }
      RunCallsInTimeOrder(st, init, sim, refine);
      var before := RunCalls(st, init, sim, refine);
      if init != [] {
        assert frames[|init| - 1].now <= f.now;
      }
      ArrivalCallsAt(prev.logs, FrameArrivals(prev, f, sim, refine), f.now);
      AppendAtTime(before, ArrivalCalls(prev.logs, FrameArrivals(prev, f, sim, refine), f.now), f.now);
    }
  }

  /** The cooldown over a whole run of the application: two logged events for the
      same id are at least a minute apart, however many frames lie between them and
      whatever the clock reads at each frame. */
  lemma RunCooldownSpacing(st: AppState, frames: seq<FrameInput>, sim: Similarity, refine: Refiner, i: nat, j: nat)
    requires i < j < |RunCalls(st, frames, sim, refine)|
    requires RunCalls(st, frames, sim, refine)[i].employeeId == RunCalls(st, frames, sim, refine)[j].employeeId
    requires CommitsAt(st.logs, RunCalls(st, frames, sim, refine), i) && CommitsAt(st.logs, RunCalls(st, frames, sim, refine), j)
    ensures RunFrames(st, frames, sim, refine).logs == AccessRun(st.logs, RunCalls(st, frames, sim, refine))
    ensures RunCalls(st, frames, sim, refine)[j].time - RunCalls(st, frames, sim, refine)[i].time >= LOG_COOLDOWN
  {
    RunIsAccessRun(st, frames, sim, refine);
    CooldownSpacing(st.logs, RunCalls(st, frames, sim, refine), i, j);
  }

  class RecognitionApp {
    const db: Db
    var roster: seq<EmployeeRecord>
    var currentUsers: set<int>
    var lastLogTimes: map<int, Timestamp>

    ghost predicate Valid()
      reads db
    {
      db.Valid()
    }

    /** The state `log_access` reads and writes. */
    function LogView(): LogState
      reads this, db
    {
      LogState(db.entryLogs, db.exitLogs, db.nextEntryLogId, db.nextExitLogId, lastLogTimes)
    }

    /** The state the loop of `run` reads and writes. */
    function State(): AppState
      reads this, db
    {
      AppState(roster, db.employees, LogView(), currentUsers)
    }

    /** `__init__`: load the roster; nobody is present and no event has been logged. */
    constructor (db: Db)
      requires db.Valid()
      ensures Valid() && this.db == db
      ensures roster == LoadRoster(db.employees)
      ensures currentUsers == {} && lastLogTimes == map[]
    {
      this.db := db;
      currentUsers := {};
      lastLogTimes := map[];
      new;
      LoadKnownEmbeddings();
    }

    /** `_load_known_embeddings`: rebuild the roster from the employees table. */
    method LoadKnownEmbeddings()
      requires Valid()
      modifies this`roster
      ensures Valid()
      ensures roster == LoadRoster(db.employees)
    {
      var data := db.GetEmployeeData();
      roster := seq(|data|, i requires 0 <= i < |data| => LoadRecord(data[i]));
    }

    /** The body of the loop in `recognize_employees` for one face: pick the best
        record, stamp the sighting on it, and above the threshold replace its
        encoding by the refined one and write that encoding through to the table. */
    method RecognizeFace(face: Face, sim: Similarity, refine: Refiner) returns (accepted: Option<EmployeeRecord>)
      requires Valid()
      modifies this`roster, db`employees
      ensures Valid()
      ensures FaceOutcome(roster, accepted) == MatchFace(old(roster), face, sim, refine)
      ensures accepted.None? ==> db.employees == old(db.employees)
      ensures accepted.Some? ==>
        db.employees == SetEncoding(old(db.employees), accepted.value.instituteId, accepted.value.encoding)
    {
      accepted := None;
      var best := SelectBestMatch(roster, face.embedding, sim);
      if best.Some? {
        var i := best.value;
        var similarity := sim(face.embedding, roster[i].encoding);
        var seen := roster[i].(sighting := Some(Sighting(similarity, face.bbox, face.embedding)));
        roster := roster[i := seen];
        if similarity > DETECTION_THRESHOLD {
          var upd := UpdateEmbedding(seen, refine);
          var rec := upd.record.(encoding := upd.embedding);
          roster := roster[i := rec];
          db.UpdateEmployeeEmbedding(rec.instituteId, upd.embedding);
          accepted := Some(rec);
        }
      }
    }

    /** `recognize_employees`: match every confident face; accepted matches get the
        refined encoding, in the roster and in the database. */
    method RecognizeEmployees(detections: seq<Face>, sim: Similarity, refine: Refiner)
      returns (recognized: seq<EmployeeRecord>)
      requires Valid()
      modifies this`roster, db`employees
      ensures Valid()
      ensures Recognized(roster, recognized) == RecognizeFaces(old(roster), DetectFaces(detections), sim, refine)
      ensures db.employees == ApplyWrites(old(db.employees), recognized)
    {
      var faces := DetectFaces(detections);
      recognized := [];
      for k := 0 to |faces|
        invariant Valid()
        invariant Recognized(roster, recognized) == RecognizeFaces(old(roster), faces[..k], sim, refine)
        invariant db.employees == ApplyWrites(old(db.employees), recognized)
      {
        RecognizeFacesStep(old(roster), faces, k, sim, refine);
        var accepted := RecognizeFace(faces[k], sim, refine);
        if accepted.Some? {
          ApplyWritesStep(old(db.employees), recognized, accepted.value);
          recognized := recognized + [accepted.value];
        }
      }
      assert faces[..|faces|] == faces;
    }

    /** `determine_log_type` for a database id. */
    function DetermineLogType(employeeId: int): LogKind
      reads this, db
    {
      ChooseLogType(db.GetLastEntry(employeeId), db.GetLastExit(employeeId))
    }

    /** `log_access` at time `now`; `committed` says whether a row was written (the
        source then prints and beeps). */
    method LogAccess(employeeId: int, employeeName: string, kind: LogKind, now: Timestamp)
      returns (committed: bool)
      requires Valid()
      modifies this`lastLogTimes, db`entryLogs, db`nextEntryLogId, db`exitLogs, db`nextExitLogId
      ensures Valid()
      ensures committed == CooldownElapsed(old(lastLogTimes), employeeId, now)
      ensures LogView() == Access(old(LogView()), employeeId, employeeName, kind, now)
    {
      if employeeId in lastLogTimes && now - lastLogTimes[employeeId] < LOG_COOLDOWN {
        return false;
      }
      if kind == Entry {
        db.LogEntry(employeeId, employeeName, now);
      } else {
        db.LogExit(employeeId, employeeName, now);
      }
      lastLogTimes := lastLogTimes[employeeId := now];
      committed := true;
    }

    /** The body of the arrival loop of `run` for one recognised record: an id not yet
        present is added to the present set and logged with the type the tables give. */
    method Arrive(emp: EmployeeRecord, now: Timestamp) returns (arrived: bool)
      requires Valid()
      modifies this`currentUsers, this`lastLogTimes, db`entryLogs, db`nextEntryLogId, db`exitLogs, db`nextExitLogId
      ensures Valid()
      ensures arrived <==> emp.id !in old(currentUsers)
      ensures currentUsers == old(currentUsers) + {emp.id}
      ensures !arrived ==> LogView() == old(LogView())
      ensures arrived ==> LogView() == Access(old(LogView()), emp.id, emp.name,
        ChooseLogType(LastTime(old(db.entryLogs), emp.id), LastTime(old(db.exitLogs), emp.id)), now)
    {
      arrived := emp.id !in currentUsers;
      if arrived {
        currentUsers := currentUsers + {emp.id};
        var kind := DetermineLogType(emp.id);
        var _ := LogAccess(emp.id, emp.name, kind, now);
      }
    }

    /** The arrival loop of `run` after recognition: log each recognised id not yet
        present, then keep as present exactly the ids recognised in this frame. */
    method UpdatePresence(recognized: seq<EmployeeRecord>, now: Timestamp) returns (arrivals: seq<Arrival>)
      requires Valid()
      modifies this`currentUsers, this`lastLogTimes, db`entryLogs, db`nextEntryLogId, db`exitLogs, db`nextExitLogId
      ensures Valid()
      ensures arrivals == NewArrivals(recognized, old(currentUsers))
      ensures LogView() == LogArrivals(old(LogView()), arrivals, now)
      ensures currentUsers == IdsOf(recognized)
    {
      arrivals := [];
      for k := 0 to |recognized|
        invariant Valid()
        invariant currentUsers == old(currentUsers) + IdsOf(recognized[..k])
        invariant arrivals == NewArrivals(recognized[..k], old(currentUsers))
        invariant LogView() == LogArrivals(old(LogView()), arrivals, now)
      {
        var emp := recognized[k];
        NewArrivalsStep(recognized, k, old(currentUsers));
        LogArrivalsStep(old(LogView()), arrivals, Arrival(emp.id, emp.name), now);
        var arrived := Arrive(emp, now);
        if arrived {
          arrivals := arrivals + [Arrival(emp.id, emp.name)];
        }
      }
      assert recognized[..|recognized|] == recognized;
      currentUsers := currentUsers * IdsOf(recognized);
    }

    /** One pass of the loop in `run`: recognise, then log the arrivals. */
    method ProcessFrame(detections: seq<Face>, now: Timestamp, sim: Similarity, refine: Refiner)
      returns (recognized: seq<EmployeeRecord>, arrivals: seq<Arrival>)
      requires Valid()
      modifies this`roster, this`currentUsers, this`lastLogTimes, db`employees
      modifies db`entryLogs, db`nextEntryLogId, db`exitLogs, db`nextExitLogId
      ensures Valid()
      ensures Recognized(roster, recognized) == RecognizeFaces(old(roster), DetectFaces(detections), sim, refine)
      ensures db.employees == ApplyWrites(old(db.employees), recognized)
      ensures arrivals == NewArrivals(recognized, old(currentUsers))
      ensures LogView() == LogArrivals(old(LogView()), arrivals, now)
      ensures currentUsers == IdsOf(recognized)
    {
      recognized := RecognizeEmployees(detections, sim, refine);
      arrivals := UpdatePresence(recognized, now);
    }

    /** `run`: process frames until a read fails or 'q' is pressed after a frame;
        the final state is that of one `FrameStep` per processed frame. */
    method Run(frames: seq<FrameInput>, sim: Similarity, refine: Refiner) returns (processed: nat)
      requires Valid()
      modifies this`roster, this`currentUsers, this`lastLogTimes, db`employees
      modifies db`entryLogs, db`nextEntryLogId, db`exitLogs, db`nextExitLogId
      ensures Valid()
      ensures processed == FramesProcessed(frames) && processed <= |frames|
      ensures State() == RunFrames(old(State()), frames[..processed], sim, refine)
    {
      processed := 0;
      var quit := false;
      while processed < |frames| && !quit && frames[processed].ok
        invariant processed <= |frames|
        invariant Valid()
        invariant quit ==> processed == FramesProcessed(frames)
        invariant !quit ==> FramesProcessed(frames) == processed + FramesProcessed(frames[processed..])
        invariant State() == RunFrames(old(State()), frames[..processed], sim, refine)
      {
        var frame := frames[processed];
        assert frames[processed..][1..] == frames[processed + 1..];
        assert frames[..processed + 1][..processed] == frames[..processed];
        ghost var before := State();
        var _, _ := ProcessFrame(frame.faces, frame.now, sim, refine);
        assert State() == FrameStep(before, frame, sim, refine);
        processed := processed + 1;
        quit := frame.key == KEY_Q;
      }
    }
  }
}
