/** The live registrar: the pose plan, the capture loop of one pose driven by the
    camera and keyboard, the file naming of the captures, and the registration of
    an employee from the first face embedding of each of their images. */
module Registrar {
  import opened Basics
  import opened Text
  import opened FaceProcessor
  import opened Database

  /** `ord('c')`: capture. */
  const KEY_C: int := 99

  /** One pass of the capture loop: whether `cap.read()` succeeded, the key read by
      `waitKey` (already masked with 0xFF), and how many faces `detect_faces` found. */
  datatype CaptureEvent = CaptureEvent(ok: bool, key: int, faceCount: nat)

  /** One entry of the pose plan: the pose name, the instruction shown, the image count. */
  datatype Pose = Pose(name: string, instruction: string, count: nat)

  /** The plan `capture_face_samples` walks through, in order. */
  const POSES: seq<Pose> := [
    Pose("front", "Look directly at the camera", 2),
    Pose("left", "Turn your face to the left", 2),
    Pose("right", "Turn your face to the right", 2),
    Pose("up", "Tilt your face upwards", 2),
    Pose("down", "Tilt your face downwards", 2)
  ]

  /** `os.path.join(a, b)` on POSIX: an absolute `b` wins, otherwise a separator is
      inserted unless `a` is empty or already ends with one. */
  function PathJoin(a: string, b: string): string
  {
    if |b| > 0 && b[0] == '/' then b
    else if a == [] || a[|a| - 1] == '/' then a + b
    else a + "/" + b
  }

  /** `employee_data`: the folder name and file-name stem of an employee. */
  function FolderName(name: string, instituteId: string): string
  {
    name + "_" + instituteId
  }

  /** What one call of `capture_pose` works with. */
  datatype CaptureSetup = CaptureSetup(savePath: string, employeeData: string, pose: string, numImages: nat)

  /** The path of the `k`-th capture of a pose: `{employee_data}_{pose}_{k}.jpg` in the save folder. */
  function CapturePath(setup: CaptureSetup, k: int): string
  {
    PathJoin(setup.savePath, setup.employeeData + "_" + setup.pose + "_" + IntToString(k) + ".jpg")
  }

  /** A pass that saves an image: read succeeded, 'c' pressed, exactly one face. */
  predicate IsShot(e: CaptureEvent)
  {
    e.ok && e.key == KEY_C && e.faceCount == 1
  }

  /** A pass that ends the pose: read succeeded and 'q' pressed. */
  predicate IsQuit(e: CaptureEvent)
  {
    e.ok && e.key == KEY_Q
  }

  /** The loop state: the paths captured so far, whether 'q' broke the loop, and how
      many passes (camera reads) the loop has made. */
  datatype CaptureState = CaptureState(captured: seq<string>, quit: bool, used: nat)

  /** The loop has ended: by 'q', or because enough images were captured. */
  predicate Stopped(st: CaptureState, numImages: nat)
  {
    st.quit || |st.captured| >= numImages
  }

  /** One pass of the `capture_pose` loop; once the loop has ended, nothing changes. */
  function CaptureStep(st: CaptureState, e: CaptureEvent, setup: CaptureSetup): CaptureState
  {
    if Stopped(st, setup.numImages) then st
    else
      var next := st.(used := st.used + 1);
      if !e.ok then next
      else if e.key == KEY_C then
        if e.faceCount == 1 then next.(captured := st.captured + [CapturePath(setup, |st.captured| + 1)])
        else next
      else if e.key == KEY_Q then next.(quit := true)
      else next
  }

  /** The loop state after the passes in `events`. */
  function RunCapture(events: seq<CaptureEvent>, setup: CaptureSetup): (st: CaptureState)
    ensures st.used <= |events|
    decreases |events|
  {
    if events == [] then CaptureState([], false, 0)
    else CaptureStep(RunCapture(events[..|events| - 1], setup), events[|events| - 1], setup)
  }

  /** Once the loop has ended, later passes change nothing. */
  lemma {:induction false} RunCaptureStable(events: seq<CaptureEvent>, n: nat, setup: CaptureSetup)
    requires n <= |events|
    requires Stopped(RunCapture(events[..n], setup), setup.numImages)
    ensures RunCapture(events, setup) == RunCapture(events[..n], setup)
    decreases |events| - n
  {
    if n < |events| {
      assert events[..n + 1][..n] == events[..n];
      assert Stopped(RunCapture(events[..n + 1], setup), setup.numImages);
      RunCaptureStable(events, n + 1, setup);
    } else {
      assert events[..n] == events;
    }
  }

  /** `capture_pose`: read the camera until `numImages` images are captured or 'q' is
      pressed; `consumed` is the number of camera reads it made. An exhausted event
      stream also ends the loop. */
  method CapturePose(events: seq<CaptureEvent>, setup: CaptureSetup) returns (captured: seq<string>, consumed: nat)
    ensures captured == RunCapture(events, setup).captured
    ensures consumed == RunCapture(events, setup).used
  {
    captured := [];
    consumed := 0;
    ghost var quit := false;
    while |captured| < setup.numImages && consumed < |events|
      invariant consumed <= |events|
      invariant RunCapture(events[..consumed], setup) == CaptureState(captured, false, consumed)
    {
      var e := events[consumed];
      assert events[..consumed + 1][..consumed] == events[..consumed];
      consumed := consumed + 1;
      if e.ok {
        if e.key == KEY_C {
          if e.faceCount == 1 {
            captured := captured + [CapturePath(setup, |captured| + 1)];
          }
        } else if e.key == KEY_Q {
          quit := true;
          break;
        }
      }
    }
    assert RunCapture(events[..consumed], setup) == CaptureState(captured, quit, consumed);
    if consumed < |events| {
      RunCaptureStable(events, consumed, setup);
    } else {
      assert events[..consumed] == events;
    }
  }

  /** The number of passes that would save an image. */
  function ShotCount(events: seq<CaptureEvent>): nat
  {
    if events == [] then 0 else (if IsShot(events[0]) then 1 else 0) + ShotCount(events[1..])
  }

  /** The passes before the first 'q'. */
  function UntilQuit(events: seq<CaptureEvent>): seq<CaptureEvent>
  {
    if events == [] || IsQuit(events[0]) then [] else [events[0]] + UntilQuit(events[1..])
  }

  /** Some pass pressed 'q'. */
  predicate HasQuit(events: seq<CaptureEvent>)
  {
    exists i :: 0 <= i < |events| && IsQuit(events[i])
  }

  function Min(a: int, b: int): int
  {
    if a <= b then a else b
  }

  lemma {:induction false} ShotCountSnoc(events: seq<CaptureEvent>, e: CaptureEvent)
    ensures ShotCount(events + [e]) == ShotCount(events) + (if IsShot(e) then 1 else 0)
    decreases |events|
  {
    if events == [] {
      assert [] + [e] == [e];
      assert [e][1..] == [];
    } else {
      assert (events + [e])[1..] == events[1..] + [e];
      ShotCountSnoc(events[1..], e);
    }
  }

  lemma ShotCountCons(e: CaptureEvent, events: seq<CaptureEvent>)
    ensures ShotCount([e] + events) == ShotCount(events) + (if IsShot(e) then 1 else 0)
  {
    assert ([e] + events)[1..] == events;
  }

  lemma HasQuitSnoc(events: seq<CaptureEvent>, e: CaptureEvent)
    ensures HasQuit(events + [e]) <==> HasQuit(events) || IsQuit(e)
  {
    if HasQuit(events) {
      var i :| 0 <= i < |events| && IsQuit(events[i]);
      assert (events + [e])[i] == events[i];
    }
    if IsQuit(e) {
      assert (events + [e])[|events|] == e;
    }
    if HasQuit(events + [e]) {
      var i :| 0 <= i < |events + [e]| && IsQuit((events + [e])[i]);
      if i < |events| {
        assert (events + [e])[i] == events[i];
      }
    }
  }

  /** Cutting at the first 'q' after one more pass. */
  lemma {:induction false} UntilQuitSnoc(events: seq<CaptureEvent>, e: CaptureEvent)
    ensures HasQuit(events) ==> UntilQuit(events + [e]) == UntilQuit(events)
    ensures !HasQuit(events) ==> UntilQuit(events) == events
    ensures !HasQuit(events) ==> UntilQuit(events + [e]) == if IsQuit(e) then events else events + [e]
    decreases |events|
  {
    if events != [] {
      var rest := events[1..];
      assert (events + [e])[1..] == rest + [e];
      assert events == [events[0]] + rest;
      UntilQuitSnoc(rest, e);
      if HasQuit(rest) {
        var i :| 0 <= i < |rest| && IsQuit(rest[i]);
        assert IsQuit(events[i + 1]);
      }
    } else {
      assert [] + [e] == [e];
      assert [e][1..] == [];
    }
  }

  /** What the loop state says about the passes so far: the number of saving
      passes before the first 'q', capped at the requested number, were captured;
      the loop ended by 'q' only after a 'q' pass; and a 'q' that did not end it came
      after enough images. */
  predicate CountAgrees(st: CaptureState, events: seq<CaptureEvent>, numImages: nat)
  {
    && |st.captured| == Min(numImages, ShotCount(UntilQuit(events)))
    && (st.quit ==> HasQuit(events))
    && (!st.quit && HasQuit(events) ==> |st.captured| == numImages)
  }

  /** One more pass keeps the loop state in agreement with the passes. */
  lemma CountStep(st: CaptureState, events: seq<CaptureEvent>, e: CaptureEvent, setup: CaptureSetup)
    requires CountAgrees(st, events, setup.numImages)
    ensures CountAgrees(CaptureStep(st, e, setup), events + [e], setup.numImages)
  {
    HasQuitSnoc(events, e);
    UntilQuitSnoc(events, e);
    ShotCountSnoc(events, e);
  }

  /** An independent description of how many images a pose captures: the number of
      saving passes before the first 'q', capped at the requested number. The loop
      ends by 'q' only after a 'q' pass, and ignores a 'q' once enough images exist. */
  lemma {:induction false} CaptureCount(events: seq<CaptureEvent>, setup: CaptureSetup)
    ensures |RunCapture(events, setup).captured| == Min(setup.numImages, ShotCount(UntilQuit(events)))
    ensures RunCapture(events, setup).quit ==> HasQuit(events)
    ensures !RunCapture(events, setup).quit && HasQuit(events) ==> |RunCapture(events, setup).captured| == setup.numImages
    decreases |events|
  {
    if events != [] {
      var init := events[..|events| - 1];
      var e := events[|events| - 1];
      assert events == init + [e];
      CaptureCount(init, setup);
      CountStep(RunCapture(init, setup), init, e, setup);
    }
  }

  /** The paths of the first `n` captures of a pose, numbered 1 to `n` in order. */
  function PathsUpTo(setup: CaptureSetup, n: nat): seq<string>
  {
    if n == 0 then [] else PathsUpTo(setup, n - 1) + [CapturePath(setup, n)]
  }

  /** The captures are named in order: the `k`-th captured path is the pose's
      `k`-th file name, whatever passes came between. */
  lemma {:induction false} CaptureNames(events: seq<CaptureEvent>, setup: CaptureSetup)
    ensures RunCapture(events, setup).captured == PathsUpTo(setup, |RunCapture(events, setup).captured|)
    decreases |events|
  {
    if events != [] {
      CaptureNames(events[..|events| - 1], setup);
    }
  }

  /** A pose never captures more than it asks for. */
  lemma CaptureBounded(events: seq<CaptureEvent>, setup: CaptureSetup)
    ensures |RunCapture(events, setup).captured| <= setup.numImages
  {
    CaptureCount(events, setup);
  }

  /** Two runs that capture the same number of images capture the same paths. */
  lemma SameCountSamePaths(a: seq<CaptureEvent>, b: seq<CaptureEvent>, setup: CaptureSetup)
    requires |RunCapture(a, setup).captured| == |RunCapture(b, setup).captured|
    ensures RunCapture(a, setup).captured == RunCapture(b, setup).captured
  {
    CaptureNames(a, setup);
    CaptureNames(b, setup);
  }

  lemma {:induction false} UntilQuitAt(events: seq<CaptureEvent>, i: nat)
    requires i < |events| && IsQuit(events[i])
    ensures UntilQuit(events) == UntilQuit(events[..i])
    decreases i
  {
    if i > 0 && !IsQuit(events[0]) {
      assert events[..i][1..] == events[1..][..i - 1];
      UntilQuitAt(events[1..], i - 1);
    }
  }

  /** Pressing 'q' ends the pose: whatever follows a 'q' pass captures nothing more. */
  lemma QuitEndsPose(events: seq<CaptureEvent>, i: nat, setup: CaptureSetup)
    requires i < |events| && IsQuit(events[i])
    ensures RunCapture(events, setup).captured == RunCapture(events[..i], setup).captured
  {
    UntilQuitAt(events, i);
    CaptureCount(events, setup);
    CaptureCount(events[..i], setup);
    SameCountSamePaths(events, events[..i], setup);
  }

  lemma {:induction false} UnreadableShots(a: seq<CaptureEvent>, e: CaptureEvent, b: seq<CaptureEvent>)
    requires !e.ok
    ensures ShotCount(UntilQuit(a + [e] + b)) == ShotCount(UntilQuit(a + b))
    decreases |a|
  {
    if a == [] {
      assert a + [e] + b == [e] + b;
      assert a + b == b;
      assert ([e] + b)[1..] == b;
      ShotCountCons(e, UntilQuit(b));
    } else {
      var x := a[0];
      var rest := a[1..];
      assert a + [e] + b == [x] + (rest + [e] + b);
      assert a + b == [x] + (rest + b);
      assert ([x] + (rest + [e] + b))[1..] == rest + [e] + b;
      assert ([x] + (rest + b))[1..] == rest + b;
      if !IsQuit(x) {
        UnreadableShots(rest, e, b);
        ShotCountCons(x, UntilQuit(rest + [e] + b));
        ShotCountCons(x, UntilQuit(rest + b));
      }
    }
  }

  /** A failed camera read changes nothing: the pose captures the same paths with
      or without it. */
  lemma UnreadableFrameChangesNothing(a: seq<CaptureEvent>, e: CaptureEvent, b: seq<CaptureEvent>, setup: CaptureSetup)
    requires !e.ok
    ensures RunCapture(a + [e] + b, setup).captured == RunCapture(a + b, setup).captured
  {
    UnreadableShots(a, e, b);
    CaptureCount(a + [e] + b, setup);
    CaptureCount(a + b, setup);
    SameCountSamePaths(a + [e] + b, a + b, setup);
  }

  /** The images of a whole plan and the camera reads it made. */
  datatype PlanState = PlanState(images: seq<string>, used: nat)

  /** `capture_face_samples`' loop: each pose continues on the camera where the
      previous pose stopped, and `all_images` collects the poses' captures in order. */
  function RunPlan(events: seq<CaptureEvent>, poses: seq<Pose>, savePath: string, employeeData: string): (p: PlanState)
    ensures p.used <= |events|
    decreases |poses|
  {
    if poses == [] then PlanState([], 0)
    else
      var prev := RunPlan(events, poses[..|poses| - 1], savePath, employeeData);
      var pose := poses[|poses| - 1];
      var r := RunCapture(events[prev.used..], CaptureSetup(savePath, employeeData, pose.name, pose.count));
      PlanState(prev.images + r.captured, prev.used + r.used)
  }

  function TotalCount(poses: seq<Pose>): nat
    decreases |poses|
  {
    if poses == [] then 0 else TotalCount(poses[..|poses| - 1]) + poses[|poses| - 1].count
  }

  /** A plan captures at most the sum of its poses' counts. */
  lemma {:induction false} PlanBounded(events: seq<CaptureEvent>, poses: seq<Pose>, savePath: string, employeeData: string)
    ensures |RunPlan(events, poses, savePath, employeeData).images| <= TotalCount(poses)
    decreases |poses|
  {
    if poses != [] {
      PlanBounded(events, poses[..|poses| - 1], savePath, employeeData);
      var prev := RunPlan(events, poses[..|poses| - 1], savePath, employeeData);
      var pose := poses[|poses| - 1];
      CaptureBounded(events[prev.used..], CaptureSetup(savePath, employeeData, pose.name, pose.count));
    }
  }

  /** The registrar's plan is five poses of two images: at most ten images. */
  lemma PosePlanAtMostTen(events: seq<CaptureEvent>, savePath: string, employeeData: string)
    ensures TotalCount(POSES) == 10
    ensures |RunPlan(events, POSES, savePath, employeeData).images| <= 10
  {
    var p := POSES;
    assert TotalCount(p[..1]) == 2 by { assert p[..1][..0] == []; }
    assert TotalCount(p[..2]) == 4 by { assert p[..2][..1] == p[..1]; }
    assert TotalCount(p[..3]) == 6 by { assert p[..3][..2] == p[..2]; }
    assert TotalCount(p[..4]) == 8 by { assert p[..4][..3] == p[..3]; }
    assert p[..5][..4] == p[..4] && p[..5] == p;
    PlanBounded(events, POSES, savePath, employeeData);
  }

  /** The loop of `capture_face_samples` over the pose plan: one `capture_pose` per
      pose, each continuing on the camera where the previous one stopped. */
  method CapturePlan(events: seq<CaptureEvent>, savePath: string, employeeData: string) returns (allImages: seq<string>)
    ensures allImages == RunPlan(events, POSES, savePath, employeeData).images
  {
    allImages := [];
    var used: nat := 0;
    for p := 0 to |POSES|
      invariant used <= |events|
      invariant RunPlan(events, POSES[..p], savePath, employeeData) == PlanState(allImages, used)
    {
      assert POSES[..p + 1][..p] == POSES[..p];
      var pose := POSES[p];
      var captured, consumed := CapturePose(events[used..], CaptureSetup(savePath, employeeData, pose.name, pose.count));
      allImages := allImages + captured;
      used := used + consumed;
    }
    assert POSES[..|POSES|] == POSES;
  }

  /** The first embedding of every image in which a face was found, in image order. */
  function FirstEmbeddings<Img>(images: seq<Img>, embed: Img -> seq<Embedding>): seq<Embedding>
    decreases |images|
  {
    if images == [] then []
    else
      var found := embed(images[|images| - 1]);
      FirstEmbeddings(images[..|images| - 1], embed) + (if found != [] then [found[0]] else [])
  }

  /** At most one embedding per image, and none at all exactly when no image has a face. */
  lemma {:induction false} FirstEmbeddingsEmpty<Img>(images: seq<Img>, embed: Img -> seq<Embedding>)
    ensures |FirstEmbeddings(images, embed)| <= |images|
    ensures FirstEmbeddings(images, embed) == [] <==> forall i :: 0 <= i < |images| ==> embed(images[i]) == []
    decreases |images|
  {
    if images != [] {
      var init := images[..|images| - 1];
      FirstEmbeddingsEmpty(init, embed);
      assert forall i :: 0 <= i < |init| ==> init[i] == images[i];
    }
  }

  /** How a registration attempt ends. */
  datatype Registration = Registered | DuplicateInstituteId | NoEmbeddings

  /** `_register_employee` (and the same procedure in the admin panel's
      `process_uploaded_photos`): take the first embedding of each image, and if there
      is any, save the employee with their `average` (the normalised mean). A
      duplicate institute id makes the insert fail. */
  method RegisterFromImages<Img>(db: Db, instituteId: string, name: string, photo: seq<bv8>,
                                 images: seq<Img>, embed: Img -> seq<Embedding>, average: seq<Embedding> -> Embedding)
    returns (outcome: Registration)
    requires db.Valid()
    modifies db
    ensures db.Valid()
    ensures outcome == NoEmbeddings <==> FirstEmbeddings(images, embed) == []
    ensures outcome == DuplicateInstituteId <==> FirstEmbeddings(images, embed) != [] && HasInstituteId(old(db.employees), instituteId)
    ensures outcome == Registered ==>
      db.employees == old(db.employees) + [EmployeeRow(old(db.nextEmployeeId), instituteId, name, average(FirstEmbeddings(images, embed)), photo)]
    ensures outcome != Registered ==> db.employees == old(db.employees)
    ensures db.entryLogs == old(db.entryLogs) && db.exitLogs == old(db.exitLogs)
  {
    var embeddings := [];
    for i := 0 to |images|
      invariant embeddings == FirstEmbeddings(images[..i], embed)
    {
      assert images[..i + 1][..i] == images[..i];
      var found := embed(images[i]);
      if found != [] {
        embeddings := embeddings + [found[0]];
      }
    }
    assert images[..|images|] == images;
    if embeddings == [] {
      return NoEmbeddings;
    }
    var saved := db.SaveEmployee(instituteId, name, average(embeddings), photo);
    outcome := if saved then Registered else DuplicateInstituteId;
  }

  /** The paths of the files a folder lists, in listing order. */
  function ListedPaths(folder: string, listing: seq<string>): (paths: seq<string>)
    ensures |paths| == |listing|
    ensures forall i :: 0 <= i < |listing| ==> paths[i] == PathJoin(folder, listing[i])
  {
    seq(|listing|, i requires 0 <= i < |listing| => PathJoin(folder, listing[i]))
  }

  /** The registrar, with the database it writes to. */
  class EmployeeRegistrar {
    const db: Db

    constructor (db: Db)
      ensures this.db == db
    {
      this.db := db;
    }

    /** `capture_face_samples`. An empty `name1` or `instituteId1` is replaced by what
        the operator types (`typedName`, `typedId`). The captures of the plan are
        collected; only if there is at least one is the employee registered from the
        images the folder lists (`listing`), with the first capture as photo. */
    method CaptureFaceSamples(name1: string, instituteId1: string, typedName: string, typedId: string,
                              dataRoot: string, events: seq<CaptureEvent>, listing: seq<string>,
                              embed: string -> seq<Embedding>, average: seq<Embedding> -> Embedding,
                              photoOf: string -> seq<bv8>)
      returns (allImages: seq<string>, outcome: Option<Registration>)
      requires db.Valid()
      modifies db
      ensures db.Valid()
      ensures var name := if name1 == "" then typedName else name1;
        var id := if instituteId1 == "" then typedId else instituteId1;
        allImages == RunPlan(events, POSES, PathJoin(dataRoot, FolderName(name, id)), FolderName(name, id)).images
      ensures outcome.None? <==> allImages == []
      ensures outcome.None? ==> db.employees == old(db.employees)
      ensures outcome.Some? ==>
        var name := if name1 == "" then typedName else name1;
        var id := if instituteId1 == "" then typedId else instituteId1;
        var files := ListedPaths(PathJoin(dataRoot, FolderName(name, id)), listing);
        && (outcome.value == NoEmbeddings <==> FirstEmbeddings(files, embed) == [])
        && (outcome.value == DuplicateInstituteId <==> FirstEmbeddings(files, embed) != [] && HasInstituteId(old(db.employees), id))
        && (outcome.value == Registered ==>
             db.employees == old(db.employees) + [EmployeeRow(old(db.nextEmployeeId), id, name, average(FirstEmbeddings(files, embed)), photoOf(allImages[0]))])
        && (outcome.value != Registered ==> db.employees == old(db.employees))
      ensures db.entryLogs == old(db.entryLogs) && db.exitLogs == old(db.exitLogs)
    {
      var employeeName := if name1 == "" then typedName else name1;
      var employeeId := if instituteId1 == "" then typedId else instituteId1;
      var employeeData := FolderName(employeeName, employeeId);
      var savePath := PathJoin(dataRoot, employeeData);
      allImages := CapturePlan(events, savePath, employeeData);
      if allImages == [] {
        return allImages, None;
      }
      var paths := ListedPaths(PathJoin(dataRoot, employeeData), listing);
      var registered := RegisterFromImages(db, employeeId, employeeName, photoOf(allImages[0]), paths, embed, average);
      outcome := Some(registered);
    }
  }
}
