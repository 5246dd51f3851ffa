/** The face processor: the detector's confidence filter, the bounded embedding
    history behind the adaptive update, and the reset to the anchor embedding.
    Cosine similarity and the weighted-mean refinement are vector arithmetic on
    floats; they enter the model as the function parameters `Similarity` and
    `Refiner`, so that every decision around them is stated exactly. */
module FaceProcessor {
  import opened Basics

  /** A face embedding as the detector produces it: a vector of floats. */
  type Embedding = seq<real>

  /** `calculate_similarity`: cosine similarity of two embeddings. */
  type Similarity = (Embedding, Embedding) -> real

  /** The refined embedding computed from the anchor and the history window
      (0.95 * anchor + 0.05 * mean(history), normalised). */
  type Refiner = (Embedding, seq<Embedding>) -> Embedding

  /** `FACE_DETECTION_CONFIDENCE` of the configuration. */
  const FACE_DETECTION_CONFIDENCE: real := 0.6

  /** `embedding_history_size`: capacity of the history window. */
  const EMBEDDING_HISTORY_SIZE: nat := 10

  datatype BoundingBox = BoundingBox(x1: real, y1: real, x2: real, y2: real)

  /** One face reported by the detector. */
  datatype Face = Face(bbox: BoundingBox, detScore: real, embedding: Embedding)

  /** What the matcher writes on a record it selected for a face: `confidence`,
      `bbox` and `current_embedding`. */
  datatype Sighting = Sighting(confidence: real, bbox: BoundingBox, embedding: Embedding)

  /** A roster record: the database row plus the anchor (`original_encoding`), the
      `embedding_history` (a record may lack that key: `None`) and the last sighting. */
  datatype EmployeeRecord = EmployeeRecord(
    id: int,
    instituteId: string,
    name: string,
    encoding: Embedding,
    originalEncoding: Embedding,
    history: Option<seq<Embedding>>,
    sighting: Option<Sighting>)

  /** Whether the detector's score for `f` clears the confidence threshold (strictly). */
  predicate Confident(f: Face)
  {
    f.detScore > FACE_DETECTION_CONFIDENCE
  }

  /** `detect_faces`: the faces whose detection score is strictly above the
      confidence threshold, in the detector's order. */
  function DetectFaces(faces: seq<Face>): (kept: seq<Face>)
  {
    Filter(faces, Confident)
  }

  /** Exactly the confident faces are kept, and each face's verdict depends on that
      face alone, so the kept faces stay in detector order. */
  lemma DetectFacesKeeps(a: seq<Face>, b: seq<Face>)
    ensures forall i :: 0 <= i < |DetectFaces(a)| ==> DetectFaces(a)[i] in a && DetectFaces(a)[i].detScore > FACE_DETECTION_CONFIDENCE
    ensures forall i :: 0 <= i < |a| && a[i].detScore > FACE_DETECTION_CONFIDENCE ==> a[i] in DetectFaces(a)
    ensures |DetectFaces(a)| <= |a|
    ensures DetectFaces(a + b) == DetectFaces(a) + DetectFaces(b)
  {
    FilterAppend(a, b, Confident);
  }

  /** `s` is a trailing part of `t`. */
  predicate IsSuffix<T(==)>(s: seq<T>, t: seq<T>)
  {
    |s| <= |t| && t[|t| - |s|..] == s
  }

  /** The history window after one observation: append, then keep the last
      `EMBEDDING_HISTORY_SIZE` elements when the window has grown beyond that. */
  function PushHistory(history: seq<Embedding>, observed: Embedding): seq<Embedding>
  {
    var grown := history + [observed];
    if |grown| > EMBEDDING_HISTORY_SIZE then grown[|grown| - EMBEDDING_HISTORY_SIZE..] else grown
  }

  /** The window holds at most `EMBEDDING_HISTORY_SIZE` embeddings, ends with the
      newest observation, and is the tail of the old window followed by it: only the
      oldest entries are evicted. */
  lemma PushHistoryWindow(history: seq<Embedding>, observed: Embedding)
    ensures var window := PushHistory(history, observed);
      && |window| == (if |history| + 1 > EMBEDDING_HISTORY_SIZE then EMBEDDING_HISTORY_SIZE else |history| + 1)
      && window[|window| - 1] == observed
      && IsSuffix(window, history + [observed])
  {
  }

  /** The history after a series of observations, one `PushHistory` each. */
  function Replay(history: seq<Embedding>, observations: seq<Embedding>): seq<Embedding>
    decreases |observations|
  {
    if observations == [] then history
    else PushHistory(Replay(history, observations[..|observations| - 1]), observations[|observations| - 1])
  }

  /** The last `n` elements of `s` (all of `s` when it is shorter). */
  function LastN<T>(s: seq<T>, n: nat): seq<T>
  {
    if |s| <= n then s else s[|s| - n..]
  }

  /** Evicting step by step equals evicting once: from a window within capacity,
      any series of observations leaves exactly the last ten of the whole stream. */
  lemma {:induction false} ReplayIsLastWindow(history: seq<Embedding>, observations: seq<Embedding>)
    requires |history| <= EMBEDDING_HISTORY_SIZE
    ensures Replay(history, observations) == LastN(history + observations, EMBEDDING_HISTORY_SIZE)
    decreases |observations|
  {
    if observations != [] {
      var init := observations[..|observations| - 1];
      var x := observations[|observations| - 1];
      ReplayIsLastWindow(history, init);
      assert history + observations == (history + init) + [x];
    }
  }

  /** Starting from the one-element history set at load time, k observations
      leave a window of length min(k + 1, 10) whose last element is the newest. */
  lemma WindowLength(anchor: Embedding, observations: seq<Embedding>)
    ensures |Replay([anchor], observations)| ==
      if |observations| + 1 < EMBEDDING_HISTORY_SIZE then |observations| + 1 else EMBEDDING_HISTORY_SIZE
    ensures observations != [] ==>
      Replay([anchor], observations)[|Replay([anchor], observations)| - 1] == observations[|observations| - 1]
  {
    ReplayIsLastWindow([anchor], observations);
  }

  /** The history `update_embedding` starts from: the stored one, or `[original_encoding]`
      when the record has none. */
  function StartingHistory(emp: EmployeeRecord): (h: seq<Embedding>)
    ensures emp.history.None? ==> h == [emp.originalEncoding]
  {
    if emp.history.Some? then emp.history.value else [emp.originalEncoding]
  }

  /** The record after `update_embedding` together with the vector it returns. */
  datatype Refinement = Refinement(record: EmployeeRecord, embedding: Embedding)

  /** `update_embedding`: push the current observation onto the history window and
      return the refinement of the anchor by that window. */
  function UpdateEmbedding(emp: EmployeeRecord, refine: Refiner): Refinement
    requires emp.sighting.Some?
  {
    var window := PushHistory(StartingHistory(emp), emp.sighting.value.embedding);
    Refinement(emp.(history := Some(window)), refine(emp.originalEncoding, window))
  }

  /** Only the history of the record changes (`encoding` and `original_encoding` stay
      as they were); the new history is the starting one with the observation pushed
      on, so it is bounded and ends with the observation; the returned vector
      refines the anchor by exactly that window. */
  lemma UpdateEmbeddingEffect(emp: EmployeeRecord, refine: Refiner)
    requires emp.sighting.Some?
    ensures var r := UpdateEmbedding(emp, refine);
      && r.record.history.Some?
      && r.record.(history := emp.history) == emp
      && r.record.history.value == PushHistory(StartingHistory(emp), emp.sighting.value.embedding)
      && |r.record.history.value| <= EMBEDDING_HISTORY_SIZE
      && r.record.history.value[|r.record.history.value| - 1] == emp.sighting.value.embedding
      && r.embedding == refine(emp.originalEncoding, r.record.history.value)
  {
    PushHistoryWindow(StartingHistory(emp), emp.sighting.value.embedding);
  }

  /** A record without a history first gets `[original_encoding]`; the update then
      leaves the anchor followed by the observation. */
  lemma UpdateWithoutHistory(emp: EmployeeRecord, refine: Refiner)
    requires emp.sighting.Some? && emp.history.None?
    ensures UpdateEmbedding(emp, refine).record.history == Some([emp.originalEncoding, emp.sighting.value.embedding])
  {
    assert [emp.originalEncoding] + [emp.sighting.value.embedding] == [emp.originalEncoding, emp.sighting.value.embedding];
  }

  /** `reset_embedding`: back to the anchor, with the anchor as the only history. */
  function ResetEmbedding(emp: EmployeeRecord): (r: EmployeeRecord)
    ensures r.encoding == r.originalEncoding == emp.originalEncoding
    ensures r.history == Some([emp.originalEncoding])
    ensures r.id == emp.id && r.instituteId == emp.instituteId && r.name == emp.name && r.sighting == emp.sighting
  {
    emp.(encoding := emp.originalEncoding, history := Some([emp.originalEncoding]))
  }

  /** Resetting twice is resetting once. */
  lemma ResetIdempotent(emp: EmployeeRecord)
    ensures ResetEmbedding(ResetEmbedding(emp)) == ResetEmbedding(emp)
  {
  }
}
