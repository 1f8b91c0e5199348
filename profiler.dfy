/**
 * The frame profiler's bookkeeping: a per-thread circular buffer of markers with a modular write
 * index, the four marker classifications, the identifier sequence behind function-scope marks,
 * the move-only guard that emits the closing mark, and the read-index reset done when a frame is drawn.
 * Timestamps come from a clock the model cannot see: they are parameters.
 */
module Profiling {
  import opened Wrappers

  const ProfilerMarkerBufferSize: nat := 16 * 1024
  const MaxNumThreads: nat := 10

  datatype MarkerType =
    | BEGIN
    | END
    | PAUSE_WAIT_FOR_JOB
    | PAUSE_WAIT_FOR_QUEUE_SPACE
    | RESUME_FROM_PAUSE
    | BEGIN_IDLE
    | END_IDLE
    | BEGIN_FUNCTION
    | END_FUNCTION

  /** Opens an interval: a task begins, a paused task resumes, or the thread starts idling. */
  predicate IsBeginMark(t: MarkerType) {
    t == BEGIN || t == RESUME_FROM_PAUSE || t == BEGIN_IDLE
  }

  /** Closes an interval: a task ends, pauses for a job or for queue space, or the thread stops idling. */
  predicate IsEndMark(t: MarkerType) {
    t == END || t == PAUSE_WAIT_FOR_JOB || t == PAUSE_WAIT_FOR_QUEUE_SPACE || t == END_IDLE
  }

  predicate IsIdleMark(t: MarkerType) {
    t == BEGIN_IDLE || t == END_IDLE
  }

  predicate IsFunctionMark(t: MarkerType) {
    t == BEGIN_FUNCTION || t == END_FUNCTION
  }

  /**
   * The classification is a partition: every marker type is exactly one of a begin mark, an end
   * mark or a function mark; idle marks are one begin and one end; the counts are three begin
   * kinds and four end kinds.
   */
  lemma MarkerClassification()
    ensures forall t: MarkerType :: IsBeginMark(t) ==> !IsEndMark(t) && !IsFunctionMark(t)
    ensures forall t: MarkerType :: IsEndMark(t) ==> !IsFunctionMark(t)
    ensures forall t: MarkerType :: IsBeginMark(t) || IsEndMark(t) || IsFunctionMark(t)
    ensures forall t: MarkerType :: IsIdleMark(t) ==> IsBeginMark(t) || IsEndMark(t)
    ensures forall t: MarkerType :: IsBeginMark(t) <==> t in {BEGIN, RESUME_FROM_PAUSE, BEGIN_IDLE}
    ensures forall t: MarkerType :: IsEndMark(t) <==> t in {END, PAUSE_WAIT_FOR_JOB, PAUSE_WAIT_FOR_QUEUE_SPACE, END_IDLE}
    ensures forall t: MarkerType :: IsIdleMark(t) <==> t in {BEGIN_IDLE, END_IDLE}
  {
  }

  /** One recorded marker. A null identifier or name is 0 or None. */
  datatype ProfileMarker = ProfileMarker(
    timePoint: int,
    identifier: nat,
    jobName: Option<string>,
    systemID: int,
    kind: MarkerType)

  const BlankMarker := ProfileMarker(0, 0, None, 0, BEGIN)

  /** Successor of a write index in the ring buffer. */
  function NextWriteIndex(w: nat): (r: nat)
    requires w < ProfilerMarkerBufferSize
    ensures r < ProfilerMarkerBufferSize
    ensures w + 1 < ProfilerMarkerBufferSize ==> r == w + 1
    ensures w + 1 == ProfilerMarkerBufferSize ==> r == 0
  {
    (w + 1) % ProfilerMarkerBufferSize
  }

  class Profiler {
    var profilerData: array2<ProfileMarker>
    var profilerNextWriteIndex: array<int>
    var profilerNextReadIndex: array<int>
    var recordNewFrame: bool
    /** The function-local static `identifierSequence` of `CreateProfileMarkGuard`. */
    var identifierSequence: nat

    ghost predicate Valid()
      reads this, profilerNextWriteIndex, profilerNextReadIndex
    {
      && profilerData.Length0 == MaxNumThreads
      && profilerData.Length1 == ProfilerMarkerBufferSize
      && profilerNextWriteIndex.Length == MaxNumThreads
      && profilerNextReadIndex.Length == MaxNumThreads
      && profilerNextWriteIndex != profilerNextReadIndex
      && (forall t :: 0 <= t < MaxNumThreads ==> 0 <= profilerNextWriteIndex[t] < ProfilerMarkerBufferSize)
      && (forall t :: 0 <= t < MaxNumThreads ==> 0 <= profilerNextReadIndex[t] < ProfilerMarkerBufferSize)
    }

    constructor ()
      ensures Valid() && recordNewFrame && identifierSequence == 0
      ensures fresh(profilerData) && fresh(profilerNextWriteIndex) && fresh(profilerNextReadIndex)
      ensures forall t :: 0 <= t < MaxNumThreads ==> profilerNextWriteIndex[t] == 0 && profilerNextReadIndex[t] == 0
    {
      profilerData := new ProfileMarker[MaxNumThreads, ProfilerMarkerBufferSize]((t, i) => BlankMarker);
      profilerNextWriteIndex := new int[MaxNumThreads](t => 0);
      profilerNextReadIndex := new int[MaxNumThreads](t => 0);
      recordNewFrame := true;
      identifierSequence := 0;
    }

    /**
     * `AddProfileMark`: when recording, writes the marker at the thread's write index and advances
     * that index by one modulo the buffer size; no other thread's slot or index changes. When not
     * recording nothing changes.
     */
    method AddProfileMark(reason: MarkerType, identifier: nat, functionName: Option<string>, threadId: int, systemID: int, now: int)
      requires Valid()
      requires 0 <= threadId < MaxNumThreads
      modifies profilerData, profilerNextWriteIndex
      ensures Valid()
      ensures !old(recordNewFrame) ==> unchanged(profilerData) && unchanged(profilerNextWriteIndex)
      ensures old(recordNewFrame) ==>
        && profilerData[threadId, old(profilerNextWriteIndex[threadId])] == ProfileMarker(now, identifier, functionName, systemID, reason)
        && profilerNextWriteIndex[threadId] == NextWriteIndex(old(profilerNextWriteIndex[threadId]))
      ensures forall t, i :: 0 <= t < MaxNumThreads && 0 <= i < ProfilerMarkerBufferSize && (t != threadId || i != old(profilerNextWriteIndex[threadId])) ==>
        profilerData[t, i] == old(profilerData[t, i])
      ensures forall t :: 0 <= t < MaxNumThreads && t != threadId ==> profilerNextWriteIndex[t] == old(profilerNextWriteIndex[t])
    {
      if recordNewFrame {
        var mark := ProfileMarker(now, identifier, functionName, systemID, reason);
        var w := profilerNextWriteIndex[threadId];
        profilerData[threadId, w] := mark;
        profilerNextWriteIndex[threadId] := NextWriteIndex(w);
      }
    }

    /**
     * `CreateProfileMarkGuard`: draws the next identifier of a strictly increasing sequence, emits a
     * BEGIN_FUNCTION with it and returns a live guard carrying that identifier and thread.
     */
    method CreateProfileMarkGuard(functionName: Option<string>, threadId: int, systemID: int, now: int) returns (g: MarkGuard)
      requires Valid()
      requires 0 <= threadId < MaxNumThreads
      modifies this`identifierSequence, profilerData, profilerNextWriteIndex
      ensures Valid() && fresh(g)
      ensures identifierSequence == old(identifierSequence) + 1
      ensures g.profiler == this && g.threadIndex == threadId && g.identifier == identifierSequence
      ensures g.Valid()
      ensures old(recordNewFrame) ==>
        && profilerData[threadId, old(profilerNextWriteIndex[threadId])] == ProfileMarker(now, g.identifier, functionName, systemID, BEGIN_FUNCTION)
        && profilerNextWriteIndex[threadId] == NextWriteIndex(old(profilerNextWriteIndex[threadId]))
      ensures !old(recordNewFrame) ==> unchanged(profilerData) && unchanged(profilerNextWriteIndex)
    {
      identifierSequence := identifierSequence + 1;
      var id := identifierSequence;
      AddProfileMark(BEGIN_FUNCTION, id, functionName, threadId, systemID, now);
      g := new MarkGuard(this, threadId, id);
    }

    /**
     * The index bookkeeping of `DrawProfilerToImGUI`. When the window is open the "Record" checkbox
     * may change `recordNewFrame` first (`checkbox` is its value afterwards); then, if recording,
     * every drawn thread's read index catches up with its write index: the frame is consumed.
     */
    method DrawProfiler(numThreads: int, windowOpen: bool, checkbox: bool)
      requires Valid()
      requires 0 <= numThreads <= MaxNumThreads
      modifies this`recordNewFrame, profilerNextReadIndex
      ensures Valid()
      ensures recordNewFrame == if windowOpen then checkbox else old(recordNewFrame)
      ensures forall l :: 0 <= l < MaxNumThreads ==>
        profilerNextReadIndex[l] == if recordNewFrame && l < numThreads then profilerNextWriteIndex[l] else old(profilerNextReadIndex[l])
    {
      if windowOpen {
        recordNewFrame := checkbox;
      }
      if recordNewFrame {
        for l := 0 to numThreads
          invariant Valid()
          invariant recordNewFrame == if windowOpen then checkbox else old(recordNewFrame)
          invariant forall k :: 0 <= k < MaxNumThreads ==>
            profilerNextReadIndex[k] == if k < l then profilerNextWriteIndex[k] else old(profilerNextReadIndex[k])
        {
          profilerNextReadIndex[l] := profilerNextWriteIndex[l];
        }
      }
    }
  }

  /**
   * `Profiler::MarkGuard`: emits END_FUNCTION once when destroyed. Moving nulls the source's
   * profiler, so a moved-from guard emits nothing; copying is deleted in the source and has no
   * counterpart here. `Destroy` models the destructor; it also nulls the profiler, standing for the
   * guard's lifetime having ended.
   */
  class MarkGuard {
    var profiler: Profiler?
    var threadIndex: int
    var identifier: nat

    ghost predicate Valid()
      reads this
    {
      profiler != null ==> 0 <= threadIndex < MaxNumThreads
    }

    constructor (p: Profiler?, t: int, id: nat)
      requires p != null ==> 0 <= t < MaxNumThreads
      ensures Valid() && profiler == p && threadIndex == t && identifier == id
    {
      profiler, threadIndex, identifier := p, t, id;
    }

    /** The move constructor: the new guard takes over; `other` is left without a profiler. */
    constructor Move(other: MarkGuard)
      requires other.Valid()
      modifies other
      ensures Valid() && other.Valid()
      ensures profiler == old(other.profiler) && threadIndex == old(other.threadIndex) && identifier == old(other.identifier)
      ensures other.profiler == null
      ensures other.threadIndex == old(other.threadIndex) && other.identifier == old(other.identifier)
    {
      profiler, threadIndex, identifier := other.profiler, other.threadIndex, other.identifier;
      new;
      other.profiler := null;
    }

    /** The destructor: a live guard emits one END_FUNCTION with its identifier and thread; a moved-from one nothing. */
    method Destroy(now: int)
      requires Valid()
      requires profiler != null ==> profiler.Valid()
      modifies this`profiler
      modifies if profiler != null then {profiler.profilerData, profiler.profilerNextWriteIndex} else {}
      ensures profiler == null
      ensures old(profiler) != null ==> old(profiler).Valid()
      ensures old(profiler) != null && old(profiler.recordNewFrame) ==>
        && old(profiler).profilerData[threadIndex, old(profiler.profilerNextWriteIndex[threadIndex])]
           == ProfileMarker(now, identifier, None, -1, END_FUNCTION)
        && old(profiler).profilerNextWriteIndex[threadIndex] == NextWriteIndex(old(profiler.profilerNextWriteIndex[threadIndex]))
      ensures old(profiler) != null ==>
        forall t, i :: 0 <= t < MaxNumThreads && 0 <= i < ProfilerMarkerBufferSize && (t != threadIndex || i != old(profiler.profilerNextWriteIndex[threadIndex])) ==>
          old(profiler).profilerData[t, i] == old(profiler.profilerData[t, i])
      ensures old(profiler) != null && !old(profiler.recordNewFrame) ==>
        && old(profiler).profilerNextWriteIndex[threadIndex] == old(profiler.profilerNextWriteIndex[threadIndex])
        && old(profiler).profilerData[threadIndex, old(profiler.profilerNextWriteIndex[threadIndex])]
           == old(profiler.profilerData[threadIndex, profiler.profilerNextWriteIndex[threadIndex]])
      ensures old(profiler) != null ==>
        forall t :: 0 <= t < MaxNumThreads && t != threadIndex ==>
          old(profiler).profilerNextWriteIndex[t] == old(profiler.profilerNextWriteIndex[t])
    {
      if profiler != null {
        profiler.AddProfileMark(END_FUNCTION, identifier, None, threadIndex, -1, now);
        profiler := null;
      }
    }
  }

  /**
   * A guard chain: a guard is created, moved into a second one, and both are destroyed. Exactly one
   * BEGIN_FUNCTION and one END_FUNCTION with the same identifier are written, in consecutive slots.
   */
  method GuardChainEmitsOneEnd(p: Profiler, threadId: int, name: string) returns (w0: int, id: nat)
    requires p.Valid() && p.recordNewFrame
    requires 0 <= threadId < MaxNumThreads
    modifies p, p.profilerData, p.profilerNextWriteIndex
    ensures p.Valid() && 0 <= w0 < ProfilerMarkerBufferSize
    ensures w0 == old(p.profilerNextWriteIndex[threadId]) && id == old(p.identifierSequence) + 1
    ensures p.profilerData[threadId, w0] == ProfileMarker(0, id, Some(name), -1, BEGIN_FUNCTION)
    ensures p.profilerData[threadId, NextWriteIndex(w0)] == ProfileMarker(2, id, None, -1, END_FUNCTION)
    ensures p.profilerNextWriteIndex[threadId] == NextWriteIndex(NextWriteIndex(w0))
  {
    w0 := p.profilerNextWriteIndex[threadId];
    var g := p.CreateProfileMarkGuard(Some(name), threadId, -1, 0);
    id := g.identifier;
    var h := new MarkGuard.Move(g);
    g.Destroy(1);
    h.Destroy(2);
  }
}
