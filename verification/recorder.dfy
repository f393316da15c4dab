/**
  The chart recorder: while the song plays, each lane's key is sampled every
  frame; a press edge remembers the clock, a release edge turns the press
  into a note (a hold when it lasted at least 250 ms). When recording stops
  the notes are sorted by time and saved. The same logic runs with two lanes
  (left/right arrows) and with six (Z, X and the four arrows).
*/
module Recorder {
  import opened Chart

  /** Shortest press that is recorded as a hold (ms). */
  const LongNoteThreshold: int := 250

  datatype Key = KeyZ | KeyX | KeyUp | KeyDown | KeyLeft | KeyRight

  /** Lane i is recorded from key `bindings[i]`. */
  const TwoLaneBindings: seq<Key> := [KeyLeft, KeyRight]
  const SixLaneBindings: seq<Key> := [KeyZ, KeyX, KeyUp, KeyDown, KeyLeft, KeyRight]

  predicate Distinct(bindings: seq<Key>) {
    forall i, j | 0 <= i < j < |bindings| :: bindings[i] != bindings[j]
  }

  /** Both recorders bind every lane to its own key. */
  lemma BindingsDistinct()
    ensures |TwoLaneBindings| == 2 && Distinct(TwoLaneBindings)
    ensures |SixLaneBindings| == 6 && Distinct(SixLaneBindings)
  {
  }

  /** A lane's memory: `key_pressed` together with `press_start_time`. The
      pair is only ever (False, None) or (True, t), so one value holds both. */
  datatype LaneState = Released | Held(start: int)

  datatype RecorderState = RecorderState(lanes: seq<LaneState>, notes: seq<Note>)

  function Init(laneCount: nat): (st: RecorderState)
    ensures |st.lanes| == laneCount && |st.notes| == 0
    ensures forall i | 0 <= i < laneCount :: st.lanes[i] == Released
  {
    RecorderState(seq(laneCount, _ => Released), [])
  }

  /** The note written when a press that began at `start` ends at `t`. */
  function ReleasedNote(start: int, side: int, t: int): (n: Note)
    ensures n.time == start && n.side == side
    ensures n.duration.Some? <==> t - start >= LongNoteThreshold
    ensures n.duration.Some? ==> n.duration.value == t - start
  {
    var duration := t - start;
    if duration >= LongNoteThreshold then Note(start, side, Some(duration))
    else Note(start, side, None)
  }

  /** A lane's next state given whether its key is down this frame. */
  function NextLane(l: LaneState, down: bool, t: int): (next: LaneState)
    ensures down <==> next.Held?
    ensures down && l.Held? ==> next == l
  {
    if down then (if l.Released? then Held(t) else l)
    else Released
  }

  /** A release edge: the key was held on the previous frame and is up now. */
  predicate ReleaseEdge(l: LaneState, down: bool) {
    l.Held? && !down
  }

  /** One lane of one frame. */
  function RecordLane(st: RecorderState, side: int, down: bool, t: int): (r: RecorderState)
    requires 0 <= side < |st.lanes|
    ensures |r.lanes| == |st.lanes|
    ensures forall j | 0 <= j < |st.lanes| && j != side :: r.lanes[j] == st.lanes[j]
    ensures r.lanes[side] == NextLane(st.lanes[side], down, t)
    ensures !ReleaseEdge(st.lanes[side], down) ==> r.notes == st.notes
    ensures ReleaseEdge(st.lanes[side], down) ==>
              r.notes == st.notes + [ReleasedNote(st.lanes[side].start, side, t)]
  {
    var l := st.lanes[side];
    var notes := if ReleaseEdge(l, down) then st.notes + [ReleasedNote(l.start, side, t)] else st.notes;
    RecorderState(st.lanes[side := NextLane(l, down, t)], notes)
  }

  /** A press edge records the clock; later held frames do not move it. */
  lemma PressStartRecordedOnce(st: RecorderState, side: int, t1: int, t2: int)
    requires 0 <= side < |st.lanes| && st.lanes[side] == Released
    ensures RecordLane(st, side, true, t1).lanes[side] == Held(t1)
    ensures RecordLane(RecordLane(st, side, true, t1), side, true, t2).lanes[side] == Held(t1)
    ensures RecordLane(RecordLane(st, side, true, t1), side, true, t2).notes == st.notes
  {
  }

  /** A press at `t1` released at `t2` yields exactly one note: at `t1`, in the
      pressed lane, with a duration exactly when it was held 250 ms or more. */
  lemma PressThenRelease(st: RecorderState, side: int, t1: int, t2: int)
    requires 0 <= side < |st.lanes| && st.lanes[side] == Released
    ensures var r := RecordLane(RecordLane(st, side, true, t1), side, false, t2);
            && r.lanes == st.lanes
            && |r.notes| == |st.notes| + 1
            && r.notes[..|st.notes|] == st.notes
            && r.notes[|st.notes|].time == t1 && r.notes[|st.notes|].side == side
            && (r.notes[|st.notes|].duration.Some? <==> t2 - t1 >= LongNoteThreshold)
  {
  }

  /** Number of lanes from `side` on that see a release edge this frame. */
  function ReleaseCount(lanes: seq<LaneState>, bindings: seq<Key>, held: set<Key>, side: nat): (c: nat)
    requires |bindings| == |lanes| && side <= |lanes|
    ensures c <= |lanes| - side
    decreases |lanes| - side
  {
    if side == |lanes| then 0
    else (if ReleaseEdge(lanes[side], bindings[side] in held) then 1 else 0)
         + ReleaseCount(lanes, bindings, held, side + 1)
  }

  /** The recorder's input pass over lanes `side`, `side + 1`, … in order;
      `held` is the set of keys down this frame. */
  function RecordFrom(st: RecorderState, bindings: seq<Key>, held: set<Key>, side: nat, t: int): (r: RecorderState)
    requires |bindings| == |st.lanes| && side <= |bindings|
    ensures |r.lanes| == |st.lanes|
    ensures forall j | 0 <= j < side :: r.lanes[j] == st.lanes[j]
    ensures forall j | side <= j < |st.lanes| :: r.lanes[j] == NextLane(st.lanes[j], bindings[j] in held, t)
    ensures |r.notes| == |st.notes| + ReleaseCount(st.lanes, bindings, held, side)
    ensures r.notes[..|st.notes|] == st.notes
    ensures forall m | |st.notes| <= m < |r.notes| ::
              var j := r.notes[m].side;
              && side <= j < |st.lanes|
              && ReleaseEdge(st.lanes[j], bindings[j] in held)
              && r.notes[m] == ReleasedNote(st.lanes[j].start, j, t)
    ensures forall m1, m2 | |st.notes| <= m1 < m2 < |r.notes| :: r.notes[m1].side < r.notes[m2].side
    decreases |bindings| - side
  {
    if side == |bindings| then st
    else
      var next := RecordLane(st, side, bindings[side] in held, t);
      var r := RecordFrom(next, bindings, held, side + 1, t);
      assert next.notes[..|st.notes|] == st.notes;
      assert r.notes[..|st.notes|] == r.notes[..|next.notes|][..|st.notes|];
      assert ReleaseCount(next.lanes, bindings, held, side + 1) == ReleaseCount(st.lanes, bindings, held, side + 1) by {
        ReleaseCountUnchanged(st.lanes, next.lanes, bindings, held, side + 1);
      }
      r
  }

  lemma {:induction false} ReleaseCountUnchanged(a: seq<LaneState>, b: seq<LaneState>, bindings: seq<Key>, held: set<Key>, side: nat)
    requires |bindings| == |a| == |b| && side <= |a|
    requires forall j | side <= j < |a| :: a[j] == b[j]
    ensures ReleaseCount(a, bindings, held, side) == ReleaseCount(b, bindings, held, side)
    decreases |a| - side
  {
    if side < |a| {
      ReleaseCountUnchanged(a, b, bindings, held, side + 1);
    }
  }

  /** One recorder frame at clock `t`. */
  function RecordFrame(st: RecorderState, bindings: seq<Key>, held: set<Key>, t: int): (r: RecorderState)
    requires |bindings| == |st.lanes|
    ensures |r.lanes| == |st.lanes|
    ensures forall j | 0 <= j < |st.lanes| :: r.lanes[j] == NextLane(st.lanes[j], bindings[j] in held, t)
    ensures |r.notes| == |st.notes| + ReleaseCount(st.lanes, bindings, held, 0)
    ensures r.notes[..|st.notes|] == st.notes
  {
    RecordFrom(st, bindings, held, 0, t)
  }

  /** What every recorded note satisfies: its lane exists and a recorded
      duration is never under the threshold. */
  predicate Recorded(n: Note, laneCount: int) {
    && 0 <= n.side < laneCount
    && (n.duration.Some? ==> n.duration.value >= LongNoteThreshold)
  }

  predicate RecorderInvariant(st: RecorderState, laneCount: int) {
    && |st.lanes| == laneCount
    && forall m | 0 <= m < |st.notes| :: Recorded(st.notes[m], laneCount)
  }

  lemma RecordFramePreservesInvariant(st: RecorderState, bindings: seq<Key>, held: set<Key>, t: int)
    requires |bindings| == |st.lanes| && RecorderInvariant(st, |bindings|)
    ensures RecorderInvariant(RecordFrame(st, bindings, held, t), |bindings|)
  {
  }

  /** A frame in which no lane sees a release edge records nothing. */
  lemma NoEdgeNoNote(st: RecorderState, bindings: seq<Key>, held: set<Key>, t: int)
    requires |bindings| == |st.lanes|
    requires forall j | 0 <= j < |st.lanes| :: !ReleaseEdge(st.lanes[j], bindings[j] in held)
    ensures RecordFrame(st, bindings, held, t).notes == st.notes
  {
    NoReleaseCountsZero(st.lanes, bindings, held, 0);
    var r := RecordFrame(st, bindings, held, t);
    assert r.notes == r.notes[..|st.notes|];
  }

  lemma {:induction false} NoReleaseCountsZero(lanes: seq<LaneState>, bindings: seq<Key>, held: set<Key>, side: nat)
    requires |bindings| == |lanes| && side <= |lanes|
    requires forall j | side <= j < |lanes| :: !ReleaseEdge(lanes[j], bindings[j] in held)
    ensures ReleaseCount(lanes, bindings, held, side) == 0
    decreases |lanes| - side
  {
    if side < |lanes| {
      NoReleaseCountsZero(lanes, bindings, held, side + 1);
    }
  }

  /** A whole recording session: one frame per `(held keys, clock)` sample. */
  function Record(st: RecorderState, bindings: seq<Key>, frames: seq<(set<Key>, int)>): (r: RecorderState)
    requires |bindings| == |st.lanes|
    ensures |r.lanes| == |st.lanes|
    ensures |r.notes| >= |st.notes| && r.notes[..|st.notes|] == st.notes
    decreases |frames|
  {
    if |frames| == 0 then st
    else
      var next := RecordFrame(st, bindings, frames[0].0, frames[0].1);
      var r := Record(next, bindings, frames[1..]);
      assert r.notes[..|st.notes|] == r.notes[..|next.notes|][..|st.notes|];
      r
  }

  lemma {:induction false} RecordPreservesInvariant(st: RecorderState, bindings: seq<Key>, frames: seq<(set<Key>, int)>)
    requires |bindings| == |st.lanes| && RecorderInvariant(st, |bindings|)
    ensures RecorderInvariant(Record(st, bindings, frames), |bindings|)
    decreases |frames|
  {
    if |frames| > 0 {
      RecordFramePreservesInvariant(st, bindings, frames[0].0, frames[0].1);
      RecordPreservesInvariant(RecordFrame(st, bindings, frames[0].0, frames[0].1), bindings, frames[1..]);
    }
  }

  /** The chart written when recording stops: the notes stably sorted by time. */
  function Save(st: RecorderState): (chart: seq<Note>)
    ensures Sorted(chart)
    ensures multiset(chart) == multiset(st.notes)
    ensures forall k :: WithTime(chart, k) == WithTime(st.notes, k)
  {
    SortByTime(st.notes)
  }

  /** Every note of a saved chart satisfies the recorder invariant, and so a
      saved note plays as a hold exactly when it carries a duration. */
  lemma SavedNotesRecorded(st: RecorderState, laneCount: int)
    requires RecorderInvariant(st, laneCount)
    ensures forall m | 0 <= m < |Save(st)| :: Recorded(Save(st)[m], laneCount)
    ensures forall m | 0 <= m < |Save(st)| :: IsHold(Save(st)[m]) <==> Save(st)[m].duration.Some?
  {
    var chart := Save(st);
    forall m | 0 <= m < |chart| ensures Recorded(chart[m], laneCount) {
      assert chart[m] in multiset(st.notes);
      var i :| 0 <= i < |st.notes| && st.notes[i] == chart[m];
    }
  }
}
