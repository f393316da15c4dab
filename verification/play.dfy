/**
  One frame of play as a pure step over an explicit state: spawn the chart
  notes that are due, move every square as a function of the song clock,
  retire the squares whose window has passed, then judge the keyboard lanes
  in order (press edge, then hold accumulation).
*/
module Play {
  import opened Chart
  import opened Config
  import opened Scoring

  /** The fields a square gets when its chart note has a `duration` field. */
  datatype HoldPart = HoldPart(duration: int, endTime: int, hitStart: bool)

  /** A live square. `y` is the top edge in screen pixels (growing downward);
      `startTime` is 0.0 until a hold head is hit, which is what the game
      reads back for a square that never got one. */
  datatype Square = Square(
    side: int,
    noteTime: int,
    spawnTime: real,
    y: real,
    holdFrames: int,
    hold: Option<HoldPart>,
    startTime: real)

  /** The square plays as a hold: it carries a positive duration. */
  predicate IsLong(sq: Square) {
    sq.hold.Some? && sq.hold.value.duration > 0
  }

  /** Its head has been hit and it is now being held. */
  predicate HitStarted(sq: Square) {
    sq.hold.Some? && sq.hold.value.hitStart
  }

  /** Game state while a level plays. `keyPressed[side]` remembers whether the
      lane's key was down on the previous frame (for press-edge detection). */
  datatype PlayState = PlayState(
    chart: seq<Note>,
    noteIndex: nat,
    squares: seq<Square>,
    score: int,
    keyPressed: seq<bool>,
    perfectPossible: int)

  /** Every square the game creates satisfies this. */
  predicate WellFormed(sq: Square) {
    && sq.spawnTime == sq.noteTime as real - TravelTime
    && 0 <= sq.holdFrames <= 1
    && (HitStarted(sq) ==> IsLong(sq))
  }

  predicate Valid(st: PlayState) {
    && st.noteIndex <= |st.chart|
    && |st.keyPressed| == Lanes
    && forall i | 0 <= i < |st.squares| :: WellFormed(st.squares[i])
  }

  /** The level is over once the chart is exhausted and no square is left. */
  predicate LevelEnded(st: PlayState) {
    st.noteIndex >= |st.chart| && |st.squares| == 0
  }

  // ---------------------------------------------------------------------
  // Level start

  /** Resets the play state and computes the chart's maximum score. */
  function StartLevel(chart: seq<Note>): (st: PlayState)
    ensures Valid(st)
    ensures st.score == 0 && st.noteIndex == 0 && st.chart == chart
    ensures st.squares == [] && st.keyPressed == [false, false]
    ensures st.perfectPossible == PerfectPossible(chart) && st.perfectPossible >= MaxPoints * |chart|
    ensures LevelEnded(st) <==> |chart| == 0
  {
    PlayState(chart, 0, [], 0, [false, false], PerfectPossible(chart))
  }

  // ---------------------------------------------------------------------
  // Spawning

  /** A note is due once the clock reaches its note time minus the lead time. */
  predicate Due(n: Note, t: real) {
    n.time as real - TravelTime <= t
  }

  /** The square created for a chart note, starting just above the screen. */
  function MakeSquare(n: Note): (sq: Square)
    ensures WellFormed(sq)
    ensures sq.side == n.side && sq.noteTime == n.time && sq.holdFrames == 0
    ensures !HitStarted(sq)
    ensures IsLong(sq) <==> IsHold(n)
    ensures sq.hold.Some? <==> n.duration.Some?
    ensures sq.hold.Some? ==> sq.hold.value.endTime == n.time + n.duration.value
  {
    Square(n.side, n.time, n.time as real - TravelTime, -SquareSize as real, 0,
           match n.duration
           case Some(d) => Some(HoldPart(d, n.time + d, false))
           case None => None,
           0.0)
  }

  /** The spawn loop: appends a square for every due note from `noteIndex` on,
      in chart order, and stops at the first note that is not yet due. */
  function SpawnDue(st: PlayState, t: real): (r: PlayState)
    requires st.noteIndex <= |st.chart|
    ensures r == st.(noteIndex := r.noteIndex, squares := r.squares)
    ensures st.noteIndex <= r.noteIndex <= |st.chart|
    ensures |r.squares| == |st.squares| + (r.noteIndex - st.noteIndex)
    ensures r.squares[..|st.squares|] == st.squares
    ensures forall k | st.noteIndex <= k < r.noteIndex ::
              Due(st.chart[k], t) && r.squares[|st.squares| + (k - st.noteIndex)] == MakeSquare(st.chart[k])
    ensures r.noteIndex == |st.chart| || !Due(st.chart[r.noteIndex], t)
    decreases |st.chart| - st.noteIndex
  {
    if st.noteIndex < |st.chart| && Due(st.chart[st.noteIndex], t) then
      var next := st.(noteIndex := st.noteIndex + 1,
                      squares := st.squares + [MakeSquare(st.chart[st.noteIndex])]);
      var r := SpawnDue(next, t);
      assert r.squares[..|next.squares|] == next.squares;
      assert r.squares[..|st.squares|] == next.squares[..|st.squares|];
      r
    else
      st
  }

  /** Spawning twice at the same clock value spawns nothing the second time. */
  lemma SpawnIdempotent(st: PlayState, t: real)
    requires st.noteIndex <= |st.chart|
    ensures SpawnDue(SpawnDue(st, t), t) == SpawnDue(st, t)
  {
  }

  /** On a time-sorted chart every note that is due has been spawned. */
  lemma SpawnComplete(st: PlayState, t: real, k: int)
    requires st.noteIndex <= |st.chart|
    requires Sorted(st.chart)
    requires 0 <= k < |st.chart| && Due(st.chart[k], t)
    ensures k < SpawnDue(st, t).noteIndex
  {
  }

  /** Spawning never changes the score. */
  lemma SpawnKeepsValid(st: PlayState, t: real)
    requires Valid(st)
    ensures Valid(SpawnDue(st, t))
    ensures SpawnDue(st, t).score == st.score
  {
    var r := SpawnDue(st, t);
    forall i | 0 <= i < |r.squares| ensures WellFormed(r.squares[i]) {
      if i < |st.squares| {
        assert r.squares[i] == r.squares[..|st.squares|][i];
      } else {
        var k := st.noteIndex + (i - |st.squares|);
        assert r.squares[|st.squares| + (k - st.noteIndex)] == MakeSquare(st.chart[k]);
      }
    }
  }

  // ---------------------------------------------------------------------
  // Position and removal

  /** The top edge at clock `t` of a square spawned at `spawnTime`: linear in
      time, from -SquareSize at spawn through the hit line one lead time later. */
  function PositionAt(spawnTime: real, t: real): real {
    -SquareSize as real + (t - spawnTime) / TravelTime * TravelDistance as real
  }

  function Abs(x: real): (a: real)
    ensures a >= 0.0 && (a == x || a == -x)
  {
    if x < 0.0 then -x else x
  }

  /** Pixel distance from the square's centre row to the hit line. */
  function Distance(sq: Square): real {
    Abs(sq.y + (SquareSize / 2) as real - HitZoneY as real)
  }

  lemma PositionIncreasing(spawnTime: real, t1: real, t2: real)
    requires t1 < t2
    ensures PositionAt(spawnTime, t1) < PositionAt(spawnTime, t2)
  {
  }

  /** How far the top edge is below the hit line at clock `t`, for a square
      that was spawned one lead time before its note time. */
  lemma PositionRelativeToNote(sq: Square, t: real)
    requires WellFormed(sq)
    ensures PositionAt(sq.spawnTime, t) - HitZoneY as real == (t - sq.noteTime as real) * 12.0 / 25.0
  {
  }

  /** The top edge reaches the hit line exactly at the note time. */
  lemma AtHitLineExactlyOnTime(sq: Square, t: real)
    requires WellFormed(sq)
    ensures PositionAt(sq.spawnTime, t) == HitZoneY as real <==> t == sq.noteTime as real
  {
  }

  /** Pressing exactly on the note time measures 25 pixels (the centre is half
      a square below the line), which grades Good, not Perfect. */
  lemma OnTimePressIsGood(sq: Square)
    requires WellFormed(sq)
    ensures Distance(sq.(y := PositionAt(sq.spawnTime, sq.noteTime as real))) == 25.0
    ensures CalculateScore(25.0) == Judgment(70, Good)
  {
  }

  /** The clock interval in which a press grades Perfect: from 93.75 ms to
      about 10.42 ms before the note time, both ends open. */
  lemma PerfectWindow(sq: Square, t: real)
    requires WellFormed(sq)
    ensures CalculateScore(Distance(sq.(y := PositionAt(sq.spawnTime, t)))).grade == Perfect
            <==> sq.noteTime as real - 375.0 / 4.0 < t < sq.noteTime as real - 125.0 / 12.0
  {
  }

  /** The clock interval in which a keyboard press can reach the square at
      all (distance under the 70-pixel threshold). */
  lemma ReachableWindow(sq: Square, t: real)
    requires WellFormed(sq)
    ensures Distance(sq.(y := PositionAt(sq.spawnTime, t))) < HitDistanceThreshold as real
            <==> sq.noteTime as real - 2375.0 / 12.0 < t < sq.noteTime as real + 375.0 / 4.0
  {
  }

  /** Recomputes `y` from the clock; nothing else about the square changes. */
  function Advance(sq: Square, t: real): Square {
    sq.(y := PositionAt(sq.spawnTime, t))
  }

  /** The removal rule, applied to a square whose `y` is current. */
  predicate Expired(sq: Square, t: real) {
    if IsLong(sq) then
      if !HitStarted(sq) then
        t > (sq.noteTime + GraceMs) as real && sq.y > (HitZoneY + SquareSize) as real
      else
        t > sq.hold.value.endTime as real + TravelTime + GraceMs as real
    else
      t > (sq.noteTime + GraceMs) as real && sq.y > Height as real
  }

  /** When each kind of square is retired, as a clock threshold. The position
      test dominates the 30 ms grace for both unhit kinds. */
  lemma ExpiryTimes(sq: Square, t: real)
    requires WellFormed(sq)
    ensures !IsLong(sq) ==>
              (Expired(Advance(sq, t), t) <==> t > sq.noteTime as real + 625.0 / 3.0)
    ensures IsLong(sq) && !HitStarted(sq) ==>
              (Expired(Advance(sq, t), t) <==> t > sq.noteTime as real + 625.0 / 6.0)
    ensures IsLong(sq) && HitStarted(sq) ==>
              (Expired(Advance(sq, t), t) <==> t > sq.hold.value.endTime as real + 6875.0 / 6.0 + 30.0)
  {
  }

  /** The position-and-removal pass: every square moves to its position at
      `t`, and those whose window has passed are dropped, order kept. */
  function Sweep(sqs: seq<Square>, t: real): (r: seq<Square>)
    ensures |r| <= |sqs|
    ensures forall j | 0 <= j < |r| ::
              !Expired(r[j], t) && exists i | 0 <= i < |sqs| :: r[j] == Advance(sqs[i], t)
    ensures forall i | 0 <= i < |sqs| :: !Expired(Advance(sqs[i], t), t) ==> Advance(sqs[i], t) in r
    decreases |sqs|
  {
    if |sqs| == 0 then []
    else
      var a := Advance(sqs[0], t);
      var rest := Sweep(sqs[1..], t);
      var r := (if Expired(a, t) then [] else [a]) + rest;
      assert forall i | 1 <= i < |sqs| :: sqs[i] == sqs[1..][i - 1];
      r
  }

  /** The pass treats each square on its own and keeps their order: sweeping
      a concatenation is the concatenation of the sweeps. */
  lemma {:induction false} SweepAppend(a: seq<Square>, b: seq<Square>, t: real)
    ensures Sweep(a + b, t) == Sweep(a, t) + Sweep(b, t)
    decreases |a|
  {
    if |a| == 0 {
      assert a + b == b;
    } else {
      assert (a + b)[0] == a[0];
      assert (a + b)[1..] == a[1..] + b;
      SweepAppend(a[1..], b, t);
    }
  }

  /** A single square survives the pass, moved, exactly when it has not expired. */
  lemma SweepSingle(sq: Square, t: real)
    ensures Sweep([sq], t) == if Expired(Advance(sq, t), t) then [] else [Advance(sq, t)]
  {
  }

  lemma SweepKeepsWellFormed(sqs: seq<Square>, t: real)
    requires forall i | 0 <= i < |sqs| :: WellFormed(sqs[i])
    ensures forall j | 0 <= j < |Sweep(sqs, t)| :: WellFormed(Sweep(sqs, t)[j])
  {
  }

  // ---------------------------------------------------------------------
  // Judging a press

  /** The two press paths differ in their threshold and in whether a hold
      already being held can be chosen again. */
  datatype Policy = Policy(threshold: int, skipHitHolds: bool)

  const KeyboardPolicy: Policy := Policy(HitDistanceThreshold, true)
  const GpioPolicy: Policy := Policy(GpioHitDistanceThreshold, false)

  predicate Eligible(sq: Square, side: int, p: Policy) {
    && sq.side == side
    && !(p.skipHitHolds && HitStarted(sq))
    && Distance(sq) < p.threshold as real
  }

  /** `c` is the scan's answer over the first `n` squares: the eligible square
      nearest the hit line, the earliest one among equals; None when none is
      eligible. */
  predicate ChoiceUpTo(sqs: seq<Square>, side: int, p: Policy, c: Option<nat>, n: int)
    requires 0 <= n <= |sqs|
  {
    match c
    case None => forall j | 0 <= j < n :: !Eligible(sqs[j], side, p)
    case Some(k) =>
      && k < n
      && Eligible(sqs[k], side, p)
      && (forall j | 0 <= j < n && Eligible(sqs[j], side, p) :: Distance(sqs[k]) <= Distance(sqs[j]))
      && (forall j | 0 <= j < k && Eligible(sqs[j], side, p) :: Distance(sqs[k]) < Distance(sqs[j]))
  }

  predicate IsChoice(sqs: seq<Square>, side: int, p: Policy, c: Option<nat>) {
    ChoiceUpTo(sqs, side, p, c, |sqs|)
  }

  /** The scan with a running minimum: a square replaces the best so far only
      when it is strictly nearer. */
  function ClosestFrom(sqs: seq<Square>, side: int, p: Policy, i: int, best: Option<nat>): (c: Option<nat>)
    requires 0 <= i <= |sqs|
    requires ChoiceUpTo(sqs, side, p, best, i)
    ensures IsChoice(sqs, side, p, c)
    decreases |sqs| - i
  {
    if i == |sqs| then best
    else if Eligible(sqs[i], side, p) && (best.None? || Distance(sqs[i]) < Distance(sqs[best.value])) then
      ClosestFrom(sqs, side, p, i + 1, Some(i))
    else
      ClosestFrom(sqs, side, p, i + 1, best)
  }

  function Closest(sqs: seq<Square>, side: int, p: Policy): (c: Option<nat>)
    ensures IsChoice(sqs, side, p, c)
  {
    ClosestFrom(sqs, side, p, 0, None)
  }

  /** The choice is determined: there is exactly one answer a scan may give. */
  lemma ChoiceUnique(sqs: seq<Square>, side: int, p: Policy, c1: Option<nat>, c2: Option<nat>)
    requires IsChoice(sqs, side, p, c1) && IsChoice(sqs, side, p, c2)
    ensures c1 == c2
  {
  }

  function Max(a: real, b: real): real {
    if a >= b then a else b
  }

  /** Marks a hold square's head as hit and records when its perfect window
      would have ended (`start_time`), never earlier than the press. */
  function HitHold(sq: Square, t: real): (h: Square)
    requires sq.hold.Some?
    ensures HitStarted(h) && h.startTime >= t
    ensures h == sq.(hold := h.hold, startTime := h.startTime)
    ensures h.hold.value == sq.hold.value.(hitStart := true)
  {
    var framesToPerfectEnd := Max(((HitZoneY + 20) as real - sq.y) / Speed as real, 0.0);
    sq.(hold := Some(sq.hold.value.(hitStart := true)), startTime := t + framesToPerfectEnd * FrameMs)
  }

  /** For a head hit no later than when its top edge reaches 20 pixels below
      the line, holding starts to pay 125/3 ms after the note time, whatever
      the press time; a later hit starts paying at the press. */
  lemma HoldPaysFrom(sq: Square, t: real)
    requires WellFormed(sq) && sq.hold.Some?
    ensures PositionAt(sq.spawnTime, t) <= (HitZoneY + 20) as real ==>
              HitHold(Advance(sq, t), t).startTime == sq.noteTime as real + 125.0 / 3.0
    ensures PositionAt(sq.spawnTime, t) > (HitZoneY + 20) as real ==>
              HitHold(Advance(sq, t), t).startTime == t
  {
  }

  /** The press edge on a lane: the chosen square scores its judgment; a tap
      is removed, a hold stays and starts being held. */
  function PressLane(st: PlayState, side: int, t: real): (r: PlayState)
    ensures r == st.(squares := r.squares, score := r.score)
    ensures Closest(st.squares, side, KeyboardPolicy).None? ==> r == st
    ensures Closest(st.squares, side, KeyboardPolicy).Some? ==>
              var k := Closest(st.squares, side, KeyboardPolicy).value;
              var sq := st.squares[k];
              && r.score == st.score + CalculateScore(Distance(sq)).points
              && (IsLong(sq) ==>
                    && |r.squares| == |st.squares|
                    && r.squares[k] == HitHold(sq, t)
                    && (forall j | 0 <= j < |st.squares| && j != k :: r.squares[j] == st.squares[j]))
              && (!IsLong(sq) ==>
                    && |r.squares| == |st.squares| - 1
                    && (forall j | 0 <= j < k :: r.squares[j] == st.squares[j])
                    && (forall j | k < j < |st.squares| :: r.squares[j - 1] == st.squares[j]))
  {
    match Closest(st.squares, side, KeyboardPolicy)
    case None => st
    case Some(k) =>
      var sq := st.squares[k];
      var score := st.score + CalculateScore(Distance(sq)).points;
      if IsLong(sq) then
        st.(squares := st.squares[k := HitHold(sq, t)], score := score)
      else
        st.(squares := st.squares[..k] + st.squares[k + 1..], score := score)
  }

  /** The GPIO button variant of a press: wider threshold, may pick a hold
      already being held, and always removes the chosen square. */
  function GpioPress(st: PlayState, side: int, t: real): (r: PlayState)
    ensures r == st.(squares := r.squares, score := r.score)
    ensures Closest(st.squares, side, GpioPolicy).None? ==> r == st
    ensures Closest(st.squares, side, GpioPolicy).Some? ==>
              var k := Closest(st.squares, side, GpioPolicy).value;
              && r.score == st.score + CalculateScore(Distance(st.squares[k])).points
              && |r.squares| == |st.squares| - 1
              && (forall j | 0 <= j < k :: r.squares[j] == st.squares[j])
              && (forall j | k < j < |st.squares| :: r.squares[j - 1] == st.squares[j])
  {
    match Closest(st.squares, side, GpioPolicy)
    case None => st
    case Some(k) =>
      st.(squares := st.squares[..k] + st.squares[k + 1..],
          score := st.score + CalculateScore(Distance(st.squares[k])).points)
  }

  // ---------------------------------------------------------------------
  // Holding

  /** A held square earns on this frame: its lane is down, its head was hit,
      and the clock is inside [start_time, end_time]. */
  predicate Qualifies(sq: Square, side: int, t: real) {
    && sq.side == side
    && IsLong(sq)
    && HitStarted(sq)
    && sq.startTime <= t <= sq.hold.value.endTime as real
  }

  /** One held frame for one square: count the frame, and on the second one
      pay the bonus and reset the count. */
  function TickSquare(sq: Square, side: int, t: real): (r: (Square, int))
    ensures r.0 == sq.(holdFrames := r.0.holdFrames)
    ensures !Qualifies(sq, side, t) ==> r == (sq, 0)
    ensures Qualifies(sq, side, t) && 0 <= sq.holdFrames <= 1 ==>
              r.0.holdFrames == 1 - sq.holdFrames && r.1 == HoldBonus * sq.holdFrames
  {
    if Qualifies(sq, side, t) then
      if sq.holdFrames + 1 >= 2 then (sq.(holdFrames := 0), HoldBonus)
      else (sq.(holdFrames := sq.holdFrames + 1), 0)
    else (sq, 0)
  }

  /** The hold pass over all squares of a lane whose key is down. */
  function HoldTick(sqs: seq<Square>, side: int, t: real): (r: (seq<Square>, int))
    ensures |r.0| == |sqs|
    ensures forall i | 0 <= i < |sqs| ::
              r.0[i] == sqs[i].(holdFrames := r.0[i].holdFrames)
    ensures forall i | 0 <= i < |sqs| && !Qualifies(sqs[i], side, t) :: r.0[i] == sqs[i]
    ensures forall i | 0 <= i < |sqs| && Qualifies(sqs[i], side, t) && 0 <= sqs[i].holdFrames <= 1 ::
              r.0[i].holdFrames == 1 - sqs[i].holdFrames
    ensures 0 <= r.1 <= HoldBonus * |sqs| && r.1 % HoldBonus == 0
    ensures r.1 == 0 <==> forall i | 0 <= i < |sqs| :: !(Qualifies(sqs[i], side, t) && sqs[i].holdFrames >= 1)
    decreases |sqs|
  {
    if |sqs| == 0 then ([], 0)
    else
      var (head, bonus) := TickSquare(sqs[0], side, t);
      var (rest, more) := HoldTick(sqs[1..], side, t);
      assert forall i | 1 <= i < |sqs| :: sqs[i] == sqs[1..][i - 1];
      ([head] + rest, bonus + more)
  }

  /** The hold bonus one square collects over a run of consecutive held frames. */
  function HoldRun(sq: Square, side: int, ts: seq<real>): (Square, int)
    decreases |ts|
  {
    if |ts| == 0 then (sq, 0)
    else
      var (next, bonus) := TickSquare(sq, side, ts[0]);
      var (last, more) := HoldRun(next, side, ts[1..]);
      (last, bonus + more)
  }

  /** Holding through `n` qualifying frames from a fresh count pays the bonus
      on every second frame: n / 2 bonuses, and n % 2 frames left counted. */
  lemma {:induction false} HoldRunPaysEverySecondFrame(sq: Square, side: int, ts: seq<real>)
    requires 0 <= sq.holdFrames <= 1
    requires forall i | 0 <= i < |ts| :: Qualifies(sq, side, ts[i])
    ensures HoldRun(sq, side, ts).1 == HoldBonus * ((sq.holdFrames + |ts|) / 2)
    ensures HoldRun(sq, side, ts).0.holdFrames == (sq.holdFrames + |ts|) % 2
    decreases |ts|
  {
    if |ts| > 0 {
      var next := TickSquare(sq, side, ts[0]).0;
      assert next == sq.(holdFrames := next.holdFrames);
      forall i | 0 <= i < |ts[1..]| ensures Qualifies(next, side, ts[1..][i]) {
        assert Qualifies(sq, side, ts[i + 1]);
      }
      HoldRunPaysEverySecondFrame(next, side, ts[1..]);
    }
  }

  /** The square of a hold note whose head is hit at clock `t`: moved to its
      position at `t`, then marked as being held. */
  function HitAt(n: Note, t: real): (h: Square)
    requires IsHold(n)
    ensures WellFormed(h) && h.holdFrames == 0
    ensures h.side == n.side && h.noteTime == n.time
    ensures HitStarted(h) && h.hold.value.endTime == n.time + n.duration.value
  {
    HitHold(Advance(MakeSquare(n), t), t)
  }

  /** What the maximum score assumes of a hold note: a Perfect head plus the
      bonus of one qualifying frame for every whole frame of its duration.
      The clock values here are not tied to a frame rate; see
      `HoldShortfall` for what frames at 60 fps can actually collect. */
  lemma HoldBonusMatchesPerfectPossible(n: Note, t: real, ts: seq<real>)
    requires IsHold(n)
    requires |ts| == HoldFrames(n.duration.value)
    requires forall i | 0 <= i < |ts| :: Qualifies(HitAt(n, t), n.side, ts[i])
    ensures NoteMax(n) == MaxPoints + HoldRun(HitAt(n, t), n.side, ts).1
  {
    HoldRunPaysEverySecondFrame(HitAt(n, t), n.side, ts);
  }

  /** Clock values of successive frames: at least one 60 fps frame apart. */
  predicate FrameSpaced(ts: seq<real>) {
    forall i | 0 <= i < |ts| - 1 :: ts[i] + FrameMs <= ts[i + 1]
  }

  /** How many of the clock values lie in [lo, hi]. */
  function CountIn(ts: seq<real>, lo: real, hi: real): (c: nat)
    ensures c <= |ts|
    ensures hi < lo ==> c == 0
    decreases |ts|
  {
    if |ts| == 0 then 0
    else (if lo <= ts[0] <= hi then 1 else 0) + CountIn(ts[1..], lo, hi)
  }

  /** For a held square in its own lane, a frame qualifies exactly when its
      clock lies in [start_time, end_time]; the bonus is paid on every second
      such frame, whatever frames fall outside the window in between. */
  lemma {:induction false} HoldRunCountsWindow(sq: Square, side: int, ts: seq<real>)
    requires sq.side == side && IsLong(sq) && HitStarted(sq) && 0 <= sq.holdFrames <= 1
    ensures var q := CountIn(ts, sq.startTime, sq.hold.value.endTime as real);
            && HoldRun(sq, side, ts).1 == HoldBonus * ((sq.holdFrames + q) / 2)
            && HoldRun(sq, side, ts).0.holdFrames == (sq.holdFrames + q) % 2
    decreases |ts|
  {
    if |ts| > 0 {
      var next := TickSquare(sq, side, ts[0]).0;
      assert next == sq.(holdFrames := next.holdFrames);
      HoldRunCountsWindow(next, side, ts[1..]);
    }
  }

  /** Every frame after the first is at least one frame period later. */
  lemma {:induction false} SpacedAbove(ts: seq<real>, j: int)
    requires FrameSpaced(ts) && 1 <= j < |ts|
    ensures ts[0] + FrameMs <= ts[j]
    decreases j
  {
    if j > 1 {
      SpacedAbove(ts, j - 1);
    }
  }

  /** Raising the lower end of the window up to a bound every value meets
      counts the same values. */
  lemma {:induction false} CountInRaiseLow(ts: seq<real>, lo: real, m: real, hi: real)
    requires lo <= m
    requires forall i | 0 <= i < |ts| :: m <= ts[i]
    ensures CountIn(ts, lo, hi) == CountIn(ts, m, hi)
    decreases |ts|
  {
    if |ts| > 0 {
      CountInRaiseLow(ts[1..], lo, m, hi);
    }
  }

  /** Frames at least one frame period apart fit into a window of width w at
      most w / FrameMs + 1 times. */
  lemma {:induction false} SpacedCount(ts: seq<real>, lo: real, hi: real)
    requires FrameSpaced(ts)
    ensures CountIn(ts, lo, hi) >= 1 ==> lo + (CountIn(ts, lo, hi) - 1) as real * FrameMs <= hi
    decreases |ts|, 1
  {
    if |ts| > 0 {
      SpacedTail(ts);
      if lo <= ts[0] <= hi && CountIn(ts[1..], lo, hi) >= 1 {
        SpacedCountFromHead(ts, lo, hi);
      } else {
        SpacedCount(ts[1..], lo, hi);
      }
    }
  }

  /** The step of `SpacedCount` when the first frame is in the window and a
      later one is too: every later frame is at least a frame after it. */
  lemma {:induction false} SpacedCountFromHead(ts: seq<real>, lo: real, hi: real)
    requires FrameSpaced(ts) && |ts| > 0 && lo <= ts[0] <= hi
    requires CountIn(ts[1..], lo, hi) >= 1
    ensures lo + (CountIn(ts, lo, hi) - 1) as real * FrameMs <= hi
    decreases |ts|, 0
  {
    var tail := ts[1..];
    var c := CountIn(tail, lo, hi);
    var m := ts[0] + FrameMs;
    forall i | 0 <= i < |tail| ensures m <= tail[i] {
      SpacedAbove(ts, i + 1);
    }
    CountInRaiseLow(tail, lo, m, hi);
    SpacedTail(ts);
    SpacedCount(tail, m, hi);
    SlideWindow(lo, ts[0], hi, c);
  }

  lemma SpacedTail(ts: seq<real>)
    requires FrameSpaced(ts) && |ts| > 0
    ensures FrameSpaced(ts[1..])
  {
  }

  lemma SlideWindow(lo: real, x: real, hi: real, c: int)
    requires c >= 1 && lo <= x
    requires x + FrameMs + (c - 1) as real * FrameMs <= hi
    ensures lo + c as real * FrameMs <= hi
  {
  }

  /** Whatever the press time, holding starts to pay no earlier than 125/3 ms
      after the note time. */
  lemma HitPaysNoEarlier(n: Note, t: real)
    requires IsHold(n)
    ensures HitAt(n, t).startTime >= n.time as real + 125.0 / 3.0
  {
  }

  /** Holding a hold note over frames at least one frame period apart can
      never earn more than the maximum score credits it with; when its whole
      frame count is even and positive it always earns at least one bonus
      less. The maximum counts frames over the whole duration, but holding
      pays only from 125/3 ms after the note time. */
  lemma HoldShortfall(n: Note, t: real, ts: seq<real>)
    requires IsHold(n) && FrameSpaced(ts)
    ensures var earned := CalculateScore(Distance(Advance(MakeSquare(n), t))).points
                          + HoldRun(HitAt(n, t), n.side, ts).1;
            && earned <= NoteMax(n)
            && (HoldFrames(n.duration.value) > 0 && HoldFrames(n.duration.value) % 2 == 0 ==>
                  earned <= NoteMax(n) - HoldBonus)
  {
    var h := HitAt(n, t);
    var f := HoldFrames(n.duration.value);
    var q := CountIn(ts, h.startTime, h.hold.value.endTime as real);
    HoldRunCountsWindow(h, n.side, ts);
    HitPaysNoEarlier(n, t);
    SpacedCount(ts, h.startTime, h.hold.value.endTime as real);
    assert FrameMs == 50.0 / 3.0;
    assert q == 0 || q < f;
  }

  /** A 500 ms hold at 1000 ms pressed at 950 ms gets a Perfect head, one
      pixel from the line, yet earns at most 170 of the 175 points the
      maximum score credits it with. */
  lemma HalfSecondHoldFallsShort(ts: seq<real>)
    requires FrameSpaced(ts)
    ensures var n := Note(1000, 0, Some(500));
            && NoteMax(n) == 175
            && CalculateScore(Distance(Advance(MakeSquare(n), 950.0))) == Judgment(100, Perfect)
            && CalculateScore(Distance(Advance(MakeSquare(n), 950.0))).points
               + HoldRun(HitAt(n, 950.0), 0, ts).1 <= 170
  {
    var n := Note(1000, 0, Some(500));
    PositionRelativeToNote(MakeSquare(n), 950.0);
    HoldShortfall(n, 950.0, ts);
  }

  // ---------------------------------------------------------------------
  // Keyboard input and the frame

  /** One lane of the keyboard pass. On a down key: judge a press edge, then
      run the hold pass; on an up key: just forget the key was down. */
  function LaneInput(st: PlayState, side: int, down: bool, t: real): (r: PlayState)
    requires 0 <= side < |st.keyPressed|
    ensures r == st.(squares := r.squares, score := r.score, keyPressed := r.keyPressed)
    ensures r.keyPressed == st.keyPressed[side := down]
    ensures r.score >= st.score
    ensures !down ==> r.squares == st.squares && r.score == st.score
    ensures down && st.keyPressed[side] ==> |r.squares| == |st.squares|
  {
    if down then
      var marked := st.(keyPressed := st.keyPressed[side := true]);
      var judged := if st.keyPressed[side] then marked else PressLane(marked, side, t);
      var held := HoldTick(judged.squares, side, t);
      judged.(squares := held.0, score := judged.score + held.1)
    else
      st.(keyPressed := st.keyPressed[side := false])
  }

  lemma LaneInputKeepsWellFormed(st: PlayState, side: int, down: bool, t: real)
    requires 0 <= side < |st.keyPressed|
    requires forall i | 0 <= i < |st.squares| :: WellFormed(st.squares[i])
    ensures forall i | 0 <= i < |LaneInput(st, side, down, t).squares| ::
              WellFormed(LaneInput(st, side, down, t).squares[i])
  {
    if down {
      var marked := st.(keyPressed := st.keyPressed[side := true]);
      var judged := if st.keyPressed[side] then marked else PressLane(marked, side, t);
      assert forall i | 0 <= i < |judged.squares| :: WellFormed(judged.squares[i]) by {
        if !st.keyPressed[side] {
          var c := Closest(marked.squares, side, KeyboardPolicy);
          if c.Some? {
            var k := c.value;
            forall i | 0 <= i < |judged.squares| ensures WellFormed(judged.squares[i]) {
              if IsLong(st.squares[k]) {
                if i != k {
                  assert judged.squares[i] == st.squares[i];
                }
              } else if i < k {
                assert judged.squares[i] == st.squares[i];
              } else {
                assert judged.squares[i] == st.squares[i + 1];
              }
            }
          }
        }
      }
      var held := HoldTick(judged.squares, side, t);
      forall i | 0 <= i < |held.0| ensures WellFormed(held.0[i]) {
        assert WellFormed(judged.squares[i]);
      }
    }
  }

  /** The keyboard pass over lanes `side`, `side + 1`, … in order. */
  function InputFrom(st: PlayState, keys: seq<bool>, side: nat, t: real): (r: PlayState)
    requires |keys| == |st.keyPressed| && side <= |keys|
    ensures r == st.(squares := r.squares, score := r.score, keyPressed := r.keyPressed)
    ensures r.keyPressed == st.keyPressed[..side] + keys[side..]
    ensures r.score >= st.score
    ensures (forall j | side <= j < |keys| :: !keys[j]) ==> r.squares == st.squares && r.score == st.score
    decreases |keys| - side
  {
    if side == |keys| then
      assert keys[side..] == [];
      assert st.keyPressed[..side] == st.keyPressed;
      st
    else
      var next := LaneInput(st, side, keys[side], t);
      var r := InputFrom(next, keys, side + 1, t);
      KeyPressedStep(st.keyPressed, keys, side);
      r
  }

  lemma KeyPressedStep(pressed: seq<bool>, keys: seq<bool>, side: nat)
    requires |keys| == |pressed| && side < |keys|
    ensures pressed[side := keys[side]][..side + 1] + keys[side + 1..] == pressed[..side] + keys[side..]
  {
  }

  lemma {:induction false} InputFromKeepsWellFormed(st: PlayState, keys: seq<bool>, side: nat, t: real)
    requires |keys| == |st.keyPressed| && side <= |keys|
    requires forall i | 0 <= i < |st.squares| :: WellFormed(st.squares[i])
    ensures forall i | 0 <= i < |InputFrom(st, keys, side, t).squares| ::
              WellFormed(InputFrom(st, keys, side, t).squares[i])
    decreases |keys| - side
  {
    if side < |keys| {
      LaneInputKeepsWellFormed(st, side, keys[side], t);
      InputFromKeepsWellFormed(LaneInput(st, side, keys[side], t), keys, side + 1, t);
    }
  }

  /** One frame of play at clock `t` with key states `keys`: spawn, move and
      retire, then the keyboard pass lane by lane. */
  function Frame(st: PlayState, keys: seq<bool>, t: real): (r: PlayState)
    requires st.noteIndex <= |st.chart| && |keys| == |st.keyPressed|
    ensures r.chart == st.chart && r.perfectPossible == st.perfectPossible
    ensures st.noteIndex <= r.noteIndex <= |st.chart|
    ensures r.keyPressed == keys
    ensures r.score >= st.score
  {
    var spawned := SpawnDue(st, t);
    var swept := spawned.(squares := Sweep(spawned.squares, t));
    var r := InputFrom(swept, keys, 0, t);
    assert r.keyPressed == swept.keyPressed[..0] + keys[0..];
    r
  }

  /** Every frame keeps the state well formed. */
  lemma FrameKeepsValid(st: PlayState, keys: seq<bool>, t: real)
    requires Valid(st) && |keys| == Lanes
    ensures Valid(Frame(st, keys, t))
  {
    SpawnKeepsValid(st, t);
    var spawned := SpawnDue(st, t);
    SweepKeepsWellFormed(spawned.squares, t);
    var swept := spawned.(squares := Sweep(spawned.squares, t));
    InputFromKeepsWellFormed(swept, keys, 0, t);
  }

  /** With no key down, spawning and automatic removal never change the score. */
  lemma RemovalNeverScores(st: PlayState, keys: seq<bool>, t: real)
    requires st.noteIndex <= |st.chart| && |keys| == |st.keyPressed|
    requires forall j | 0 <= j < |keys| :: !keys[j]
    ensures Frame(st, keys, t).score == st.score
  {
  }

  /** Once the level has ended it stays ended, and the score is frozen. */
  lemma LevelEndIsStable(st: PlayState, keys: seq<bool>, t: real)
    requires st.noteIndex <= |st.chart| && |keys| == |st.keyPressed|
    requires LevelEnded(st)
    ensures LevelEnded(Frame(st, keys, t))
    ensures Frame(st, keys, t).score == st.score
  {
    var spawned := SpawnDue(st, t);
    assert spawned == st;
    var swept := spawned.(squares := Sweep(spawned.squares, t));
    assert swept.squares == [];
    InputOnEmpty(swept, keys, 0, t);
  }

  lemma {:induction false} InputOnEmpty(st: PlayState, keys: seq<bool>, side: nat, t: real)
    requires |keys| == |st.keyPressed| && side <= |keys|
    requires |st.squares| == 0
    ensures |InputFrom(st, keys, side, t).squares| == 0
    ensures InputFrom(st, keys, side, t).score == st.score
    decreases |keys| - side
  {
    if side < |keys| {
      var next := LaneInput(st, side, keys[side], t);
      assert Closest(st.squares, side, KeyboardPolicy) == None;
      InputOnEmpty(next, keys, side + 1, t);
    }
  }
}
