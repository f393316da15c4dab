/**
  Properties that connect the recorder to the game, and small concrete runs
  of the frame step.
*/
module Session {
  import opened Chart
  import opened Config
  import opened Scoring
  import opened Play
  import opened Recorder

  /** A chart saved by the recorder meets the spawn loop's ordering
      assumption: at any clock value, every note already due has been spawned
      on the first frame of the level. */
  lemma SavedChartSpawnsEveryDueNote(rec: RecorderState, t: real, k: int)
    requires 0 <= k < |Save(rec)| && Due(Save(rec)[k], t)
    ensures k < SpawnDue(StartLevel(Save(rec)), t).noteIndex
  {
  }

  /** Every lane the two-lane recorder writes has a hit zone in the game. */
  lemma TwoLaneRecordingIsPlayable(frames: seq<(set<Key>, int)>)
    ensures var chart := Save(Record(Init(2), TwoLaneBindings, frames));
            forall m | 0 <= m < |chart| :: 0 <= chart[m].side < Lanes
  {
    var rec := Record(Init(2), TwoLaneBindings, frames);
    RecordPreservesInvariant(Init(2), TwoLaneBindings, frames);
    SavedNotesRecorded(rec, 2);
  }

  /** The six-lane recorder can write a lane the game has no hit zone for:
      tapping the right arrow records lane 5. */
  lemma SixLaneRecordingCanLeaveThePlayfield()
    ensures var rec := Record(Init(6), SixLaneBindings, [({KeyRight}, 0), ({}, 100)]);
            |rec.notes| == 1 && rec.notes[0] == Note(0, 5, None) && rec.notes[0].side >= Lanes
  {
  }

  /** A single tap at 1000 ms, pressed at 950 ms on a fresh level: the press
      lands one pixel from the line, scores a Perfect 100 out of 100, and the
      level is over after that frame. */
  lemma TapScenario()
    ensures var chart := [Note(1000, 0, None)];
            var st := Frame(StartLevel(chart), [true, false], 950.0);
            && StartLevel(chart).perfectPossible == 100
            && st.score == 100
            && LevelEnded(st)
  {
    TravelTimeValue();
    var chart := [Note(1000, 0, None)];
    var st0 := StartLevel(chart);
    var spawned := SpawnDue(st0, 950.0);
    assert Due(chart[0], 950.0);
    assert spawned.squares == [MakeSquare(chart[0])];
    var sq := Advance(MakeSquare(chart[0]), 950.0);
    PositionRelativeToNote(MakeSquare(chart[0]), 950.0);
    assert sq.y == 476.0;
    assert Distance(sq) == 1.0;
    assert !Expired(sq, 950.0);
    var swept := spawned.(squares := Sweep(spawned.squares, 950.0));
    assert swept.squares == [sq];
    assert Eligible(sq, 0, KeyboardPolicy);
    assert IsChoice([sq], 0, KeyboardPolicy, Some(0));
    ChoiceUnique([sq], 0, KeyboardPolicy, Closest([sq], 0, KeyboardPolicy), Some(0));
    var lane0 := LaneInput(swept, 0, true, 950.0);
    assert lane0.squares == [] && lane0.score == 100;
    var lane1 := LaneInput(lane0, 1, false, 950.0);
    assert lane1.squares == [] && lane1.score == 100;
    assert Frame(st0, [true, false], 950.0) == InputFrom(swept, [true, false], 0, 950.0);
  }

  /** The GPIO path may pick a hold that is already being held and remove it;
      the keyboard path skips it. */
  lemma GpioPicksHeldHold()
    ensures var sq := Square(0, 1000, 1000.0 - TravelTime, 475.0, 0, Some(HoldPart(500, 1500, true)), 1000.0);
            && Closest([sq], 0, KeyboardPolicy) == None
            && Closest([sq], 0, GpioPolicy) == Some(0)
            && GpioPress(PlayState([], 0, [sq], 0, [false, false], 0), 0, 1000.0).squares == []
  {
  }

  /** The GPIO path reaches squares 70 to 99 pixels away that the keyboard
      path cannot. */
  lemma GpioReachesFarther()
    ensures var sq := Square(1, 1000, 1000.0 - TravelTime, 555.0, 0, None, 0.0);
            && Closest([sq], 1, KeyboardPolicy) == None
            && Closest([sq], 1, GpioPolicy) == Some(0)
  {
  }
}
