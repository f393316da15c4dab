# Two-lane rhythm game: play step, judgment and chart recorder in Dafny

This project models the logic core of a small pygame rhythm game and its chart
recorder as pure functions over immutable state, and proves properties of it.

- **Chart** (`chart.dfy`): a chart note is `Note(time, side, duration?)`, with
  times and durations in whole milliseconds. `SortByTime` is the recorder's
  stable sort by time.
- **Config** (`config.dfy`): the game's constants. The lead time
  `travel_time_ms` is the exact rational 6875/6 ms.
- **Scoring** (`scoring.dfy`): `calculate_score` is the judgment table.
  `perfect_possible` is the maximum score computed when a level starts.
- **Play** (`play.dfy`): one frame of play. The state holds the chart, the
  index of the next note to spawn, the live squares, the score and the
  previous key state of each lane. A frame at song time `t` does four things
  in order:
  1. spawns every due note, in chart order;
  2. recomputes each square's `y` from `t`;
  3. drops the squares whose window has passed;
  4. runs the keyboard pass lane by lane: a press edge judges the nearest
     eligible square, then a held key accrues hold bonus.

  The song clock is a `real`.
- **Recorder** (`recorder.dfy`): the per-lane press/release machine that
  turns key samples into notes, and the save step that sorts them. It is one
  model for both recorders: the two-lane one (left/right arrows) and the
  six-lane one (Z, X and the four arrows).
- **Session** (`session.dfy`): properties that connect the recorder's output
  to the game, and small concrete runs.

Modelling choices:

- Python's `list.remove(sq)` removes the first element equal by value.
  - In the removal pass, an earlier element equal to `sq` would have been
    judged the same way and already removed.
  - In the press path, the chosen square is the first of its value, because
    ties keep the earlier square.
  - So in both places `remove` takes out the element being looked at. The
    model removes that index, or filters the sequence.
- A square's `start_time` is read with `.get("start_time", 0)`. The model
  starts it at `0.0`. Only a square whose head was hit reads it, and the hit
  sets it.
- The recorder keeps `key_pressed` and `press_start_time` as a pair that is
  only ever `(False, None)` or `(True, t)`. The model stores the pair as one
  value, `Released | Held(start)`. So the `start_time is None` fallback on a
  release cannot occur.
- Key input is a per-frame argument: a `seq<bool>` per lane for the game, and
  the set of held keys for the recorder.

## Notable behaviours of the code

These follow from the code as written, and the model keeps them.

- A press exactly on the note time measures 25 pixels and grades Good, not
  Perfect.
  - The distance is taken from the square's centre (game2buttonver.py:166),
    but the top edge is what reaches the hit line at the note time
    (game2buttonver.py:417-423, `Play.OnTimePressIsGood`).
  - A Perfect needs a press between 93.75 ms and 125/12 ms (about 10.4 ms)
    before the note time (`Play.PerfectWindow`).
  - So a tap pressed 10 ms late grades Good (distance 29.8), not Perfect.
- Tie-breaking is by position in the live-square list, which is spawn order.
  It is not by note time. The two agree when the chart is sorted.
- Hold bonus is frame-counted: +5 on every second qualifying frame. It is not
  time-based.
- Holding pays only from `start_time` on. The head hit sets it to the clock
  at which the head would reach `head_y_at_perfect_end`, 20 pixels below the
  line (game2buttonver.py:177-179). For a timely hit that is 125/3 ms after
  the note time (`Play.HoldPaysFrom`), and it is never earlier
  (`Play.HitPaysNoEarlier`).
  - The maximum score, by contrast, credits whole frames of the full
    duration (game2buttonver.py:229-233).
  - So over frames at least one 60 fps frame apart, a hold never earns more
    than its share of the maximum. When its whole frame count is even and
    positive, it earns at least 5 points less (`Play.HoldShortfall`).
  - Example: a 500 ms hold at 1000 ms, pressed at 950 ms, gets a Perfect head
    but earns at most 170 of the 175 points credited to it
    (`Play.HalfSecondHoldFallsShort`).
- The keyboard path and the GPIO button path judge differently. This is left
  open, not reconciled. `GpioPress` models the GPIO path with the same scan
  under a different `Policy`. It differs in three ways:
  - the threshold is 100 pixels instead of 70;
  - it does not skip a hold whose head was already hit;
  - it always removes the chosen square, so a GPIO press never starts a hold.

  `Session.GpioPicksHeldHold` and `Session.GpioReachesFarther` exhibit the
  differences.
- The six-lane recorder can write lanes 2–5, but the game has hit zones only
  for lanes 0 and 1 (`Session.SixLaneRecordingCanLeaveThePlayfield`). The
  two-lane recorder only writes playable lanes
  (`Session.TwoLaneRecordingIsPlayable`).

## Model

| member | source | states |
|---|---|---|
| Config.TravelTimeValue | game2buttonver.py:66-67 | the travel distance is 550 px and the lead time is exactly 6875/6 ms, which is positive |
| Scoring.CalculateScore | game2buttonver.py:129-138 | points lie in 0..100; the label is Miss iff the points are 0; full points iff distance < 20; some points iff distance < 50 |
| Scoring.ScoreTiers | game2buttonver.py:129-138 | the exact table: (100, Perfect) iff d < 20, (70, Good) iff 20 ≤ d < 35, (40, Near) iff 35 ≤ d < 50, (0, Miss) iff d ≥ 50; each threshold belongs to the lower tier |
| Scoring.ScoreNonIncreasing | game2buttonver.py:129-138 | points never increase as the distance grows |
| Scoring.HoldFrames | game2buttonver.py:230-231 | the hold frame count is the whole number of 60 fps frames in the duration (floor of duration·60/1000) |
| Scoring.NoteMax | game2buttonver.py:229-235 | a note is worth at least 100, and exactly 100 unless it has a positive duration |
| Scoring.PerfectPossible | game2buttonver.py:227-235 | the maximum score is 0 for an empty chart, at least 100 per note, and exactly 100 per note when no note is a hold |
| Scoring.PerfectPossibleAppend | game2buttonver.py:228-235 | the maximum score adds up over concatenated charts |
| Scoring.PerfectPossiblePermutation | game2buttonver.py:228-235 | two charts with the same notes in any order have the same maximum score |
| Scoring.SortedChartSameMaximum | charterold.py:100 | sorting a recorded chart by time leaves its maximum score unchanged |
| Chart.SortByTime | charterold.py:100 | the result is ascending by time, a permutation of the input, and keeps the recording order among notes with equal time (stable) |
| Play.StartLevel | game2buttonver.py:219-235 | level start gives score 0, spawn index 0, no squares, both keys up and the chart's maximum score; the level counts as ended at once iff the chart is empty |
| Play.MakeSquare | game2buttonver.py:396-409 | a spawned square has spawn time = note time − lead time and hold frame count 0; it is not hit; it has hold fields iff the note has a duration, with end time = time + duration; it plays as a hold iff the note's duration is positive |
| Play.Due | game2buttonver.py:390 | a note is due once the clock reaches note time − lead time; Play.SpawnDue spawns exactly the due prefix and Play.SpawnComplete shows no due note is left behind on a sorted chart |
| Play.SpawnDue | game2buttonver.py:390-411 | the spawn index never decreases; one square per spawned note, appended in chart order after the existing squares; every spawned note was due; afterwards the chart is exhausted or the next note is not yet due; nothing else changes |
| Play.SpawnIdempotent | game2buttonver.py:390-411 | spawning again at the same song time spawns nothing |
| Play.SpawnComplete | game2buttonver.py:390 | on a time-sorted chart, every note with time − lead time ≤ song time has been spawned |
| Play.SpawnKeepsValid | game2buttonver.py:390-411 | spawning keeps every square well formed and never changes the score |
| Play.PositionAt | game2buttonver.py:417-423 | y at clock t is −50 plus 550 px per lead time since spawn: strictly increasing in t (Play.PositionIncreasing) and (t − note time)·12/25 below the hit line (Play.PositionRelativeToNote) |
| Play.PositionIncreasing | game2buttonver.py:417-423 | a square's y is strictly increasing in song time |
| Play.PositionRelativeToNote | game2buttonver.py:417-423 | y − HIT_ZONE_Y = (t − note time)·12/25, i.e. 8 px per 50/3 ms frame |
| Play.AtHitLineExactlyOnTime | game2buttonver.py:417-423 | the top edge is at the hit line exactly when the song time equals the note time |
| Play.Distance | game2buttonver.py:166 | the pixel distance from the square's centre row to the hit line; it is 25 on the note time (Play.OnTimePressIsGood) and under 20 exactly in the Perfect window (Play.PerfectWindow) |
| Play.OnTimePressIsGood | game2buttonver.py:166 | a press exactly on the note time measures distance 25, which grades (70, Good) |
| Play.PerfectWindow | game2buttonver.py:166-171 | a press grades Perfect iff it comes between 93.75 ms and 125/12 ms before the note time |
| Play.ReachableWindow | game2buttonver.py:165-167 | a keyboard press can reach a square iff it comes between 2375/12 ms before and 93.75 ms after the note time |
| Play.Expired | game2buttonver.py:439-460 | the removal rule by kind: unhit tap, unhit hold, hit hold; Play.ExpiryTimes turns each case into an exact clock threshold |
| Play.ExpiryTimes | game2buttonver.py:439-460 | an unhit tap is retired iff t > note time + 625/3; an unhit hold iff t > note time + 625/6; a hit hold iff t > end time + lead time + 30 |
| Play.Sweep | game2buttonver.py:414-460 | every survivor is an input square with only y recomputed, and it has not expired; every input square that has not expired survives |
| Play.SweepAppend | game2buttonver.py:414 | the removal pass is applied square by square and keeps the order of the survivors |
| Play.SweepSingle | game2buttonver.py:434-460 | one square survives, moved, exactly when it has not expired |
| Play.ClosestFrom | game2buttonver.py:162-169 | the running-minimum scan returns the nearest eligible square, or none when no square is eligible |
| Play.Closest | game2buttonver.py:161-169 | the pick is a square in the lane, not already hit, closer than 70 px, at minimum distance; an earlier eligible square is strictly farther; None iff no square is eligible |
| Play.ChoiceUnique | game2buttonver.py:161-169 | the closest-square specification admits exactly one answer |
| Play.HitHold | game2buttonver.py:175-179 | hitting a hold head sets hit_start, records start_time ≥ song time, and changes no other field |
| Play.HoldPaysFrom | game2buttonver.py:177-179 | for a head hit no later than y = HIT_ZONE_Y + 20, start_time is note time + 125/3 ms; for a later hit it is the press time |
| Play.PressLane | game2buttonver.py:158-181 | with no candidate the state is unchanged; otherwise the score rises by exactly the judged points; a tap is removed with the other squares kept in order; a hold stays in place, replaced by its Play.HitHold (only hit_start and start_time change); every other square is untouched |
| Play.GpioPress | game2buttonver.py:195-215 | the GPIO variant: same scan with threshold 100, held holds still eligible, the chosen square always removed, and the score rises by its judged points |
| Play.HoldTick | game2buttonver.py:182-189 | only hold frame counts change, and only for squares that qualify; a qualifying square's count flips between 0 and 1; the bonus is a non-negative multiple of 5, at most 5 per square, and 0 iff no qualifying square was already at count 1 |
| Play.Qualifies | game2buttonver.py:183-184 | a held frame qualifies iff the square is in the lane, is a hit hold, and the clock lies in [start_time, end_time]; Play.HoldRunCountsWindow counts the bonus over exactly those frames |
| Play.HoldRunPaysEverySecondFrame | game2buttonver.py:183-189 | n consecutive qualifying held frames starting from count c pay 5·((c+n) div 2) and leave count (c+n) mod 2 |
| Play.TickSquare | game2buttonver.py:184-189 | one held frame changes only the square's frame count; a frame that does not qualify (wrong lane, not a hit hold, clock outside [start_time, end_time]) changes nothing and pays nothing; a qualifying frame flips the count between 0 and 1 and pays 5 exactly when the count was 1 |
| Play.HitAt | game2buttonver.py:175-179 | a hold square hit at clock t (moved to its position at t, then marked hit) is well formed, in the note's lane, being held, with frame count 0 and end time = note time + duration |
| Play.HoldBonusMatchesPerfectPossible | game2buttonver.py:228-233 | the credit the maximum score assumes: a Perfect head plus the bonus of one qualifying frame per whole frame of the duration equals the note's share of the maximum; the clock values are not tied to a frame rate (see Play.HoldShortfall) |
| Play.HoldRunCountsWindow | game2buttonver.py:183-189 | for a hit hold in its lane, a run of frames pays 5·((c+q) div 2), where q counts the frames whose clock lies in [start_time, end_time] and c is the starting count; frames outside the window change nothing |
| Play.SpacedCount | game2buttonver.py:183-184 | frames at least one frame period apart fall into a clock window [lo, hi] at most (hi − lo)/frame period + 1 times |
| Play.HitPaysNoEarlier | game2buttonver.py:176-179 | whatever the press time, a hit hold's start_time is at least note time + 125/3 ms |
| Play.HoldShortfall | game2buttonver.py:177-189 | over frames at least one frame period apart, a hold's head points plus bonus never exceed its share of the maximum (lines 229-233), and fall at least 5 short when its whole frame count is even and positive |
| Play.HalfSecondHoldFallsShort | game2buttonver.py:177-189 | a 500 ms hold at 1000 ms pressed at 950 ms grades (100, Perfect) and is credited 175, yet earns at most 170 |
| Play.LaneInput | game2buttonver.py:157-193 | the lane's key state becomes the sampled one; the score never decreases; a key that is up changes nothing else; a key held over from the previous frame removes no square |
| Play.InputFrom | game2buttonver.py:157-193 | the keyboard pass sets every lane's key state to its sample; the score never decreases; with every key up the squares and score are unchanged |
| Play.Frame | game2buttonver.py:387-462 | a frame keeps the chart and maximum score, never decreases the spawn index or the score, and leaves the key states equal to the sample |
| Play.FrameKeepsValid | game2buttonver.py:387-462 | every frame keeps squares well formed (spawn time = note time − lead time, hold frames in {0,1}, hit only if a hold) |
| Play.RemovalNeverScores | game2buttonver.py:434-460 | with no key down, spawning and automatic removal leave the score unchanged |
| Play.LevelEndIsStable | game2buttonver.py:466 | once the chart is exhausted and no squares remain, every later frame keeps it so and keeps the score |
| Play.LevelEnded | game2buttonver.py:466 | the level is over iff the chart is exhausted and no square is left; Play.StartLevel gives it iff the chart is empty, and Play.LevelEndIsStable keeps it |
| Recorder.BindingsDistinct | wip/chartscript.py:28-35 | the two-lane and six-lane recorders bind each lane to its own key |
| Recorder.Init | charterold.py:28-30 | recording starts with every lane released and no notes |
| Recorder.ReleasedNote | charterold.py:69-77 | the note has time = press start and side = lane; it has a duration iff the press lasted ≥ 250 ms, and then the duration is the press length |
| Recorder.NextLane | charterold.py:61-68 | a lane is held iff its key is down; a key still down keeps the original press start |
| Recorder.RecordLane | charterold.py:59-79 | other lanes are untouched; only a release edge appends a note, exactly one, for this lane and press start; the lane ends released iff its key is up |
| Recorder.PressStartRecordedOnce | charterold.py:61-64 | a press edge records the song time, and further held frames neither move it nor record notes |
| Recorder.PressThenRelease | charterold.py:61-79 | a press at t1 released at t2 appends exactly one note at t1 in that lane, with a duration iff t2 − t1 ≥ 250, and leaves the lane released |
| Recorder.RecordFrom | wip/chartscript.py:68-86 | each lane moves on its own key only; the notes appended are one per release edge, in lane order, each from its lane's press start; earlier notes are kept |
| Recorder.RecordFrame | wip/chartscript.py:68-86 | a frame appends exactly as many notes as there are release edges, keeps earlier notes, and updates each lane from its own key |
| Recorder.RecordFramePreservesInvariant | wip/chartscript.py:68-84 | every recorded note has a side within the lane count and a duration, if any, of at least 250 ms |
| Recorder.NoEdgeNoNote | charterold.py:59-79 | a frame without a release edge records nothing |
| Recorder.Record | charterold.py:44-79 | a recording session only appends notes and keeps the lane count |
| Recorder.RecordPreservesInvariant | charterold.py:59-79 | over a whole session, every note has a valid side and any duration is ≥ 250 ms |
| Recorder.Save | wip/chartscript.py:118 | the saved chart is ascending by time, a permutation of the recorded notes, and stable among equal times |
| Recorder.SavedNotesRecorded | charterold.py:72-77 | every saved note has a valid side and any duration is ≥ 250, so a saved note plays as a hold iff it has a duration |
| Session.SavedChartSpawnsEveryDueNote | game2buttonver.py:390 | for a chart saved by the recorder, the first frame spawns every note that is already due |
| Session.TwoLaneRecordingIsPlayable | charterold.py:59 | every note from the two-lane recorder is on lane 0 or 1 |
| Session.SixLaneRecordingCanLeaveThePlayfield | wip/chartscript.py:28-35 | the six-lane recorder can write a lane-5 note, for which the game has no hit zone |
| Session.TapScenario | game2buttonver.py:387-466 | chart [tap at 1000 ms] pressed at 950 ms: maximum 100, score 100, level ended |
| Session.GpioPicksHeldHold | game2buttonver.py:203-212 | a hold whose head was already hit is skipped by the keyboard scan but chosen and removed by the GPIO scan |
| Session.GpioReachesFarther | game2buttonver.py:206 | a square 80 px away is out of keyboard reach but within GPIO reach |

## Left out

- Rendering is display only and not modelled: drawing, fonts, HUD and FPS text, `draw_hit_zones`, the tail rectangle and the chart preview.
- Audio is foreign I/O and not modelled: `pygame.mixer` load/play/stop and song length via `mixer.Sound`.
- Level scanning, level creation, tkinter dialogs, JSON reads/writes and `shutil.copy` are filesystem and GUI I/O. A chart is an already-parsed `seq<Note>`, so malformed JSON is not modelled.
- The menu/results state machine, judgment text and timers, the 3 s end-of-level countdown and the accuracy percentage are UI policy. The model keeps only the end condition.
- `pygame.key.get_pressed`, `get_ticks` and GPIO pin polling are inputs. They become per-frame arguments: the song time and the key samples.
- The GPIO pass that runs after the keyboard pass each frame is not part of `Frame`. It is modelled on its own as `GpioPress`, and its `button_pressed` edge memory is not modelled.
- Chart times and durations are whole milliseconds. The game accepts any JSON number there and compares it with a float clock (game2buttonver.py:229-231, 390), so fractional times are not modelled. Both recorders write `get_ticks()` differences, which are integers, so every chart they save is covered.
- Frame timing: the hold-shortfall lemmas assume frames at least 1000/60 ms apart. `clock.tick(FPS)` waits in whole milliseconds, so real frames can be about 16 ms apart; that rounding is not modelled.
- Floating point is not modelled. `travel_time_ms`, `progress`, `y` and `start_time` use exact rationals. `int(duration_sec * FPS)` is an exact floor, so a double that lands just below a whole number is not reproduced.
- The square's `x` and `color` are display only, so they are left out. For a note whose side has no hit zone, the source's `hit_zones[side]` lookup fails with an IndexError (side ≥ 2) or wraps around (side −1, −2). The model instead lets such a square fall and be retired.
- The `progress = 1.0` branch for a non-positive travel time cannot occur with these constants, so it is left out.
- The judgment label set when a square is retired is display only. The score is never touched there.
- `hold_points_acc`, `HOLD_POINT_RATE`, `JUDGMENT_DISPLAY` and the `dt` argument are declared in the source but never affect the logic.
- Recorder: the printing, drawing and song loading are I/O and not modelled.
- Play.HoldTick: states the total bonus through bounds, divisibility by 5 and when it is zero. It does not state the bonus as an exact sum over squares; `Play.HoldRunPaysEverySecondFrame` gives the exact count for one square.
