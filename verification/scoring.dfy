/**
  The judgment table (pixel distance to points and label) and the maximum
  score of a chart computed when a level starts.
*/
module Scoring {
  import opened Chart
  import opened Config

  datatype Grade = Perfect | Good | Near | Miss

  datatype Judgment = Judgment(points: int, grade: Grade)

  /** The step table from a press's pixel distance to its judgment. The two
      middle tiers are `int(100 * 0.7)` and `int(100 * 0.4)`: truncated percentages. */
  function CalculateScore(distance: real): (j: Judgment)
    ensures 0 <= j.points <= MaxPoints
    ensures j.grade == Miss <==> j.points == 0
    ensures j.points == MaxPoints <==> distance < 20.0
    ensures j.points > 0 <==> distance < 50.0
  {
    if distance < 20.0 then Judgment(MaxPoints, Perfect)
    else if distance < 35.0 then Judgment(MaxPoints * 7 / 10, Good)
    else if distance < 50.0 then Judgment(MaxPoints * 4 / 10, Near)
    else Judgment(0, Miss)
  }

  /** Points never increase as the press lands farther from the hit line. */
  lemma ScoreNonIncreasing(d1: real, d2: real)
    requires d1 <= d2
    ensures CalculateScore(d1).points >= CalculateScore(d2).points
  {
  }

  /** The table's tiers and their exact boundaries: each threshold belongs to
      the lower tier. */
  lemma ScoreTiers(d: real)
    ensures CalculateScore(d) == Judgment(100, Perfect) <==> d < 20.0
    ensures CalculateScore(d) == Judgment(70, Good) <==> 20.0 <= d < 35.0
    ensures CalculateScore(d) == Judgment(40, Near) <==> 35.0 <= d < 50.0
    ensures CalculateScore(d) == Judgment(0, Miss) <==> 50.0 <= d
  {
  }

  /** Whole frames a hold lasts: `int(duration / 1000.0 * FPS)`, exact and
      truncated (the duration is positive, so truncation is floor). */
  function HoldFrames(duration: int): (f: int)
    requires duration > 0
    ensures f >= 0
    ensures f * 1000 <= duration * Fps < (f + 1) * 1000
  {
    duration * Fps / 1000
  }

  /** The most a single note can earn: a Perfect head, plus for a hold one
      bonus for every two frames of its duration. */
  function NoteMax(n: Note): (m: int)
    ensures m >= MaxPoints
    ensures !IsHold(n) ==> m == MaxPoints
  {
    if IsHold(n) then MaxPoints + (HoldFrames(n.duration.value) / 2) * HoldBonus
    else MaxPoints
  }

  /** `perfect_possible`: the sum of `NoteMax` over the chart, in chart order. */
  function PerfectPossible(chart: seq<Note>): (total: int)
    ensures |chart| == 0 ==> total == 0
    ensures total >= MaxPoints * |chart|
    ensures (forall i | 0 <= i < |chart| :: !IsHold(chart[i])) ==> total == MaxPoints * |chart|
    decreases |chart|
  {
    if |chart| == 0 then 0
    else NoteMax(chart[0]) + PerfectPossible(chart[1..])
  }

  lemma {:induction false} PerfectPossibleAppend(a: seq<Note>, b: seq<Note>)
    ensures PerfectPossible(a + b) == PerfectPossible(a) + PerfectPossible(b)
    decreases |a|
  {
    if |a| == 0 {
      assert a + b == b;
    } else {
      assert (a + b)[1..] == a[1..] + b;
      PerfectPossibleAppend(a[1..], b);
    }
  }

  /** The maximum score depends only on which notes a chart holds, not on
      their order. */
  lemma {:induction false} PerfectPossiblePermutation(a: seq<Note>, b: seq<Note>)
    requires multiset(a) == multiset(b)
    ensures PerfectPossible(a) == PerfectPossible(b)
    decreases |a|
  {
    if |a| > 0 {
      var x := a[0];
      assert x in multiset(b);
      var i :| 0 <= i < |b| && b[i] == x;
      var rest := b[..i] + b[i + 1..];
      assert b == b[..i] + [x] + b[i + 1..];
      assert a == [x] + a[1..];
      assert multiset(b) == multiset(b[..i]) + multiset{x} + multiset(b[i + 1..]);
      assert multiset(a) == multiset{x} + multiset(a[1..]);
      assert multiset(rest) == multiset(b[..i]) + multiset(b[i + 1..]);
      assert multiset(a[1..]) == multiset(a) - multiset{x};
      assert multiset(rest) == multiset(b) - multiset{x};
      PerfectPossiblePermutation(a[1..], rest);
      PerfectPossibleAppend(b[..i] + [x], b[i + 1..]);
      PerfectPossibleAppend(b[..i], [x]);
      PerfectPossibleAppend(b[..i], b[i + 1..]);
    }
  }

  /** Saving a chart sorted by time leaves its maximum score unchanged. */
  lemma SortedChartSameMaximum(chart: seq<Note>)
    ensures PerfectPossible(SortByTime(chart)) == PerfectPossible(chart)
  {
    PerfectPossiblePermutation(SortByTime(chart), chart);
  }
}
