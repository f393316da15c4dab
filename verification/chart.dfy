/**
  Chart notes as the recorder writes them and the game reads them: a note
  time in milliseconds from song start, a lane (`side`) and an optional hold
  duration. Also the stable time sort the recorder applies before saving.
*/
module Chart {

  datatype Option<+T> = None | Some(value: T)

  /** One chart entry. `duration` is present exactly when the record has a
      `duration` field; a present but non-positive duration still plays as a tap. */
  datatype Note = Note(time: int, side: int, duration: Option<int>)

  /** A note that plays as a hold: it has a duration field and it is positive. */
  predicate IsHold(n: Note) {
    n.duration.Some? && n.duration.value > 0
  }

  /** Ascending by time; this is what the spawn loop silently relies on. */
  predicate Sorted(s: seq<Note>) {
    forall i, j | 0 <= i < j < |s| :: s[i].time <= s[j].time
  }

  /** The notes of `s` whose time is `k`, in their order in `s`. A sort is
      stable when it keeps every one of these subsequences. */
  function WithTime(s: seq<Note>, k: int): seq<Note>
  {
    if |s| == 0 then []
    else (if s[0].time == k then [s[0]] else []) + WithTime(s[1..], k)
  }

  lemma {:induction false} WithTimeAppend(s: seq<Note>, x: Note, k: int)
    ensures WithTime(s + [x], k) == WithTime(s, k) + (if x.time == k then [x] else [])
    decreases |s|
  {
    if |s| == 0 {
      assert s + [x] == [x];
      assert WithTime([x], k) == (if x.time == k then [x] else []) + WithTime([], k);
    } else {
      assert (s + [x])[1..] == s[1..] + [x];
      WithTimeAppend(s[1..], x, k);
    }
  }

  lemma {:induction false} WithTimeAllLater(s: seq<Note>, k: int)
    requires forall i | 0 <= i < |s| :: s[i].time > k
    ensures WithTime(s, k) == []
    decreases |s|
  {
    if |s| > 0 {
      WithTimeAllLater(s[1..], k);
    }
  }

  /** Inserts `x` after every note whose time is at most `x.time`. */
  function Insert(r: seq<Note>, x: Note): seq<Note>
    decreases |r|
  {
    if |r| == 0 then [x]
    else if x.time < r[0].time then [x] + r
    else [r[0]] + Insert(r[1..], x)
  }

  lemma {:induction false} InsertSorted(r: seq<Note>, x: Note)
    requires Sorted(r)
    ensures Sorted(Insert(r, x))
    ensures forall i | 0 <= i < |Insert(r, x)| :: Insert(r, x)[i] == x || Insert(r, x)[i] in r
    ensures |Insert(r, x)| == |r| + 1
    decreases |r|
  {
    if |r| > 0 && x.time >= r[0].time {
      InsertSorted(r[1..], x);
      var rest := Insert(r[1..], x);
      assert Insert(r, x) == [r[0]] + rest;
      forall i | 0 <= i < |rest| ensures r[0].time <= rest[i].time {
        assert rest[i] == x || rest[i] in r[1..];
      }
    }
  }

  lemma {:induction false} InsertPermutes(r: seq<Note>, x: Note)
    ensures multiset(Insert(r, x)) == multiset(r) + multiset{x}
    decreases |r|
  {
    if |r| > 0 && x.time >= r[0].time {
      InsertPermutes(r[1..], x);
      assert r == [r[0]] + r[1..];
    }
  }

  lemma {:induction false} InsertStable(r: seq<Note>, x: Note, k: int)
    requires Sorted(r)
    ensures WithTime(Insert(r, x), k) == WithTime(r, k) + (if x.time == k then [x] else [])
    decreases |r|
  {
    if |r| == 0 {
      assert WithTime([x], k) == (if x.time == k then [x] else []) + WithTime([], k);
    } else if x.time < r[0].time {
      var q := [x] + r;
      assert q[1..] == r;
      if x.time == k {
        WithTimeAllLater(r, k);
      }
    } else {
      InsertStable(r[1..], x, k);
      var q := Insert(r, x);
      assert q[1..] == Insert(r[1..], x);
    }
  }

  /** The recorder's `notes.sort(key=lambda n: n["time"])`: Python's sort is
      stable, so notes with equal time keep their recording order. */
  function SortByTime(s: seq<Note>): (r: seq<Note>)
    ensures Sorted(r)
    ensures multiset(r) == multiset(s)
    ensures forall k :: WithTime(r, k) == WithTime(s, k)
    decreases |s|
  {
    if |s| == 0 then []
    else
      var init := s[..|s| - 1];
      var x := s[|s| - 1];
      assert s == init + [x];
      var sortedInit := SortByTime(init);
      InsertSorted(sortedInit, x);
      InsertPermutes(sortedInit, x);
      var r := Insert(sortedInit, x);
      forall k ensures WithTime(r, k) == WithTime(s, k) {
        InsertStable(sortedInit, x, k);
        WithTimeAppend(init, x, k);
      }
      r
  }
}
