/** The leaderboard of one quiz (source/QuizAttempt.cpp): results ordered by
    `ResultComparator` through a `std::priority_queue`, numbered from 1, and
    each time printed as minutes and two-digit seconds. */
module Ranking {
  import opened Wrappers
  import opened Text
  import opened Results

  /** `ResultComparator()(a, b)`: a comes out of the queue after b, because
      its score is lower or, at equal scores, its time is longer. */
  predicate Below(a: Result, b: Result) {
    if a.score != b.score then a.score < b.score else a.timeTaken > b.timeTaken
  }

  /** The comparator is a strict weak order, as `std::priority_queue`
      demands: irreflexive, asymmetric, transitive, and two results are
      unordered exactly when they tie on score and time. */
  lemma StrictWeakOrder(a: Result, b: Result, c: Result)
    ensures !Below(a, a)
    ensures Below(a, b) ==> !Below(b, a)
    ensures Below(a, b) && Below(b, c) ==> Below(a, c)
    ensures !Below(a, b) && !Below(b, a) <==> a.score == b.score && a.timeTaken == b.timeTaken
  {
  }

  /** A result that outranks the top of the rest tops the whole queue. */
  lemma NewTop(rest: multiset<Result>, y: Result, u: Result)
    requires (forall x :: x in rest ==> !Below(u, x)) && Below(u, y)
    ensures forall x :: x in rest + multiset{y} ==> !Below(y, x)
  {
    forall x | x in rest + multiset{y}
      ensures !Below(y, x)
    {
      if x != y {
        StrictWeakOrder(u, y, x);
      }
    }
  }

  /** Every non-empty queue has a top: a result nothing else outranks. */
  lemma {:induction false} TopOf(m: multiset<Result>) returns (t: Result)
    requires |m| > 0
    ensures t in m && forall x :: x in m ==> !Below(t, x)
  {
    var y :| y in m;
    var rest := m - multiset{y};
    assert m == rest + multiset{y};
    if |rest| == 0 {
      t := y;
    } else {
      var u := TopOf(rest);
      if Below(u, y) {
        NewTop(rest, y, u);
        t := y;
      } else {
        t := u;
      }
    }
  }

  /** No later result outranks an earlier one. */
  predicate Ranked(rs: seq<Result>) {
    forall i, j :: 0 <= i < j < |rs| ==> !Below(rs[i], rs[j])
  }

  /** Nothing still in the queue outranks a result already popped. */
  predicate Ahead(rs: seq<Result>, queue: multiset<Result>) {
    forall i, x :: 0 <= i < |rs| && x in queue ==> !Below(rs[i], x)
  }

  /** Popping a top keeps the popped results ranked and ahead of the queue. */
  lemma PopTop(rs: seq<Result>, queue: multiset<Result>, top: Result)
    requires Ranked(rs) && Ahead(rs, queue)
    requires top in queue && forall x :: x in queue ==> !Below(top, x)
    ensures Ranked(rs + [top]) && Ahead(rs + [top], queue - multiset{top})
    ensures multiset(rs + [top]) + (queue - multiset{top}) == multiset(rs) + queue
  {
    var next := rs + [top];
    forall i, j | 0 <= i < j < |next|
      ensures !Below(next[i], next[j])
    {
      if j < |rs| {
        assert next[i] == rs[i] && next[j] == rs[j];
      } else {
        assert next[i] == rs[i];
      }
    }
    forall i, x | 0 <= i < |next| && x in queue - multiset{top}
      ensures !Below(next[i], x)
    {
      if i < |rs| {
        assert next[i] == rs[i];
      }
    }
  }

  /** C++ `/` on int: the quotient truncated toward zero. */
  function Quot(a: int, b: int): (q: int)
    requires b > 0
    ensures a >= 0 ==> 0 <= a - b * q < b
    ensures a < 0 ==> -b < a - b * q <= 0
  {
    if a >= 0 then a / b else -((-a) / b)
  }

  /** C++ `%` on int: the remainder of the truncated quotient. */
  function Rem(a: int, b: int): int
    requires b > 0
  {
    a - b * Quot(a, b)
  }

  /** The leaderboard's time: minutes, ':', then the seconds with a '0'
      in front of any value below 10. */
  function FormatTime(t: int): string {
    var minutes := Quot(t, 60);
    var seconds := Rem(t, 60);
    IntToString(minutes) + ":" + (if seconds < 10 then "0" else "") + IntToString(seconds)
  }

  /** Reading "M:SS" back as seconds. */
  function ParseTime(s: string): Option<int> {
    if 4 <= |s| && s[|s| - 3] == ':' && AllDigits(s[..|s| - 3]) && AllDigits(s[|s| - 2..]) then
      Some(60 * DigitsValue(s[..|s| - 3]) + DigitsValue(s[|s| - 2..]))
    else None
  }

  /** Two digits of seconds: the text after the ':' for 0 <= s < 60. */
  lemma Seconds(s: nat)
    requires s < 60
    ensures var tail := (if s < 10 then "0" else "") + IntToString(s);
      |tail| == 2 && AllDigits(tail) && DigitsValue(tail) == s
  {
    var tail := (if s < 10 then "0" else "") + IntToString(s);
    if s < 10 {
      assert IntToString(s) == [DigitChar(s)];
      assert tail == ['0', DigitChar(s)];
      assert tail[..1] == ['0'];
      assert ['0'][..0] == [];
      assert DigitsValue(['0']) == 0;
    } else {
      assert IntToString(s) == NatToString(s / 10) + [DigitChar(s % 10)];
      DigitsOfNat(s);
    }
  }

  /** Digits, ':', two digits: the reader splits at the ':'. */
  lemma ParseTimeParts(head: string, tail: string)
    requires 0 < |head| && AllDigits(head) && |tail| == 2 && AllDigits(tail)
    ensures ParseTime(head + ":" + tail) == Some(60 * DigitsValue(head) + DigitsValue(tail))
  {
    var s := head + ":" + tail;
    assert s[..|s| - 3] == head;
    assert s[|s| - 2..] == tail;
    assert s[|s| - 3] == ':';
  }

  /** For a non-negative time the text is exact: it reads back as the time. */
  lemma FormatTimeRoundTrip(t: int)
    requires t >= 0
    ensures ParseTime(FormatTime(t)) == Some(t)
  {
    var m := t / 60;
    var sec := t % 60;
    assert Quot(t, 60) == m && Rem(t, 60) == sec;
    var tail := (if sec < 10 then "0" else "") + IntToString(sec);
    assert FormatTime(t) == NatToString(m) + ":" + tail;
    Seconds(sec);
    DigitsOfNat(m);
    ParseTimeParts(NatToString(m), tail);
  }

  /** A negative time above a minute (a start time later than the clock)
      prints as "0:0" and then the signed seconds, such as "0:0-5". */
  lemma FormatNegativeTime(t: int)
    requires -60 < t < 0
    ensures FormatTime(t) == "0:0" + IntToString(t)
  {
    assert Quot(t, 60) == 0 && Rem(t, 60) == t;
    assert IntToString(0) == "0";
    assert "0" + ":" + "0" == "0:0";
  }

  /** One row of the leaderboard page. */
  datatype Row = Row(rank: int, studentUsername: string, score: int, timeTaken: string)

  function RowOf(rank: int, r: Result): Row {
    Row(rank, r.studentUsername, r.score, FormatTime(r.timeTaken))
  }

  /** The rows of a ranked list, one per result. */
  function Rows(rs: seq<Result>): (rows: seq<Row>)
    ensures |rows| == |rs|
  {
    if |rs| == 0 then [] else Rows(rs[..|rs| - 1]) + [RowOf(|rs|, rs[|rs| - 1])]
  }

  /** Row i holds rank i + 1 and the i-th result. */
  lemma {:induction false} RowAt(rs: seq<Result>, i: nat)
    requires i < |rs|
    ensures Rows(rs)[i] == RowOf(i + 1, rs[i])
  {
    var p := rs[..|rs| - 1];
    if i < |p| {
      RowAt(p, i);
      assert Rows(rs)[i] == Rows(p)[i];
      assert rs[i] == p[i];
    }
  }

  lemma RowsNumbered(rs: seq<Result>)
    ensures |Rows(rs)| == |rs| && forall i :: 0 <= i < |rs| ==> Rows(rs)[i] == RowOf(i + 1, rs[i])
  {
    forall i | 0 <= i < |rs|
      ensures Rows(rs)[i] == RowOf(i + 1, rs[i])
    {
      RowAt(rs, i);
    }
  }

  /** A leaderboard of results: a permutation of them in which scores never
      rise and, at equal scores, times never fall, with the rows numbered
      from 1 in that order. */
  predicate IsLeaderboard(results: seq<Result>, ranked: seq<Result>, rows: seq<Row>) {
    && multiset(ranked) == multiset(results)
    && (forall i, j :: 0 <= i < j < |ranked| ==>
         ranked[i].score > ranked[j].score ||
         (ranked[i].score == ranked[j].score && ranked[i].timeTaken <= ranked[j].timeTaken))
    && |rows| == |ranked|
    && forall i :: 0 <= i < |rows| ==> rows[i] == RowOf(i + 1, ranked[i])
  }

  /** The leaderboard loop: every result pushed into the priority queue,
      then the top popped until the queue is empty, numbering the rows
      from 1. Results that tie on score and time come out in an order the
      queue decides. */
  method Rank(results: seq<Result>) returns (ranked: seq<Result>, rows: seq<Row>)
    ensures IsLeaderboard(results, ranked, rows)
  {
    var queue: multiset<Result> := multiset{};
    for i := 0 to |results|
      invariant queue == multiset(results[..i])
    {
      assert results[..i + 1] == results[..i] + [results[i]];
      queue := queue + multiset{results[i]};
    }
    assert results[..|results|] == results;
    ranked, rows := [], [];
    var rank := 1;
    while |queue| > 0
      invariant multiset(ranked) + queue == multiset(results)
      invariant Ranked(ranked)
      invariant Ahead(ranked, queue)
      invariant rank == |ranked| + 1
      invariant rows == Rows(ranked)
      decreases |queue|
    {
      ghost var best := TopOf(queue);
      var top :| top in queue && forall x :: x in queue ==> !Below(top, x);
      PopTop(ranked, queue, top);
      queue := queue - multiset{top};
      assert (ranked + [top])[..|ranked|] == ranked;
      ranked := ranked + [top];
      rows := rows + [RowOf(rank, top)];
      rank := rank + 1;
    }
    RowsNumbered(ranked);
  }
}
