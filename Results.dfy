/** `quiz_result_hashTable` (QuizAttempt.hpp): quiz results keyed by their
    generated six-character id, and the two queries that scan every chain:
    the results of one quiz, and whether a student has attempted a quiz. */
module Results {
  import opened Wrappers
  import opened Json
  import opened Chains
  import opened Codes

  /** The default table size of the constructor. */
  const DefaultSize: nat := 50

  /** `quiz_result_data`. The time is a whole number of seconds (the source
      stores the integer difference of two timestamps in a double). */
  datatype Result = Result(
    resultId: string,
    quizId: string,
    studentUsername: string,
    score: int,
    timeTaken: int,
    submittedAnswers: seq<int>)

  function IdOf(r: Result): string {
    r.resultId
  }

  function ToJson(r: Result): Json {
    Obj(map[
      "resultId" := Str(r.resultId),
      "quizId" := Str(r.quizId),
      "studentUsername" := Str(r.studentUsername),
      "score" := Num(r.score),
      "timeTakenSeconds" := Num(r.timeTaken),
      "submittedAnswers" := Ints(r.submittedAnswers)])
  }

  /** `from_json`: "", 0, 0 seconds and the empty list for missing fields. */
  function FromJson(j: Json): Option<Result> {
    var id := Value(j, "resultId", "", AsString);
    var quiz := Value(j, "quizId", "", AsString);
    var student := Value(j, "studentUsername", "", AsString);
    var score := Value(j, "score", 0, AsInt);
    var time := Value(j, "timeTakenSeconds", 0, AsInt);
    var answers := ValueList(j, "submittedAnswers", AsInt);
    if id.Some? && quiz.Some? && student.Some? && score.Some? && time.Some? && answers.Some? then
      Some(Result(id.value, quiz.value, student.value, score.value, time.value, answers.value))
    else None
  }

  /** A written result reads back as itself. */
  lemma FromToJson(r: Result)
    ensures FromJson(ToJson(r)) == Some(r)
  {
    IntsRoundTrip(r.submittedAnswers);
  }

  /** Missing fields load as their defaults. */
  lemma MissingFieldsDefault(fields: map<string, Json>)
    requires forall k :: k in fields ==>
      k !in {"resultId", "quizId", "studentUsername", "score", "timeTakenSeconds", "submittedAnswers"}
    ensures FromJson(Obj(fields)) == Some(Result("", "", "", 0, 0, []))
  {
  }

  /** Loading the saved file gives every stored result back, in the save order. */
  lemma LoadSaved(rs: seq<Result>)
    ensures Each(Items(rs, ToJson), FromJson) == Some(rs)
  {
    forall r ensures FromJson(ToJson(r)) == Some(r) {
      FromToJson(r);
    }
    EachItems(rs, ToJson, FromJson);
  }

  /** The results of rs for quiz q, in the order of rs. */
  function ForQuiz(rs: seq<Result>, q: string): seq<Result> {
    if |rs| == 0 then []
    else ForQuiz(rs[..|rs| - 1], q) + (if rs[|rs| - 1].quizId == q then [rs[|rs| - 1]] else [])
  }

  /** ForQuiz keeps exactly the results of quiz q. */
  lemma {:induction false} ForQuizMember(rs: seq<Result>, q: string, r: Result)
    ensures r in ForQuiz(rs, q) <==> r in rs && r.quizId == q
  {
    if |rs| > 0 {
      var p := rs[..|rs| - 1];
      ForQuizMember(p, q, r);
      assert rs == p + [rs[|rs| - 1]];
    }
  }

  /** One more result: it is kept exactly when it is for quiz q. */
  lemma ForQuizSnoc(rs: seq<Result>, r: Result, q: string)
    ensures ForQuiz(rs + [r], q) == ForQuiz(rs, q) + if r.quizId == q then [r] else []
  {
    assert (rs + [r])[..|rs|] == rs;
  }

  /** ForQuiz keeps the order of rs: filtering a concatenation is
      concatenating the filtered parts. */
  lemma {:induction false} ForQuizAppend(a: seq<Result>, b: seq<Result>, q: string)
    ensures ForQuiz(a + b, q) == ForQuiz(a, q) + ForQuiz(b, q)
  {
    if |b| > 0 {
      var p := b[..|b| - 1];
      ForQuizAppend(a, p, q);
      assert (a + b)[..|a + b| - 1] == a + p;
    } else {
      assert a + b == a;
    }
  }

  /** Some result of rs is student u's attempt at quiz q. */
  predicate Attempted(rs: seq<Result>, u: string, q: string) {
    exists i :: 0 <= i < |rs| && rs[i].studentUsername == u && rs[i].quizId == q
  }

  /** After a result is added, its student has attempted its quiz and the
      result is among that quiz's results. */
  lemma AddedIsAttempted(bs: seq<seq<Result>>, r: Result)
    requires 0 < |bs|
    ensures Attempted(Flatten(HeadInserted(bs, IdOf, r)), r.studentUsername, r.quizId)
    ensures r in ForQuiz(Flatten(HeadInserted(bs, IdOf, r)), r.quizId)
  {
    var all := Flatten(HeadInserted(bs, IdOf, r));
    HeadInsertedMultiset(bs, IdOf, r);
    assert r in multiset(all);
    var i :| 0 <= i < |all| && all[i] == r;
    ForQuizMember(all, r.quizId, r);
  }

  class ResultTable {
    const results: ChainTable<Result>
    /** Contents of Data/quiz_results.json. */
    var file: seq<Json>

    ghost predicate Valid()
      reads results.buckets
    {
      results.Valid() && results.keyOf == IdOf
    }

    /** The constructor (table size n, 50 by default): empty chains, then
        every result of the file head-inserted in file order. */
    constructor (n: nat, resultFile: seq<Json>)
      requires 0 < n
      requires Each(resultFile, FromJson).Some?
      ensures Valid() && fresh(results.buckets) && results.size == n
      ensures file == resultFile
      ensures forall k :: results.Lookup(k) == LastMatch(Each(resultFile, FromJson).value, IdOf, k)
    {
      var t := FromSeq(n, IdOf, Each(resultFile, FromJson).value);
      results := t;
      file := resultFile;
    }

    /** `addResult`: a fresh id from the six draws, the result built from
        the arguments at the head of its chain. */
    method AddResult(quizId: string, student: string, score: int, timeTaken: int, answers: seq<int>, draws: seq<int>)
      returns (r: Result)
      requires Valid() && IsDraws(draws)
      modifies results.buckets
      ensures Valid()
      ensures IsCode(r.resultId) && forall i :: 0 <= i < CodeLength ==> r.resultId[i] == Alphabet[draws[i]]
      ensures r == Result(r.resultId, quizId, student, score, timeTaken, answers)
      ensures results.buckets[..] == HeadInserted(old(results.buckets[..]), IdOf, r)
      ensures multiset(results.All()) == old(multiset(results.All())) + multiset{r}
    {
      var id := Generate(draws);
      r := Result(id, quizId, student, score, timeTaken, answers);
      results.Insert(r);
    }

    /** `findResultsForQuiz`: every chain in bucket order, each head to tail,
        keeping the results of quiz q. */
    method FindResultsForQuiz(q: string) returns (out: seq<Result>)
      requires Valid()
      ensures out == ForQuiz(results.All(), q)
    {
      ghost var bs := results.buckets[..];
      out := [];
      var i := 0;
      while i < results.size
        invariant 0 <= i <= results.size
        invariant out == ForQuiz(Flatten(bs[..i]), q)
      {
        var chain := results.buckets[i];
        ghost var done := Flatten(bs[..i]);
        assert done + chain[..0] == done;
        var j := 0;
        while j < |chain|
          invariant 0 <= j <= |chain|
          invariant out == ForQuiz(done + chain[..j], q)
        {
          ScanStep(done, chain, j);
          ForQuizSnoc(done + chain[..j], chain[j], q);
          if chain[j].quizId == q {
            out := out + [chain[j]];
          }
          j := j + 1;
        }
        assert bs[..i + 1][..i] == bs[..i];
        assert chain[..|chain|] == chain;
        i := i + 1;
      }
      assert bs[..i] == bs;
    }

    /** `hasStudentAttempted`: the same scan, stopping at the first result
        of student u for quiz q. */
    method HasStudentAttempted(u: string, q: string) returns (b: bool)
      requires Valid()
      ensures b <==> Attempted(results.All(), u, q)
    {
      ghost var bs := results.buckets[..];
      var i := 0;
      while i < results.size
        invariant 0 <= i <= results.size
        invariant !Attempted(Flatten(bs[..i]), u, q)
      {
        var chain := results.buckets[i];
        ghost var done := Flatten(bs[..i]);
        assert done + chain[..0] == done;
        var j := 0;
        while j < |chain|
          invariant 0 <= j <= |chain|
          invariant !Attempted(done + chain[..j], u, q)
        {
          if chain[j].studentUsername == u && chain[j].quizId == q {
            assert chain[j] in bs[i];
            FlattenMember(bs, chain[j]);
            ghost var k :| 0 <= k < |results.All()| && results.All()[k] == chain[j];
            return true;
          }
          ScanStep(done, chain, j);
          j := j + 1;
        }
        assert bs[..i + 1][..i] == bs[..i];
        assert chain[..|chain|] == chain;
        i := i + 1;
      }
      assert bs[..i] == bs;
      return false;
    }

    /** `saveResultsToFile`: every result, bucket by bucket, head to tail. */
    method Save()
      requires Valid()
      modifies this`file
      ensures file == Items(results.All(), ToJson)
    {
      var all := results.Dump();
      file := Items(all, ToJson);
    }
  }
}
