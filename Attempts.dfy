/** The quiz-attempt routes of source/QuizAttempt.cpp: scoring a
    submission, storing it once per student and quiz, and serving the
    leaderboard. */
module Attempts {
  import opened Wrappers
  import opened Text
  import opened Web
  import opened Forms
  import opened Codes
  import opened Chains
  import opened Quizzes
  import opened Results
  import opened Ranking
  import opened Json

  /** Correct answers among the first n questions: question i counts when
      the answers hold i and its option is the correct one. */
  function Correct(questions: seq<Question>, answers: map<int, int>, n: nat): (c: nat)
    requires n <= |questions|
    ensures c <= n
  {
    if n == 0 then 0
    else
      Correct(questions, answers, n - 1) +
      (if n - 1 in answers && answers[n - 1] == questions[n - 1].correctAnswerIndex then 1 else 0)
  }

  /** The indices of the correctly answered questions among the first n. */
  function Hits(questions: seq<Question>, answers: map<int, int>, n: nat): set<int>
    requires n <= |questions|
  {
    set i | 0 <= i < n && i in answers && answers[i] == questions[i].correctAnswerIndex
  }

  /** The score is the number of correctly answered questions. */
  lemma {:induction false} CorrectCountsHits(questions: seq<Question>, answers: map<int, int>, n: nat)
    requires n <= |questions|
    ensures Correct(questions, answers, n) == |Hits(questions, answers, n)|
  {
    if n > 0 {
      CorrectCountsHits(questions, answers, n - 1);
      var before := Hits(questions, answers, n - 1);
      if n - 1 in answers && answers[n - 1] == questions[n - 1].correctAnswerIndex {
        assert Hits(questions, answers, n) == before + {n - 1};
        assert n - 1 !in before;
      } else {
        assert Hits(questions, answers, n) == before;
      }
    }
  }

  /** The vector the result stores: the chosen option of every question,
      -1 where the submission has none. */
  function Submitted(questions: seq<Question>, answers: map<int, int>): seq<int> {
    seq(|questions|, i requires 0 <= i < |questions| => if i in answers then answers[i] else -1)
  }

  /** The scoring loop: a vector of -1 as long as the quiz, filled with the
      chosen options, and one point per correct option. */
  method Score(questions: seq<Question>, answers: map<int, int>) returns (score: int, submitted: seq<int>)
    ensures score == Correct(questions, answers, |questions|)
    ensures submitted == Submitted(questions, answers)
  {
    var vec := new int[|questions|](_ => -1);
    score := 0;
    for i := 0 to |questions|
      invariant score == Correct(questions, answers, i)
      invariant forall k :: 0 <= k < i ==> vec[k] == if k in answers then answers[k] else -1
      invariant forall k :: i <= k < vec.Length ==> vec[k] == -1
    {
      if i in answers {
        var chosen := answers[i];
        vec[i] := chosen;
        if chosen == questions[i].correctAnswerIndex {
          score := score + 1;
        }
      }
    }
    submitted := vec[..];
  }

  /** The quiz id field, "" when the form has none. */
  function QuizIdOf(params: Params): string {
    if "quizId" in params then params["quizId"] else ""
  }

  /** The start time: `std::stoll` of the field, 0 when it is missing or
      does not parse (the caught exception). */
  function StartTime(params: Params): int {
    if "startTime" in params then
      var t := Stoll(params["startTime"]);
      if t.Some? then t.value else 0
    else 0
  }

  /** The answer of the submit route, from the session, the form, the quiz
      the id finds and whether the student has attempted it. */
  function SubmitResponse(userType: string, username: string, params: Params, quiz: Option<Quiz>, attempted: bool): Response {
    if userType != "student" || username == "" then Text(403, "/error")
    else if "quizId" !in params then Crash
    else
      var q := params["quizId"];
      if q == "" || StartTime(params) == 0 then Text(400, "Invalid submission.")
      else if quiz.None? then Text(404, "Quiz not found.")
      else if attempted then Text(303, "/quiz_leaderboard/" + q)
      else Redirect("/quiz_leaderboard/" + q)
  }

  /** A submission is stored only when it is redirected to the leaderboard,
      which needs a student session, a quiz id and start time, a quiz that
      exists and no earlier attempt. */
  lemma StoredOnlyOnce(userType: string, username: string, params: Params, quiz: Option<Quiz>, attempted: bool)
    ensures SubmitResponse(userType, username, params, quiz, attempted).Redirect? <==>
      userType == "student" && username != "" && "quizId" in params && params["quizId"] != "" &&
      StartTime(params) != 0 && quiz.Some? && !attempted
  {
  }

  /** `POST /student/submit_quiz`. The clock reading `now` and the six draws
      of the result id are parameters. A stored result holds the score and
      the answers of the raw body, and the time since the start time. */
  method SubmitQuiz(userType: string, username: string, params: Params, body: string, now: int,
                    quizzes: QuizTable, results: ResultTable, draws: seq<int>)
    returns (res: Response, added: Option<Result>)
    requires quizzes.Valid() && results.Valid() && IsDraws(draws)
    modifies results.results.buckets, results`file
    ensures results.Valid()
    ensures res == SubmitResponse(userType, username, params, quizzes.quizzes.Lookup(QuizIdOf(params)),
      old(Attempted(results.results.All(), username, QuizIdOf(params))))
    ensures added.Some? <==> res.Redirect?
    ensures added.None? ==> results.results.buckets[..] == old(results.results.buckets[..]) && results.file == old(results.file)
    ensures added.Some? ==>
      var quiz := quizzes.quizzes.Lookup(QuizIdOf(params)).value;
      var answers := AnswersOf(Split(body));
      added.value == Result(added.value.resultId, QuizIdOf(params), username,
        Correct(quiz.questions, answers, |quiz.questions|), now - StartTime(params), Submitted(quiz.questions, answers)) &&
      results.results.buckets[..] == HeadInserted(old(results.results.buckets[..]), Results.IdOf, added.value) &&
      results.file == Items(results.results.All(), Results.ToJson)
  {
    added := None;
    var startTime := StartTime(params);
    if userType != "student" || username == "" {
      res := Text(403, "/error");
    } else if "quizId" !in params {
      res := Crash;
    } else if params["quizId"] == "" || startTime == 0 {
      res := Text(400, "Invalid submission.");
    } else {
      var quizId := params["quizId"];
      var timeTaken := now - startTime;
      var quiz := quizzes.FindQuiz(quizId);
      if quiz.None? {
        res := Text(404, "Quiz not found.");
      } else {
        var attempted := results.HasStudentAttempted(username, quizId);
        if attempted {
          res := Text(303, "/quiz_leaderboard/" + quizId);
        } else {
          var r := Record(quizId, username, quiz.value, body, timeTaken, results, draws);
          res := Redirect("/quiz_leaderboard/" + quizId);
          added := Some(r);
        }
      }
    }
  }

  /** The accepted submission: the body's answers scored against the quiz,
      stored as a new result at the head of its chain, and the results file
      rewritten. */
  method Record(quizId: string, username: string, quiz: Quiz, body: string, timeTaken: int,
                results: ResultTable, draws: seq<int>) returns (r: Result)
    requires results.Valid() && IsDraws(draws)
    modifies results.results.buckets, results`file
    ensures results.Valid()
    ensures var answers := AnswersOf(Split(body));
      r == Result(r.resultId, quizId, username, Correct(quiz.questions, answers, |quiz.questions|),
        timeTaken, Submitted(quiz.questions, answers))
    ensures results.results.buckets[..] == HeadInserted(old(results.results.buckets[..]), Results.IdOf, r)
    ensures results.file == Items(results.results.All(), Results.ToJson)
  {
    var answers := ParseQuizAnswers(body);
    var score, submitted := Score(quiz.questions, answers);
    r := results.AddResult(quizId, username, score, timeTaken, submitted, draws);
    results.Save();
  }

  /** Once a student's submission is stored, the next one for the same quiz
      is answered with the leaderboard address and stores nothing. */
  lemma SecondSubmissionRejected(bs: seq<seq<Result>>, r: Result, userType: string, params: Params, quiz: Option<Quiz>)
    requires 0 < |bs|
    requires userType == "student" && r.studentUsername != "" && QuizIdOf(params) == r.quizId
    requires "quizId" in params && r.quizId != "" && StartTime(params) != 0 && quiz.Some?
    ensures SubmitResponse(userType, r.studentUsername, params,
      quiz, Attempted(Flatten(HeadInserted(bs, Results.IdOf, r)), r.studentUsername, QuizIdOf(params)))
      == Text(303, "/quiz_leaderboard/" + r.quizId)
  {
    AddedIsAttempted(bs, r);
  }

  /** `GET /quiz_leaderboard/<quizId>`: students and teachers see the quiz's
      results ranked by the priority queue, one numbered row each. */
  method Leaderboard(userType: string, quizId: string, quizzes: QuizTable, results: ResultTable)
    returns (res: Response, ranked: seq<Result>, rows: seq<Row>)
    requires quizzes.Valid() && results.Valid()
    ensures userType != "student" && userType != "teacher" ==> res == Text(303, "/error")
    ensures (userType == "student" || userType == "teacher") && quizzes.quizzes.Lookup(quizId).None? ==>
      res == Text(404, "Quiz not found.")
    ensures (userType == "student" || userType == "teacher") && quizzes.quizzes.Lookup(quizId).Some? ==>
      res == Page("common/leaderboard.html") && IsLeaderboard(ForQuiz(results.results.All(), quizId), ranked, rows)
  {
    ranked, rows := [], [];
    if userType != "student" && userType != "teacher" {
      return Text(303, "/error"), [], [];
    }
    var quiz := quizzes.FindQuiz(quizId);
    if quiz.None? {
      return Text(404, "Quiz not found."), [], [];
    }
    var found := results.FindResultsForQuiz(quizId);
    ranked, rows := Rank(found);
    res := Page("common/leaderboard.html");
  }
}
