/** `/create_quiz_post` (source/Quiz.cpp): a teacher's form becomes a quiz
    with a fresh id, listed on its classroom. The form numbers its
    questions from 0; reading stops at the first missing question text. */
module QuizRoutes {
  import opened Wrappers
  import opened Text
  import opened Web
  import opened Codes
  import opened Chains
  import opened Quizzes
  import opened Classrooms
  import opened Json

  /** The form keys of question i and of its option j. */
  function QuestionKey(i: nat): string {
    "question_text_" + NatToString(i)
  }

  function CorrectKey(i: nat): string {
    "correct_answer_" + NatToString(i)
  }

  function OptionKey(i: nat, j: nat): string {
    "option_" + NatToString(i) + "_" + NatToString(j)
  }

  /** Different questions have different keys. */
  lemma QuestionKeyInjective(a: nat, b: nat)
    requires QuestionKey(a) == QuestionKey(b)
    ensures a == b
  {
    assert QuestionKey(a)[14..] == NatToString(a);
    assert QuestionKey(b)[14..] == NatToString(b);
    NatToStringInjective(a, b);
  }

  /** The keys of the first n questions. */
  function KeysBelow(n: nat): set<string> {
    set j: nat | j < n :: QuestionKey(j)
  }

  /** The keys of the first n questions are n different strings. */
  lemma {:induction false} KeyImage(n: nat)
    ensures |KeysBelow(n)| == n
  {
    if n > 0 {
      KeyImage(n - 1);
      var key := QuestionKey(n - 1);
      assert KeysBelow(n) == KeysBelow(n - 1) + {key} by {
        forall k | k in KeysBelow(n)
          ensures k in KeysBelow(n - 1) + {key}
        {
          var j: nat :| j < n && QuestionKey(j) == k;
          if j < n - 1 {
            assert k in KeysBelow(n - 1);
          }
        }
      }
      if key in KeysBelow(n - 1) {
        var j: nat :| j < n - 1 && QuestionKey(j) == key;
        QuestionKeyInjective(j, n - 1);
      }
    }
  }

  /** A subset is no larger than its superset. */
  lemma {:induction false} SubsetSize<T>(a: set<T>, b: set<T>)
    requires a <= b
    ensures |a| <= |b|
  {
    if a != {} {
      var x :| x in a;
      SubsetSize(a - {x}, b - {x});
    }
  }

  /** A form holding the first n question texts has at least n fields, so
      the reading loop stops. */
  lemma KeysBound(params: Params, n: nat)
    requires forall j: nat :: j < n ==> QuestionKey(j) in params
    ensures n <= |params.Keys|
  {
    KeyImage(n);
    SubsetSize(KeysBelow(n), params.Keys);
  }

  /** The number of questions the loop reads from question i on: the first
      index at or after i with no question text. */
  function CountFrom(params: Params, i: nat): (n: nat)
    requires forall j: nat :: j < i ==> QuestionKey(j) in params
    ensures i <= n && QuestionKey(n) !in params
    ensures forall j: nat :: j < n ==> QuestionKey(j) in params
    decreases |params.Keys| - i
  {
    if QuestionKey(i) !in params then i
    else
      KeysBound(params, i + 1);
      CountFrom(params, i + 1)
  }

  /** The number of questions on the form. */
  function QuestionCount(params: Params): (n: nat)
    ensures QuestionKey(n) !in params && forall j: nat :: j < n ==> QuestionKey(j) in params
  {
    CountFrom(params, 0)
  }

  /** The four options of question i; None when one is missing, which
      throws when the null field is turned into a string. */
  function OptionsOf(params: Params, i: nat): (r: Option<seq<string>>)
    ensures r.Some? <==> forall j: nat :: j < 4 ==> OptionKey(i, j) in params
    ensures r.Some? ==> |r.value| == 4
  {
    if forall j: nat :: j < 4 ==> OptionKey(i, j) in params then
      Some(seq(4, j requires 0 <= j < 4 => params[OptionKey(i, j)]))
    else None
  }

  /** Question i: its text, its options and the `std::stoi` of its correct
      answer; None when that field is missing or is not an int, or an option
      is missing (each throws). */
  function QuestionAt(params: Params, i: nat): Option<Question>
    requires QuestionKey(i) in params
  {
    var correct := if CorrectKey(i) in params then Stoi(params[CorrectKey(i)]) else None;
    var options := OptionsOf(params, i);
    if correct.None? || options.None? then None
    else Some(Question(params[QuestionKey(i)], options.value, correct.value))
  }

  /** The first n questions, None when one of them cannot be read. */
  function Questions(params: Params, n: nat): (r: Option<seq<Question>>)
    requires forall j: nat :: j < n ==> QuestionKey(j) in params
    ensures r.Some? <==> forall j: nat :: j < n ==> QuestionAt(params, j).Some?
    ensures r.Some? ==> |r.value| == n && forall j: nat :: j < n ==> QuestionAt(params, j) == Some(r.value[j])
  {
    if n == 0 then Some([])
    else
      var before := Questions(params, n - 1);
      var last := QuestionAt(params, n - 1);
      if before.None? || last.None? then None else Some(before.value + [last.value])
  }

  /** Every question on the form. */
  function FormQuestions(params: Params): Option<seq<Question>> {
    Questions(params, QuestionCount(params))
  }

  /** The inner loop: the four option fields of question i. */
  method ReadOptions(params: Params, i: nat) returns (options: Option<seq<string>>)
    ensures options == OptionsOf(params, i)
  {
    var read: seq<string> := [];
    for j := 0 to 4
      invariant |read| == j
      invariant forall k: nat :: k < j ==> OptionKey(i, k) in params && read[k] == params[OptionKey(i, k)]
    {
      if OptionKey(i, j) !in params {
        return None;
      }
      read := read + [params[OptionKey(i, j)]];
    }
    assert read == seq(4, j requires 0 <= j < 4 => params[OptionKey(i, j)]);
    return Some(read);
  }

  /** The outer loop: questions 0, 1, ... until a question text is missing. */
  method ReadQuestions(params: Params) returns (questions: Option<seq<Question>>)
    ensures questions == FormQuestions(params)
  {
    var read: seq<Question> := [];
    var i := 0;
    while QuestionKey(i) in params
      invariant forall j: nat :: j < i ==> QuestionKey(j) in params
      invariant CountFrom(params, i) == QuestionCount(params)
      invariant Questions(params, i) == Some(read)
      decreases |params.Keys| - i
    {
      KeysBound(params, i + 1);
      var correct := None;
      if CorrectKey(i) in params {
        correct := Stoi(params[CorrectKey(i)]);
      }
      var options := ReadOptions(params, i);
      if correct.None? || options.None? {
        assert QuestionAt(params, i).None?;
        return None;
      }
      read := read + [Question(params[QuestionKey(i)], options.value, correct.value)];
      i := i + 1;
    }
    return Some(read);
  }

  /** `std::stoi` of the time limit, 0 when the field is missing; None when
      it does not parse as an int (which throws). */
  function TimeLimit(params: Params): Option<int> {
    if "time_limit" in params then Stoi(params["time_limit"]) else Some(0)
  }

  function ClassroomIdOf(params: Params): string {
    if "classroom_id" in params then params["classroom_id"] else ""
  }

  /** The checks before `createQuiz`, as the handler makes them. None when
      the form passes them all. */
  function FormRefusal(userType: string, params: Params): Option<Response> {
    if userType != "teacher" then Some(Redirect("/error"))
    else if "quiz_title" !in params || "classroom_id" !in params || TimeLimit(params).None? then Some(Crash)
    else if params["quiz_title"] == "" || params["classroom_id"] == "" || TimeLimit(params).value <= 0 then
      Some(Text(400, "Invalid form data."))
    else if FormQuestions(params).None? then Some(Crash)
    else if FormQuestions(params).value == [] then Some(Text(400, "A quiz must have at least one question."))
    else None
  }

  /** The answer of the route; `listed` says whether the classroom id finds
      a classroom. */
  function CreateQuizResponse(userType: string, params: Params, listed: bool): Response {
    var refusal := FormRefusal(userType, params);
    if refusal.Some? then refusal.value
    else if listed then Redirect("/quiz_created")
    else Text(500, "Could not find classroom.")
  }

  /** A quiz reaches the table exactly when a teacher's form passes the
      checks: a title, a classroom id, a positive int time limit, and at
      least one question, each readable. */
  lemma CreatedIff(userType: string, params: Params)
    ensures FormRefusal(userType, params).None? <==>
      userType == "teacher" && "quiz_title" in params && params["quiz_title"] != "" &&
      ClassroomIdOf(params) != "" && TimeLimit(params).Some? && TimeLimit(params).value > 0 &&
      QuestionKey(0) in params && forall j: nat :: j < QuestionCount(params) ==> QuestionAt(params, j).Some?
  {
    var n := QuestionCount(params);
    if n == 0 {
      assert FormQuestions(params) == Some([]);
    } else {
      assert QuestionKey(0) in params;
    }
  }

  /** `/create_quiz_post`. The six draws of the quiz id are a parameter.
      When the form passes, the quiz is created before the classroom is
      looked up, so a missing classroom leaves it in memory unsaved; when
      the classroom is found its quiz list gets the id and both tables are
      saved. */
  method CreateQuizPost(userType: string, params: Params, quizzes: QuizTable, rooms: ClassroomTable, draws: seq<int>)
    returns (res: Response, quiz: Option<Quiz>)
    requires quizzes.Valid() && rooms.Valid() && IsDraws(draws)
    modifies quizzes.quizzes.buckets, rooms.rooms.buckets, quizzes`file, rooms`file
    ensures quizzes.Valid()
    ensures rooms.Valid()
    ensures res == CreateQuizResponse(userType, params, old(rooms.rooms.Lookup(ClassroomIdOf(params))).Some?)
    ensures quiz.Some? <==> FormRefusal(userType, params).None?
    ensures quiz.Some? ==>
      IsCode(quiz.value.quizId) && (forall i :: 0 <= i < CodeLength ==> quiz.value.quizId[i] == Alphabet[draws[i]]) &&
      quiz.value == Quiz(quiz.value.quizId, params["quiz_title"], params["classroom_id"],
        TimeLimit(params).value, FormQuestions(params).value)
    ensures quizzes.quizzes.buckets[..] == if quiz.Some? then
      HeadInserted(old(quizzes.quizzes.buckets[..]), Quizzes.IdOf, quiz.value)
      else old(quizzes.quizzes.buckets[..])
    ensures rooms.rooms.buckets[..] == if quiz.Some? && res.Redirect? then
      var room := old(rooms.rooms.Lookup(ClassroomIdOf(params))).value;
      FirstReplaced(old(rooms.rooms.buckets[..]), CodeOf, room.classCode,
        room.(quizIds := room.quizIds + [quiz.value.quizId]))
      else old(rooms.rooms.buckets[..])
    ensures quizzes.file == if quiz.Some? && res.Redirect? then
      Items(quizzes.quizzes.All(), Quizzes.ToJson) else old(quizzes.file)
    ensures rooms.file == if quiz.Some? && res.Redirect? then
      Items(rooms.rooms.All(), Classrooms.ToJson) else old(rooms.file)
  {
    quiz := None;
    var questions: Option<seq<Question>> := None;
    var limit := TimeLimit(params);
    if userType == "teacher" && "quiz_title" in params && "classroom_id" in params && limit.Some? &&
       params["quiz_title"] != "" && params["classroom_id"] != "" && limit.value > 0 {
      questions := ReadQuestions(params);
    }
    if userType != "teacher" {
      res := Redirect("/error");
    } else if "quiz_title" !in params || "classroom_id" !in params || limit.None? {
      res := Crash;
    } else if params["quiz_title"] == "" || params["classroom_id"] == "" || limit.value <= 0 {
      res := Text(400, "Invalid form data.");
    } else if questions.None? {
      res := Crash;
    } else if questions.value == [] {
      res := Text(400, "A quiz must have at least one question.");
    } else {
      var q;
      res, q := Publish(params["quiz_title"], params["classroom_id"], limit.value, questions.value, quizzes, rooms, draws);
      quiz := Some(q);
    }
  }

  /** The handler once the form has passed: `createQuiz`, then the classroom
      lookup; a found classroom lists the quiz id and both tables are saved,
      a missing one answers 500 with the quiz left in memory unsaved. */
  method Publish(title: string, classroomId: string, limit: int, questions: seq<Question>,
                 quizzes: QuizTable, rooms: ClassroomTable, draws: seq<int>)
    returns (res: Response, quiz: Quiz)
    requires quizzes.Valid() && rooms.Valid() && IsDraws(draws)
    modifies quizzes.quizzes.buckets, rooms.rooms.buckets, quizzes`file, rooms`file
    ensures quizzes.Valid()
    ensures rooms.Valid()
    ensures res == if old(rooms.rooms.Lookup(classroomId)).Some? then Redirect("/quiz_created")
      else Text(500, "Could not find classroom.")
    ensures IsCode(quiz.quizId) && forall i :: 0 <= i < CodeLength ==> quiz.quizId[i] == Alphabet[draws[i]]
    ensures quiz == Quiz(quiz.quizId, title, classroomId, limit, questions)
    ensures quizzes.quizzes.buckets[..] == HeadInserted(old(quizzes.quizzes.buckets[..]), Quizzes.IdOf, quiz)
    ensures rooms.rooms.buckets[..] == if res.Redirect? then
      var room := old(rooms.rooms.Lookup(classroomId)).value;
      FirstReplaced(old(rooms.rooms.buckets[..]), CodeOf, room.classCode, room.(quizIds := room.quizIds + [quiz.quizId]))
      else old(rooms.rooms.buckets[..])
    ensures quizzes.file == if res.Redirect? then Items(quizzes.quizzes.All(), Quizzes.ToJson) else old(quizzes.file)
    ensures rooms.file == if res.Redirect? then Items(rooms.rooms.All(), Classrooms.ToJson) else old(rooms.file)
  {
    quiz := quizzes.CreateQuiz(title, classroomId, limit, questions, draws);
    var room := rooms.FindClassroom(classroomId);
    if room.None? {
      res := Text(500, "Could not find classroom.");
    } else {
      ListQuiz(rooms, room.value, quiz.quizId);
      quizzes.Save();
      rooms.Save();
      res := Redirect("/quiz_created");
    }
  }

  /** The handler's `push_back` of the quiz id onto the classroom's list,
      through the pointer `findClassroom` returned. */
  method ListQuiz(rooms: ClassroomTable, room: Classroom, quizId: string)
    requires rooms.Valid() && rooms.rooms.Lookup(room.classCode) == Some(room)
    modifies rooms.rooms.buckets
    ensures rooms.Valid()
    ensures rooms.rooms.buckets[..] ==
      FirstReplaced(old(rooms.rooms.buckets[..]), CodeOf, room.classCode, room.(quizIds := room.quizIds + [quizId]))
    ensures rooms.rooms.Lookup(room.classCode) == Some(room.(quizIds := room.quizIds + [quizId]))
  {
    rooms.rooms.ReplaceFirst(room.classCode, room.(quizIds := room.quizIds + [quizId]));
  }

  /** After a successful creation the new quiz is found by its id, and the
      classroom it names lists that id last. */
  lemma CreatedIsListed(quizChains: seq<seq<Quiz>>, roomChains: seq<seq<Classroom>>, q: Quiz, room: Classroom)
    requires 0 < |quizChains| && 0 < |roomChains|
    requires LookupIn(roomChains, CodeOf, room.classCode) == Some(room)
    ensures LookupIn(HeadInserted(quizChains, Quizzes.IdOf, q), Quizzes.IdOf, q.quizId) == Some(q)
    ensures var after := LookupIn(FirstReplaced(roomChains, CodeOf, room.classCode,
        room.(quizIds := room.quizIds + [q.quizId])), CodeOf, room.classCode);
      after.Some? && after.value.quizIds == room.quizIds + [q.quizId] && after.value.classCode == room.classCode
  {
    HeadInsertedLookup(quizChains, Quizzes.IdOf, q, q.quizId);
    FirstReplacedLookup(roomChains, CodeOf, room.classCode, room.(quizIds := room.quizIds + [q.quizId]), room.classCode);
  }
}
