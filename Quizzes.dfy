/** `quiz_hashTable` (Quiz.hpp): quizzes keyed by their generated
    six-character id in 50 chains, and the JSON mapping of `Question` and
    `quiz_data` (source/Quiz.cpp). */
module Quizzes {
  import opened Wrappers
  import opened Json
  import opened Chains
  import opened Codes

  const Size: nat := 50

  /** `Question`: the text, the options, and the index of the correct one. */
  datatype Question = Question(questionText: string, options: seq<string>, correctAnswerIndex: int)

  /** `quiz_data`. */
  datatype Quiz = Quiz(quizId: string, quizTitle: string, classroomId: string, timeLimitMins: int, questions: seq<Question>)

  function IdOf(q: Quiz): string {
    q.quizId
  }

  function QuestionToJson(q: Question): Json {
    Obj(map[
      "questionText" := Str(q.questionText),
      "options" := Strings(q.options),
      "correctAnswerIndex" := Num(q.correctAnswerIndex)])
  }

  /** `from_json` for a Question: each field through `value(key, default)`. */
  function QuestionFromJson(j: Json): Option<Question> {
    var text := Value(j, "questionText", "", AsString);
    var options := ValueList(j, "options", AsString);
    var correct := Value(j, "correctAnswerIndex", 0, AsInt);
    if text.Some? && options.Some? && correct.Some? then
      Some(Question(text.value, options.value, correct.value))
    else None
  }

  /** `to_json` for a quiz; the time limit is written under "timeLimitMinutes". */
  function ToJson(q: Quiz): Json {
    Obj(map[
      "quizId" := Str(q.quizId),
      "quizTitle" := Str(q.quizTitle),
      "classroomId" := Str(q.classroomId),
      "timeLimitMinutes" := Num(q.timeLimitMins),
      "questions" := Arr(Items(q.questions, QuestionToJson))])
  }

  /** `from_json` for a quiz, which the loader repeats field by field:
      "", 0 and the empty question list for missing fields. */
  function FromJson(j: Json): Option<Quiz> {
    var id := Value(j, "quizId", "", AsString);
    var title := Value(j, "quizTitle", "", AsString);
    var classroom := Value(j, "classroomId", "", AsString);
    var limit := Value(j, "timeLimitMinutes", 0, AsInt);
    var questions := ValueList(j, "questions", QuestionFromJson);
    if id.Some? && title.Some? && classroom.Some? && limit.Some? && questions.Some? then
      Some(Quiz(id.value, title.value, classroom.value, limit.value, questions.value))
    else None
  }

  /** A written question reads back as itself. */
  lemma QuestionFromToJson(q: Question)
    ensures QuestionFromJson(QuestionToJson(q)) == Some(q)
  {
    StringsRoundTrip(q.options);
  }

  /** A written quiz reads back as itself: the field names of the two
      directions agree. */
  lemma FromToJson(q: Quiz)
    ensures FromJson(ToJson(q)) == Some(q)
  {
    forall x ensures QuestionFromJson(QuestionToJson(x)) == Some(x) {
      QuestionFromToJson(x);
    }
    EachItems(q.questions, QuestionToJson, QuestionFromJson);
  }

  /** Missing fields load as "", 0 and the empty list. */
  lemma MissingFieldsDefault(fields: map<string, Json>)
    requires forall k :: k in fields ==>
      k !in {"quizId", "quizTitle", "classroomId", "timeLimitMinutes", "questions"}
    ensures FromJson(Obj(fields)) == Some(Quiz("", "", "", 0, []))
  {
  }

  /** Loading the saved file gives every stored quiz back, in the save order. */
  lemma LoadSaved(qs: seq<Quiz>)
    ensures Each(Items(qs, ToJson), FromJson) == Some(qs)
  {
    forall q ensures FromJson(ToJson(q)) == Some(q) {
      FromToJson(q);
    }
    EachItems(qs, ToJson, FromJson);
  }

  class QuizTable {
    const quizzes: ChainTable<Quiz>
    /** Contents of Data/quizzes.json. */
    var file: seq<Json>

    ghost predicate Valid()
      reads quizzes.buckets
    {
      quizzes.Valid() && quizzes.size == Size && quizzes.keyOf == IdOf
    }

    /** The constructor: 50 empty chains, then every quiz of the file
        head-inserted in file order. */
    constructor (quizFile: seq<Json>)
      requires Each(quizFile, FromJson).Some?
      ensures Valid() && fresh(quizzes.buckets)
      ensures file == quizFile
      ensures forall k :: quizzes.Lookup(k) == LastMatch(Each(quizFile, FromJson).value, IdOf, k)
    {
      var t := FromSeq(Size, IdOf, Each(quizFile, FromJson).value);
      quizzes := t;
      file := quizFile;
    }

    /** `createQuiz`: a fresh id from the six draws and the new quiz at the
        head of the chain the id hashes to; no other chain changes. */
    method CreateQuiz(title: string, classroomId: string, timeLimit: int, questions: seq<Question>, draws: seq<int>)
      returns (q: Quiz)
      requires Valid() && IsDraws(draws)
      modifies quizzes.buckets
      ensures Valid()
      ensures IsCode(q.quizId) && forall i :: 0 <= i < CodeLength ==> q.quizId[i] == Alphabet[draws[i]]
      ensures q == Quiz(q.quizId, title, classroomId, timeLimit, questions)
      ensures quizzes.buckets[..] == HeadInserted(old(quizzes.buckets[..]), IdOf, q)
      ensures quizzes.Lookup(q.quizId) == Some(q)
    {
      var id := Generate(draws);
      q := Quiz(id, title, classroomId, timeLimit, questions);
      quizzes.Insert(q);
    }

    /** `findQuiz`: the first quiz with id k in k's chain; None exactly when
        no stored quiz has that id. */
    method FindQuiz(k: string) returns (r: Option<Quiz>)
      requires Valid()
      ensures r == quizzes.Lookup(k)
      ensures r.None? <==> forall q :: q in quizzes.All() ==> q.quizId != k
      ensures r.Some? ==> r.value.quizId == k && r.value in quizzes.All()
    {
      r := quizzes.Find(k);
      quizzes.LookupNoneIffAbsent(k);
    }

    /** `saveQuizzesToFile`: every quiz, bucket by bucket, head to tail. */
    method Save()
      requires Valid()
      modifies this`file
      ensures file == Items(quizzes.All(), ToJson)
    {
      var all := quizzes.Dump();
      file := Items(all, ToJson);
    }
  }
}
