/** `classroom_hashTable` (Classroom.hpp): classrooms keyed by their
    generated six-character code in 50 chains, and the JSON mapping of a
    classroom (Classroom.hpp and source/Classroom.cpp write the same
    `to_json`). */
module Classrooms {
  import opened Wrappers
  import opened Json
  import opened Chains
  import opened Codes
  import Users

  const Size: nat := 50

  /** `classroom_data`. */
  datatype Classroom = Classroom(
    className: string,
    subject: string,
    classCode: string,
    teacherUsername: string,
    studentUsernames: seq<string>,
    quizIds: seq<string>)

  function CodeOf(c: Classroom): string {
    c.classCode
  }

  /** `to_json`: the six fields under their own names. */
  function ToJson(c: Classroom): (j: Json)
    ensures j.Obj? && j.fields.Keys ==
      {"class_name", "subject", "class_code", "teacher_username", "student_usernames", "quizIds"}
  {
    Obj(map[
      "class_name" := Str(c.className),
      "subject" := Str(c.subject),
      "class_code" := Str(c.classCode),
      "teacher_username" := Str(c.teacherUsername),
      "student_usernames" := Strings(c.studentUsernames),
      "quizIds" := Strings(c.quizIds)])
  }

  /** One record of the loader: every field through `value(key, default)`,
      "" for a missing string and the empty list for a missing list. */
  function FromJson(j: Json): Option<Classroom> {
    var name := Value(j, "class_name", "", AsString);
    var subject := Value(j, "subject", "", AsString);
    var code := Value(j, "class_code", "", AsString);
    var teacher := Value(j, "teacher_username", "", AsString);
    var quizIds := ValueList(j, "quizIds", AsString);
    var students := ValueList(j, "student_usernames", AsString);
    if name.Some? && subject.Some? && code.Some? && teacher.Some? && quizIds.Some? && students.Some? then
      Some(Classroom(name.value, subject.value, code.value, teacher.value, students.value, quizIds.value))
    else None
  }

  /** Loading a saved classroom gives it back. */
  lemma FromToJson(c: Classroom)
    ensures FromJson(ToJson(c)) == Some(c)
  {
    StringsRoundTrip(c.studentUsernames);
    StringsRoundTrip(c.quizIds);
  }

  /** A missing field loads as its default: an object without any of the
      six keys is the classroom with empty strings and empty lists. */
  lemma MissingFieldsDefault(fields: map<string, Json>)
    requires forall k :: k in fields ==>
      k !in {"class_name", "subject", "class_code", "teacher_username", "student_usernames", "quizIds"}
    ensures FromJson(Obj(fields)) == Some(Classroom("", "", "", "", [], []))
  {
  }

  /** The record `addClassroom` creates: no students and no quizzes yet. */
  function NewClassroom(name: string, subject: string, code: string, teacher: string): Classroom {
    Classroom(name, subject, code, teacher, [], [])
  }

  class ClassroomTable {
    const rooms: ChainTable<Classroom>
    /** Contents of Data/classrooms.json. */
    var file: seq<Json>

    ghost predicate Valid()
      reads rooms.buckets
    {
      rooms.Valid() && rooms.size == Size && rooms.keyOf == CodeOf
    }

    /** The constructor: 50 empty chains, then every classroom of the file
        head-inserted in file order. */
    constructor (roomFile: seq<Json>)
      requires Each(roomFile, FromJson).Some?
      ensures Valid() && fresh(rooms.buckets)
      ensures file == roomFile
      ensures forall k :: rooms.Lookup(k) == LastMatch(Each(roomFile, FromJson).value, CodeOf, k)
    {
      var t := FromSeq(Size, CodeOf, Each(roomFile, FromJson).value);
      rooms := t;
      file := roomFile;
    }

    /** `findClassroom`: the first classroom with code k in k's chain; None
        exactly when no stored classroom has that code. */
    method FindClassroom(k: string) returns (r: Option<Classroom>)
      requires Valid()
      ensures r == rooms.Lookup(k)
      ensures r.None? <==> forall c :: c in rooms.All() ==> c.classCode != k
      ensures r.Some? ==> r.value.classCode == k && r.value in rooms.All()
    {
      r := rooms.Find(k);
      rooms.LookupNoneIffAbsent(k);
    }

    /** `addClassroom`: a fresh code from the six draws, the new classroom at
        the head of its chain (found by its code from now on, even over an
        older classroom with the same code: HeadInsertedShadows), and the code
        appended, through the teacher pointer, to the teacher's list. */
    method AddClassroom(name: string, subject: string, users: Users.UserTable, teacher: Users.User, draws: seq<int>)
      returns (code: string)
      requires Valid() && users.Valid() && IsDraws(draws)
      requires users.teachers.Lookup(teacher.username) == Some(teacher)
      modifies rooms.buckets, users.teachers.buckets
      ensures Valid() && users.Valid()
      ensures IsCode(code) && forall i :: 0 <= i < CodeLength ==> code[i] == Alphabet[draws[i]]
      ensures rooms.buckets[..] == HeadInserted(old(rooms.buckets[..]), CodeOf, NewClassroom(name, subject, code, teacher.username))
      ensures users.teachers.buckets[..] == FirstReplaced(old(users.teachers.buckets[..]), Users.UsernameOf,
        teacher.username, teacher.(classroomIds := teacher.classroomIds + [code]))
    {
      code := Generate(draws);
      var room := NewClassroom(name, subject, code, teacher.username);
      ghost var students, emails := users.students.buckets[..], users.emails.buckets[..];
      rooms.Insert(room);
      assert users.students.buckets[..] == students && users.emails.buckets[..] == emails;
      users.ListClassroom(teacher, code);
    }

    /** The destructor's save: every classroom, bucket by bucket, head to tail. */
    method Save()
      requires Valid()
      modifies this`file
      ensures file == Items(rooms.All(), ToJson)
    {
      var all := rooms.Dump();
      file := Items(all, ToJson);
    }
  }

  /** Loading the saved file gives every stored classroom back, in the save order. */
  lemma LoadSaved(rs: seq<Classroom>)
    ensures Each(Items(rs, ToJson), FromJson) == Some(rs)
  {
    forall c ensures FromJson(ToJson(c)) == Some(c) {
      FromToJson(c);
    }
    EachItems(rs, ToJson, FromJson);
  }
}
