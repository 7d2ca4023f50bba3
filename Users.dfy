/** `user_hashTable`: students and teachers keyed by username in 100 chains
    each, and one email index, shared by both roles, in 200 chains. The two
    data files are fields that the save operations overwrite. */
module Users {
  import opened Wrappers
  import opened Json
  import opened Chains

  /** Buckets of the student and teacher tables; the email index has twice as many. */
  const Size: nat := 100

  /** `student_data` and `teacher_data`, which have the same fields. */
  datatype User = User(name: string, username: string, email: string, password: string, classroomIds: seq<string>)

  /** A node of the email index: an email and the username it belongs to. */
  datatype EmailEntry = EmailEntry(email: string, username: string)

  function UsernameOf(u: User): string {
    u.username
  }

  function EmailOf(e: EmailEntry): string {
    e.email
  }

  /** The email-index node that adding or loading u creates. */
  function EntryOf(u: User): EmailEntry {
    EmailEntry(u.email, u.username)
  }

  function Entries(us: seq<User>): (es: seq<EmailEntry>)
    ensures |es| == |us|
    ensures forall i :: 0 <= i < |us| ==> es[i] == EntryOf(us[i])
  {
    if |us| == 0 then [] else [EntryOf(us[0])] + Entries(us[1..])
  }

  /** `to_json` for both roles: the five fields under their own names. */
  function ToJson(u: User): Json {
    Obj(map[
      "name" := Str(u.name),
      "email" := Str(u.email),
      "password" := Str(u.password),
      "username" := Str(u.username),
      "classroomIds" := Strings(u.classroomIds)])
  }

  /** The loader reads `classroomIds` only when it is present and an array. */
  predicate HasArray(j: Json, key: string) {
    j.Obj? && key in j.fields && j.fields[key].Arr?
  }

  /** One record of the loaders: the four strings through `user[key]`, and
      `classroomIds` when it is an array (every item must be a string), the
      empty list otherwise. None is the exception that stops the constructor. */
  function FromJson(j: Json): Option<User> {
    var name := Field(j, "name", AsString);
    var username := Field(j, "username", AsString);
    var email := Field(j, "email", AsString);
    var password := Field(j, "password", AsString);
    var ids := if HasArray(j, "classroomIds") then ListOf(j.fields["classroomIds"], AsString) else Some([]);
    if name.Some? && username.Some? && email.Some? && password.Some? && ids.Some? then
      Some(User(name.value, username.value, email.value, password.value, ids.value))
    else None
  }

  /** A loaded record keeps its classroom list exactly when the file holds
      an array there; any other value, or none, loads as the empty list. */
  lemma LoadedClassroomIds(j: Json)
    requires FromJson(j).Some?
    ensures HasArray(j, "classroomIds") ==> Some(FromJson(j).value.classroomIds) == ListOf(j.fields["classroomIds"], AsString)
    ensures !HasArray(j, "classroomIds") ==> FromJson(j).value.classroomIds == []
  {
  }

  /** Loading a saved record gives the record back. */
  lemma FromToJson(u: User)
    ensures FromJson(ToJson(u)) == Some(u)
  {
    StringsRoundTrip(u.classroomIds);
  }

  /** Loading a saved file gives the saved records back, in order. */
  lemma LoadSaved(us: seq<User>)
    ensures Each(Items(us, ToJson), FromJson) == Some(us)
  {
    forall u ensures FromJson(ToJson(u)) == Some(u) {
      FromToJson(u);
    }
    EachItems(us, ToJson, FromJson);
  }

  /** The email-index nodes the constructor creates: the students' in file
      order, then the teachers'. */
  function LoadedEntries(studentFile: seq<Json>, teacherFile: seq<Json>): seq<EmailEntry>
    requires Each(studentFile, FromJson).Some? && Each(teacherFile, FromJson).Some?
  {
    Entries(Each(studentFile, FromJson).value) + Entries(Each(teacherFile, FromJson).value)
  }

  class UserTable {
    const students: ChainTable<User>
    const teachers: ChainTable<User>
    const emails: ChainTable<EmailEntry>
    /** Contents of Data/students.json and Data/teachers.json. */
    var studentsFile: seq<Json>
    var teachersFile: seq<Json>

    ghost predicate Valid()
      reads students.buckets, teachers.buckets, emails.buckets
    {
      students.Valid() && teachers.Valid() && emails.Valid()
      && students.size == Size && teachers.size == Size && emails.size == 2 * Size
      && students.keyOf == UsernameOf && teachers.keyOf == UsernameOf && emails.keyOf == EmailOf
      && students.buckets != teachers.buckets
    }

    /** The constructor: empty tables, then every student of the students
        file and every teacher of the teachers file inserted in file order,
        each into its role's table and into the email index. A username or
        email held by several records finds the one latest in the file. */
    constructor (studentFile: seq<Json>, teacherFile: seq<Json>)
      requires Each(studentFile, FromJson).Some? && Each(teacherFile, FromJson).Some?
      ensures Valid()
      ensures fresh(students.buckets) && fresh(teachers.buckets) && fresh(emails.buckets)
      ensures studentsFile == studentFile && teachersFile == teacherFile
      ensures forall k :: students.Lookup(k) == LastMatch(Each(studentFile, FromJson).value, UsernameOf, k)
      ensures forall k :: teachers.Lookup(k) == LastMatch(Each(teacherFile, FromJson).value, UsernameOf, k)
      ensures forall e :: emails.Lookup(e) == LastMatch(LoadedEntries(studentFile, teacherFile), EmailOf, e)
    {
      var ss := Each(studentFile, FromJson).value;
      var ts := Each(teacherFile, FromJson).value;
      var st := FromSeq(Size, UsernameOf, ss);
      var tt := FromSeq(Size, UsernameOf, ts);
      var et := FromSeq(2 * Size, EmailOf, LoadedEntries(studentFile, teacherFile));
      students, teachers, emails := st, tt, et;
      studentsFile, teachersFile := studentFile, teacherFile;
    }

    /** `findStudent`: the first student with username k in k's chain;
        None exactly when no stored student has that username. */
    method FindStudent(k: string) returns (r: Option<User>)
      requires Valid()
      ensures r == students.Lookup(k)
      ensures r.None? <==> forall u :: u in students.All() ==> u.username != k
      ensures r.Some? ==> r.value.username == k && r.value in students.All()
    {
      r := students.Find(k);
      students.LookupNoneIffAbsent(k);
    }

    /** `findTeacher`, the same walk over the teachers' chains. */
    method FindTeacher(k: string) returns (r: Option<User>)
      requires Valid()
      ensures r == teachers.Lookup(k)
      ensures r.None? <==> forall u :: u in teachers.All() ==> u.username != k
      ensures r.Some? ==> r.value.username == k && r.value in teachers.All()
    {
      r := teachers.Find(k);
      teachers.LookupNoneIffAbsent(k);
    }

    /** `findUsername`: the username of the first index node for email e in
        e's chain; None exactly when no node of the index has that email. */
    method FindUsername(e: string) returns (r: Option<string>)
      requires Valid()
      ensures r == if emails.Lookup(e).Some? then Some(emails.Lookup(e).value.username) else None
      ensures r.None? <==> forall x :: x in emails.All() ==> x.email != e
    {
      var x := emails.Find(e);
      emails.LookupNoneIffAbsent(e);
      r := if x.Some? then Some(x.value.username) else None;
    }

    /** `saveStudentsToFile`: every student, bucket by bucket, head to tail. */
    method SaveStudents()
      requires Valid()
      modifies this`studentsFile
      ensures studentsFile == Items(students.All(), ToJson)
    {
      var all := students.Dump();
      studentsFile := Items(all, ToJson);
    }

    /** `saveTeachersToFile`. */
    method SaveTeachers()
      requires Valid()
      modifies this`teachersFile
      ensures teachersFile == Items(teachers.All(), ToJson)
    {
      var all := teachers.Dump();
      teachersFile := Items(all, ToJson);
    }

    /** `addStudent`: u heads its username chain and its email chain (so by
        HeadInsertedLookup it is what both lookups find from now on, an older
        student with the same username shadowed but not removed, and by
        HeadInsertedMultiset the stored records grow by exactly u); the
        teachers are untouched; then the students file is rewritten. */
    method AddStudent(u: User)
      requires Valid()
      modifies students.buckets, emails.buckets, this`studentsFile
      ensures Valid()
      ensures students.buckets[..] == HeadInserted(old(students.buckets[..]), UsernameOf, u)
      ensures emails.buckets[..] == HeadInserted(old(emails.buckets[..]), EmailOf, EntryOf(u))
      ensures teachers.buckets[..] == old(teachers.buckets[..])
      ensures studentsFile == Items(students.All(), ToJson)
    {
      ghost var others := teachers.buckets[..];
      students.Insert(u);
      assert teachers.buckets[..] == others;
      emails.Insert(EntryOf(u));
      assert teachers.buckets[..] == others;
      SaveStudents();
    }

    /** `addTeacher`: the same for a teacher; the students are untouched and
        the teachers file is rewritten. */
    method AddTeacher(u: User)
      requires Valid()
      modifies teachers.buckets, emails.buckets, this`teachersFile
      ensures Valid()
      ensures teachers.buckets[..] == HeadInserted(old(teachers.buckets[..]), UsernameOf, u)
      ensures emails.buckets[..] == HeadInserted(old(emails.buckets[..]), EmailOf, EntryOf(u))
      ensures students.buckets[..] == old(students.buckets[..])
      ensures teachersFile == Items(teachers.All(), ToJson)
    {
      ghost var others := students.buckets[..];
      teachers.Insert(u);
      assert students.buckets[..] == others;
      emails.Insert(EntryOf(u));
      assert students.buckets[..] == others;
      SaveTeachers();
    }

    /** A classroom code appended to a teacher's record in place, through the
        `teacher_data*` that `findTeacher` returned. */
    method ListClassroom(t: User, code: string)
      requires Valid() && teachers.Lookup(t.username) == Some(t)
      modifies teachers.buckets
      ensures Valid()
      ensures teachers.buckets[..] ==
        FirstReplaced(old(teachers.buckets[..]), UsernameOf, t.username, t.(classroomIds := t.classroomIds + [code]))
    {
      ghost var others, index := students.buckets[..], emails.buckets[..];
      teachers.ReplaceFirst(t.username, t.(classroomIds := t.classroomIds + [code]));
      assert students.buckets[..] == others && emails.buckets[..] == index;
    }
  }

  /** After a restart (save, then load the file back) a username held by a
      single student finds the same record as before the restart. */
  lemma RestartFindsSameStudent(t: UserTable, k: string)
    requires t.Valid()
    requires AtMostOnce(t.students.All(), UsernameOf, k)
    ensures Each(Items(t.students.All(), ToJson), FromJson) == Some(t.students.All())
    ensures LastMatch(t.students.All(), UsernameOf, k) == t.students.Lookup(k)
  {
    LoadSaved(t.students.All());
    RestartKeepsUniqueKeys(t.students.buckets[..], UsernameOf, k);
  }
}
