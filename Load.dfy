/** `hashTables` (load.hpp): the older copy of the user store. It has the
    same three tables, but its loaders build records without classroom lists
    and its add operations change only the tables in memory. */
module Load {
  import opened Wrappers
  import opened Json
  import opened Chains
  import Users

  /** One record of the older loaders: the four strings through `user[key]`;
      the constructor used takes no classroom list, so it is always empty. */
  function FromJson(j: Json): Option<Users.User> {
    var name := Field(j, "name", AsString);
    var username := Field(j, "username", AsString);
    var email := Field(j, "email", AsString);
    var password := Field(j, "password", AsString);
    if name.Some? && username.Some? && email.Some? && password.Some? then
      Some(Users.User(name.value, username.value, email.value, password.value, []))
    else None
  }

  /** A record saved with its classroom list loads back without it. */
  lemma LoadDropsClassroomIds(u: Users.User)
    ensures FromJson(Users.ToJson(u)) == Some(u.(classroomIds := []))
  {
  }

  /** Whatever the file holds under `classroomIds`, a loaded record has none,
      and the older loader accepts every record the newer one accepts. */
  lemma LoadedWithoutClassrooms(j: Json)
    requires Users.FromJson(j).Some?
    ensures FromJson(j) == Some(Users.FromJson(j).value.(classroomIds := []))
  {
  }

  /** Records that are exactly the ones a file loads carry no classroom list. */
  lemma NoClassroomsLoaded(file: seq<Json>, all: seq<Users.User>)
    requires Each(file, FromJson).Some?
    requires multiset(all) == multiset(Each(file, FromJson).value)
    ensures forall u :: u in all ==> u.classroomIds == []
  {
    var us := Each(file, FromJson).value;
    forall u | u in all ensures u.classroomIds == [] {
      assert u in multiset(all);
      var i :| 0 <= i < |us| && us[i] == u;
      assert FromJson(file[i]) == Some(u);
    }
  }

  /** The email nodes the constructor creates. */
  function LoadedEntries(studentFile: seq<Json>, teacherFile: seq<Json>): seq<Users.EmailEntry>
    requires Each(studentFile, FromJson).Some? && Each(teacherFile, FromJson).Some?
  {
    Users.Entries(Each(studentFile, FromJson).value) + Users.Entries(Each(teacherFile, FromJson).value)
  }

  class HashTables {
    const students: ChainTable<Users.User>
    const teachers: ChainTable<Users.User>
    const emails: ChainTable<Users.EmailEntry>

    ghost predicate Valid()
      reads students.buckets, teachers.buckets, emails.buckets
    {
      students.Valid() && teachers.Valid() && emails.Valid()
      && students.size == Users.Size && teachers.size == Users.Size && emails.size == 2 * Users.Size
      && students.keyOf == Users.UsernameOf && teachers.keyOf == Users.UsernameOf && emails.keyOf == Users.EmailOf
      && students.buckets != teachers.buckets
    }

    /** The constructor: 200 empty email chains and 100 empty chains per
        role, then every record of the two files inserted in file order. */
    constructor (studentFile: seq<Json>, teacherFile: seq<Json>)
      requires Each(studentFile, FromJson).Some? && Each(teacherFile, FromJson).Some?
      ensures Valid()
      ensures fresh(students.buckets) && fresh(teachers.buckets) && fresh(emails.buckets)
      ensures forall k :: students.Lookup(k) == LastMatch(Each(studentFile, FromJson).value, Users.UsernameOf, k)
      ensures forall k :: teachers.Lookup(k) == LastMatch(Each(teacherFile, FromJson).value, Users.UsernameOf, k)
      ensures forall e :: emails.Lookup(e) == LastMatch(LoadedEntries(studentFile, teacherFile), Users.EmailOf, e)
      ensures forall u :: u in students.All() ==> u.classroomIds == []
      ensures forall u :: u in teachers.All() ==> u.classroomIds == []
    {
      var ss := Each(studentFile, FromJson).value;
      var ts := Each(teacherFile, FromJson).value;
      var st := FromSeq(Users.Size, Users.UsernameOf, ss);
      var tt := FromSeq(Users.Size, Users.UsernameOf, ts);
      var et := FromSeq(2 * Users.Size, Users.EmailOf, LoadedEntries(studentFile, teacherFile));
      students, teachers, emails := st, tt, et;
      NoClassroomsLoaded(studentFile, st.All());
      NoClassroomsLoaded(teacherFile, tt.All());
    }

    /** `findStudent`: None exactly when no stored student has username k. */
    method FindStudent(k: string) returns (r: Option<Users.User>)
      requires Valid()
      ensures r == students.Lookup(k)
      ensures r.None? <==> forall u :: u in students.All() ==> u.username != k
      ensures r.Some? ==> r.value.username == k && r.value in students.All()
    {
      r := students.Find(k);
      students.LookupNoneIffAbsent(k);
    }

    /** `findteacher`: None exactly when no stored teacher has username k. */
    method FindTeacher(k: string) returns (r: Option<Users.User>)
      requires Valid()
      ensures r == teachers.Lookup(k)
      ensures r.None? <==> forall u :: u in teachers.All() ==> u.username != k
      ensures r.Some? ==> r.value.username == k && r.value in teachers.All()
    {
      r := teachers.Find(k);
      teachers.LookupNoneIffAbsent(k);
    }

    /** `findUsername`: the username of the first index node for email e. */
    method FindUsername(e: string) returns (r: Option<string>)
      requires Valid()
      ensures r == if emails.Lookup(e).Some? then Some(emails.Lookup(e).value.username) else None
      ensures r.None? <==> forall x :: x in emails.All() ==> x.email != e
    {
      var x := emails.Find(e);
      emails.LookupNoneIffAbsent(e);
      r := if x.Some? then Some(x.value.username) else None;
    }

    /** `addStudent`: head insertion into the student table and the email
        index, and nothing else: no file is written. */
    method AddStudent(u: Users.User)
      requires Valid()
      modifies students.buckets, emails.buckets
      ensures Valid()
      ensures students.buckets[..] == HeadInserted(old(students.buckets[..]), Users.UsernameOf, u)
      ensures emails.buckets[..] == HeadInserted(old(emails.buckets[..]), Users.EmailOf, Users.EntryOf(u))
      ensures teachers.buckets[..] == old(teachers.buckets[..])
    {
      ghost var others := teachers.buckets[..];
      students.Insert(u);
      assert teachers.buckets[..] == others;
      emails.Insert(Users.EntryOf(u));
    }

    /** `addTeacher`: the same for a teacher. */
    method AddTeacher(u: Users.User)
      requires Valid()
      modifies teachers.buckets, emails.buckets
      ensures Valid()
      ensures teachers.buckets[..] == HeadInserted(old(teachers.buckets[..]), Users.UsernameOf, u)
      ensures emails.buckets[..] == HeadInserted(old(emails.buckets[..]), Users.EmailOf, Users.EntryOf(u))
      ensures students.buckets[..] == old(students.buckets[..])
    {
      ghost var others := students.buckets[..];
      teachers.Insert(u);
      assert students.buckets[..] == others;
      emails.Insert(Users.EntryOf(u));
    }
  }
}
