/** `/create_classroom_post` (source/Classroom.cpp): a teacher creates a
    classroom, which gets a fresh code and is listed on the teacher's
    record. */
module ClassroomRoutes {
  import opened Wrappers
  import opened Json
  import opened Web
  import opened Codes
  import opened Chains
  import opened Users
  import opened Classrooms

  predicate HasClassroomFields(params: Params) {
    "classname" in params && "subject" in params
  }

  /** Whether the request reaches `addClassroom`: a teacher session with a
      username, both fields, and a teacher record for the username. */
  predicate Creates(userType: string, username: string, params: Params, teacher: Option<User>) {
    userType == "teacher" && username != "" && HasClassroomFields(params) && teacher.Some?
  }

  /** The answer when no classroom is created: a missing field throws, every
      other refusal redirects to the error page. */
  function Refusal(userType: string, username: string, params: Params): Response {
    if userType == "teacher" && username != "" && !HasClassroomFields(params) then Crash
    else Redirect("/error")
  }

  /** `addClassroom`, which lists the new code on the teacher's record,
      followed by the handler's own `push_back` of the same code through the
      pointer `findTeacher` returned. */
  method AddListedTwice(rooms: ClassroomTable, name: string, subject: string, users: UserTable, t: User, draws: seq<int>)
    returns (c: string)
    requires rooms.Valid() && users.Valid() && IsDraws(draws)
    requires users.teachers.Lookup(t.username) == Some(t)
    modifies rooms.rooms.buckets, users.teachers.buckets
    ensures rooms.Valid() && users.Valid()
    ensures IsCode(c) && forall i :: 0 <= i < CodeLength ==> c[i] == Alphabet[draws[i]]
    ensures rooms.rooms.buckets[..] == HeadInserted(old(rooms.rooms.buckets[..]), CodeOf, NewClassroom(name, subject, c, t.username))
    ensures users.teachers.buckets[..] ==
      FirstReplaced(old(users.teachers.buckets[..]), UsernameOf, t.username, t.(classroomIds := t.classroomIds + [c, c]))
  {
    ghost var before := users.teachers.buckets[..];
    c := rooms.AddClassroom(name, subject, users, t, draws);
    var t1 := t.(classroomIds := t.classroomIds + [c]);
    var t2 := t.(classroomIds := t.classroomIds + [c, c]);
    assert t2 == t1.(classroomIds := t1.classroomIds + [c]);
    FirstReplacedLookup(before, UsernameOf, t.username, t1, t.username);
    FirstReplacedTwice(before, UsernameOf, t.username, t1, t2);
    ghost var chains := rooms.rooms.buckets[..];
    users.ListClassroom(t1, c);
    assert rooms.rooms.buckets[..] == chains;
  }

  /** The route as written: `addClassroom` appends the new code to the
      teacher's list through the teacher pointer, and the handler then
      appends it a second time before saving the teachers. */
  method CreateClassroom(userType: string, username: string, params: Params,
                         users: UserTable, rooms: ClassroomTable, draws: seq<int>)
    returns (res: Response, code: Option<string>)
    requires users.Valid() && rooms.Valid() && IsDraws(draws)
    modifies rooms.rooms.buckets, users.teachers.buckets, users`teachersFile
    ensures users.Valid()
    ensures rooms.Valid()
    ensures code.Some? <==> Creates(userType, username, params, old(users.teachers.Lookup(username)))
    ensures res == if code.Some? then Redirect("/classroom_created?code=" + code.value)
      else Refusal(userType, username, params)
    ensures code.Some? ==> IsCode(code.value) && forall i :: 0 <= i < CodeLength ==> code.value[i] == Alphabet[draws[i]]
    ensures rooms.rooms.buckets[..] == if code.Some? then
      HeadInserted(old(rooms.rooms.buckets[..]), CodeOf, NewClassroom(params["classname"], params["subject"], code.value, username))
      else old(rooms.rooms.buckets[..])
    ensures users.teachers.buckets[..] == if code.Some? then
      var t := old(users.teachers.Lookup(username)).value;
      FirstReplaced(old(users.teachers.buckets[..]), UsernameOf, username, t.(classroomIds := t.classroomIds + [code.value, code.value]))
      else old(users.teachers.buckets[..])
    ensures users.teachersFile == if code.Some? then Items(users.teachers.All(), Users.ToJson) else old(users.teachersFile)
  {
    code := None;
    if userType != "teacher" || username == "" || !HasClassroomFields(params) {
      res := Refusal(userType, username, params);
    } else {
      var teacher := users.FindTeacher(username);
      if teacher.None? {
        res := Redirect("/error");
      } else {
        var c := AddListedTwice(rooms, params["classname"], params["subject"], users, teacher.value, draws);
        users.SaveTeachers();
        res := Redirect("/classroom_created?code=" + c);
        code := Some(c);
      }
    }
  }

  /** The teacher record the route leaves behind lists the new code twice. */
  lemma CodeListedTwice(bs: seq<seq<User>>, t: User, code: string)
    requires 0 < |bs| && LookupIn(bs, UsernameOf, t.username) == Some(t)
    ensures var after := LookupIn(FirstReplaced(bs, UsernameOf, t.username,
        t.(classroomIds := t.classroomIds + [code, code])), UsernameOf, t.username);
      after.Some? && multiset(after.value.classroomIds)[code] == multiset(t.classroomIds)[code] + 2
  {
    var t2 := t.(classroomIds := t.classroomIds + [code, code]);
    FirstReplacedLookup(bs, UsernameOf, t.username, t2, t.username);
    assert t2.classroomIds == t.classroomIds + [code] + [code];
  }

  /** The route with the second append removed: `addClassroom` alone lists
      the code on the teacher's record. */
  method CreateClassroomOnce(userType: string, username: string, params: Params,
                             users: UserTable, rooms: ClassroomTable, draws: seq<int>)
    returns (res: Response, code: Option<string>)
    requires users.Valid() && rooms.Valid() && IsDraws(draws)
    modifies rooms.rooms.buckets, users.teachers.buckets, users`teachersFile
    ensures users.Valid()
    ensures rooms.Valid()
    ensures code.Some? <==> Creates(userType, username, params, old(users.teachers.Lookup(username)))
    ensures res == if code.Some? then Redirect("/classroom_created?code=" + code.value)
      else Refusal(userType, username, params)
    ensures code.Some? ==> IsCode(code.value) && forall i :: 0 <= i < CodeLength ==> code.value[i] == Alphabet[draws[i]]
    ensures rooms.rooms.buckets[..] == if code.Some? then
      HeadInserted(old(rooms.rooms.buckets[..]), CodeOf, NewClassroom(params["classname"], params["subject"], code.value, username))
      else old(rooms.rooms.buckets[..])
    ensures users.teachers.buckets[..] == if code.Some? then
      var t := old(users.teachers.Lookup(username)).value;
      FirstReplaced(old(users.teachers.buckets[..]), UsernameOf, username, t.(classroomIds := t.classroomIds + [code.value]))
      else old(users.teachers.buckets[..])
    ensures users.teachersFile == if code.Some? then Items(users.teachers.All(), Users.ToJson) else old(users.teachersFile)
  {
    code := None;
    if userType != "teacher" || username == "" || !HasClassroomFields(params) {
      res := Refusal(userType, username, params);
    } else {
      var teacher := users.FindTeacher(username);
      if teacher.None? {
        res := Redirect("/error");
      } else {
        var c := rooms.AddClassroom(params["classname"], params["subject"], users, teacher.value, draws);
        users.SaveTeachers();
        res := Redirect("/classroom_created?code=" + c);
        code := Some(c);
      }
    }
  }

  /** With a single append a new code is listed exactly once on the
      teacher's record. */
  lemma CodeListedOnce(bs: seq<seq<User>>, t: User, code: string)
    requires 0 < |bs| && LookupIn(bs, UsernameOf, t.username) == Some(t)
    requires code !in t.classroomIds
    ensures var after := LookupIn(FirstReplaced(bs, UsernameOf, t.username,
        t.(classroomIds := t.classroomIds + [code])), UsernameOf, t.username);
      after.Some? && multiset(after.value.classroomIds)[code] == 1
  {
    var t1 := t.(classroomIds := t.classroomIds + [code]);
    FirstReplacedLookup(bs, UsernameOf, t.username, t1, t.username);
    assert multiset(t.classroomIds)[code] == 0;
  }
}
