/** The account routes of main.cpp: `/login_post`, `/signup_post` and
    `/change_password_post`, over the user tables of users.hpp. */
module Accounts {
  import opened Wrappers
  import opened Json
  import opened Web
  import opened Chains
  import opened Users

  /** What the handlers put in the session: the username and the user type. */
  datatype Session = Session(username: string, userType: string)

  /** The account a login with this email reaches in one role's table: the
      email index gives the username, the role's table its record. */
  function AccountIn(emails: seq<seq<EmailEntry>>, records: seq<seq<User>>, email: string): Option<User>
    requires 0 < |emails| && 0 < |records|
  {
    var e := LookupIn(emails, EmailOf, email);
    if e.None? then None else LookupIn(records, UsernameOf, e.value.username)
  }

  /** The account the login form reaches: students for role "student",
      teachers for role "teacher", none for any other role. */
  function Account(users: UserTable, email: string, role: string): Option<User>
    requires users.Valid()
    reads users.emails.buckets, users.students.buckets, users.teachers.buckets
  {
    if role == "student" then AccountIn(users.emails.buckets[..], users.students.buckets[..], email)
    else if role == "teacher" then AccountIn(users.emails.buckets[..], users.teachers.buckets[..], email)
    else None
  }

  /** Where a successful login goes (relative to the login page). */
  function Dashboard(role: string): string {
    if role == "student" then "student_dashboard" else "teacher_dashboard"
  }

  /** `/login_post`: the email, password and role fields must all be present
      (a missing one throws); the login succeeds exactly when the account
      the email reaches in the role's table has that password, and then
      redirects to the role's dashboard with the account in the session. */
  method Login(params: Params, users: UserTable) returns (res: Response, session: Option<Session>)
    requires users.Valid()
    ensures !("email" in params && "password" in params && "role" in params) ==> res == Crash && session == None
    ensures "email" in params && "password" in params && "role" in params ==>
      var account := Account(users, params["email"], params["role"]);
      if account.Some? && account.value.password == params["password"] then
        res == Redirect(Dashboard(params["role"])) && session == Some(Session(account.value.username, params["role"]))
      else
        res == Redirect("/error") && session == None
  {
    if !("email" in params && "password" in params && "role" in params) {
      return Crash, None;
    }
    var email, pass, role := params["email"], params["password"], params["role"];
    var user := users.FindUsername(email);
    if user.None? {
      return Redirect("/error"), None;
    }
    var success := false;
    var destination := "";
    if role == "student" {
      var data := users.FindStudent(user.value);
      if data.Some? && data.value.password == pass {
        success := true;
        destination := "student_dashboard";
      }
    } else if role == "teacher" {
      var data := users.FindTeacher(user.value);
      if data.Some? && data.value.password == pass {
        success := true;
        destination := "teacher_dashboard";
      }
    }
    if success {
      return Redirect(destination), Some(Session(user.value, role));
    }
    return Redirect("/error"), None;
  }

  /** The record `/signup_post` creates. */
  function NewUser(params: Params): User
    requires "fullname" in params && "username" in params && "email" in params && "password" in params
  {
    User(params["fullname"], params["username"], params["email"], params["password"], [])
  }

  predicate HasSignupFields(params: Params) {
    "fullname" in params && "username" in params && "email" in params && "password" in params && "role" in params
  }

  /** `/signup_post`: all five fields must be present (a missing one throws);
      an email already in the index is refused; otherwise the new user is
      added as a student for role "student" and as a teacher for any other
      role, its file is rewritten, and the session holds the username and
      the role as given. */
  method Signup(params: Params, users: UserTable) returns (res: Response, session: Option<Session>)
    requires users.Valid()
    modifies users.students.buckets, users.teachers.buckets, users.emails.buckets
    modifies users`studentsFile, users`teachersFile
    ensures users.Valid()
    ensures !HasSignupFields(params) || old(users.emails.Lookup(params["email"])).Some? ==>
      res == (if HasSignupFields(params) then Redirect("/error") else Crash) && session == None &&
      users.students.buckets[..] == old(users.students.buckets[..]) &&
      users.teachers.buckets[..] == old(users.teachers.buckets[..]) &&
      users.emails.buckets[..] == old(users.emails.buckets[..]) &&
      users.studentsFile == old(users.studentsFile) && users.teachersFile == old(users.teachersFile)
    ensures HasSignupFields(params) && old(users.emails.Lookup(params["email"])).None? ==>
      var u := NewUser(params);
      session == Some(Session(params["username"], params["role"])) &&
      users.emails.buckets[..] == HeadInserted(old(users.emails.buckets[..]), EmailOf, EntryOf(u)) &&
      if params["role"] == "student" then
        res == Redirect("/student_dashboard") &&
        users.students.buckets[..] == HeadInserted(old(users.students.buckets[..]), UsernameOf, u) &&
        users.teachers.buckets[..] == old(users.teachers.buckets[..]) &&
        users.studentsFile == Items(users.students.All(), ToJson) && users.teachersFile == old(users.teachersFile)
      else
        res == Redirect("/teacher_dashboard") &&
        users.teachers.buckets[..] == HeadInserted(old(users.teachers.buckets[..]), UsernameOf, u) &&
        users.students.buckets[..] == old(users.students.buckets[..]) &&
        users.teachersFile == Items(users.teachers.All(), ToJson) && users.studentsFile == old(users.studentsFile)
  {
    if !HasSignupFields(params) {
      return Crash, None;
    }
    var email := params["email"];
    var existing := users.FindUsername(email);
    if existing.Some? {
      return Redirect("/error"), None;
    }
    session := Some(Session(params["username"], params["role"]));
    var u := NewUser(params);
    if params["role"] == "student" {
      users.AddStudent(u);
      res := Redirect("/student_dashboard");
    } else {
      users.AddTeacher(u);
      res := Redirect("/teacher_dashboard");
    }
  }

  /** A new account is reached by its email at once: signing up and then
      logging in with the same email and password succeeds. */
  lemma SignupThenLogin(emails: seq<seq<EmailEntry>>, records: seq<seq<User>>, u: User)
    requires 0 < |emails| && 0 < |records|
    ensures AccountIn(HeadInserted(emails, EmailOf, EntryOf(u)), HeadInserted(records, UsernameOf, u), u.email) == Some(u)
  {
    HeadInsertedLookup(emails, EmailOf, EntryOf(u), u.email);
    HeadInsertedLookup(records, UsernameOf, u, u.username);
  }

  predicate HasPasswordFields(params: Params) {
    "current_password" in params && "new_password" in params && "confirm_password" in params
  }

  /** The record the session's user type and username find. */
  function Record(users: UserTable, userType: string, username: string): Option<User>
    requires users.Valid()
    reads users.emails.buckets, users.students.buckets, users.teachers.buckets
  {
    if userType == "student" then users.students.Lookup(username)
    else if userType == "teacher" then users.teachers.Lookup(username)
    else None
  }

  /** The answer of `/change_password_post`. Every answer is a 303 status
      whose body is the address. */
  function PasswordResponse(userType: string, username: string, params: Params, record: Option<User>): Response {
    if username == "" || userType == "" then Text(303, "/error")
    else if !HasPasswordFields(params) then Crash
    else if params["new_password"] == "" || params["new_password"] != params["confirm_password"] then
      Text(303, "/change_password?error=mismatch")
    else if (userType == "student" || userType == "teacher") && record.None? then
      Text(303, "/change_password?error=notfound")
    else if record.Some? && record.value.password == params["current_password"] then
      Text(303, "/change_password?success=true")
    else Text(303, "/change_password?error=incorrect")
  }

  /** The write through the student pointer, then `saveStudentsToFile`. */
  method StoreStudent(users: UserTable, u: User)
    requires users.Valid() && users.students.Lookup(u.username).Some?
    modifies users.students.buckets, users`studentsFile
    ensures users.Valid()
    ensures users.students.buckets[..] == FirstReplaced(old(users.students.buckets[..]), UsernameOf, u.username, u)
    ensures users.teachers.buckets[..] == old(users.teachers.buckets[..]) && users.teachersFile == old(users.teachersFile)
    ensures users.studentsFile == Items(users.students.All(), ToJson)
  {
    ghost var teachers := users.teachers.buckets[..];
    users.students.ReplaceFirst(u.username, u);
    assert users.teachers.buckets[..] == teachers;
    users.SaveStudents();
  }

  /** The write through the teacher pointer, then `saveTeachersToFile`. */
  method StoreTeacher(users: UserTable, u: User)
    requires users.Valid() && users.teachers.Lookup(u.username).Some?
    modifies users.teachers.buckets, users`teachersFile
    ensures users.Valid()
    ensures users.teachers.buckets[..] == FirstReplaced(old(users.teachers.buckets[..]), UsernameOf, u.username, u)
    ensures users.students.buckets[..] == old(users.students.buckets[..]) && users.studentsFile == old(users.studentsFile)
    ensures users.teachersFile == Items(users.teachers.All(), ToJson)
  {
    ghost var students := users.students.buckets[..];
    users.teachers.ReplaceFirst(u.username, u);
    assert users.students.buckets[..] == students;
    users.SaveTeachers();
  }

  /** `/change_password_post`: the new password replaces the old one, through
      the pointer the lookup returned, when the two new fields agree, are
      not empty and the current password is right; then the role's file
      is rewritten. Nothing else changes. */
  method ChangePassword(userType: string, username: string, params: Params, users: UserTable)
    returns (res: Response, updated: Option<User>)
    requires users.Valid()
    modifies users.students.buckets, users.teachers.buckets, users`studentsFile, users`teachersFile
    ensures users.Valid()
    ensures res == PasswordResponse(userType, username, params, old(Record(users, userType, username)))
    ensures updated.Some? <==> res == Text(303, "/change_password?success=true")
    ensures updated.Some? ==>
      updated.value == old(Record(users, userType, username)).value.(password := params["new_password"])
    ensures users.students.buckets[..] == if updated.Some? && userType == "student" then
      FirstReplaced(old(users.students.buckets[..]), UsernameOf, username, updated.value)
      else old(users.students.buckets[..])
    ensures users.teachers.buckets[..] == if updated.Some? && userType == "teacher" then
      FirstReplaced(old(users.teachers.buckets[..]), UsernameOf, username, updated.value)
      else old(users.teachers.buckets[..])
    ensures users.studentsFile == if updated.Some? && userType == "student" then
      Items(users.students.All(), ToJson) else old(users.studentsFile)
    ensures users.teachersFile == if updated.Some? && userType == "teacher" then
      Items(users.teachers.All(), ToJson) else old(users.teachersFile)
  {
    updated := None;
    if username == "" || userType == "" {
      res := Text(303, "/error");
    } else if !HasPasswordFields(params) {
      res := Crash;
    } else if params["new_password"] == "" || params["new_password"] != params["confirm_password"] {
      res := Text(303, "/change_password?error=mismatch");
    } else if userType == "student" {
      var student := users.FindStudent(username);
      if student.None? {
        res := Text(303, "/change_password?error=notfound");
      } else if student.value.password == params["current_password"] {
        var u := student.value.(password := params["new_password"]);
        StoreStudent(users, u);
        updated := Some(u);
        res := Text(303, "/change_password?success=true");
      } else {
        res := Text(303, "/change_password?error=incorrect");
      }
    } else if userType == "teacher" {
      var teacher := users.FindTeacher(username);
      if teacher.None? {
        res := Text(303, "/change_password?error=notfound");
      } else if teacher.value.password == params["current_password"] {
        var u := teacher.value.(password := params["new_password"]);
        StoreTeacher(users, u);
        updated := Some(u);
        res := Text(303, "/change_password?success=true");
      } else {
        res := Text(303, "/change_password?error=incorrect");
      }
    } else {
      res := Text(303, "/change_password?error=incorrect");
    }
  }

  /** After a password change the login with the same email reaches the
      updated record: the new password opens the account. */
  lemma ChangeThenLogin(emails: seq<seq<EmailEntry>>, records: seq<seq<User>>, email: string, password: string)
    requires 0 < |emails| && 0 < |records|
    requires AccountIn(emails, records, email).Some?
    ensures var u := AccountIn(emails, records, email).value;
      AccountIn(emails, FirstReplaced(records, UsernameOf, u.username, u.(password := password)), email) ==
      Some(u.(password := password))
  {
    var e := LookupIn(emails, EmailOf, email).value;
    var u := AccountIn(emails, records, email).value;
    FirstReplacedLookup(records, UsernameOf, u.username, u.(password := password), e.username);
  }
}
