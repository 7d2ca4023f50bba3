# EDUMAZE classroom and quiz core, modelled in Dafny

EDUMAZE is a classroom and quiz web application written in C++ on the Crow
framework. Students and teachers sign up and log in. A teacher creates
classrooms and quizzes. A student submits a quiz once. Everyone in the
quiz's audience sees a leaderboard ranked by score and then by time.

Every entity lives in a separate-chaining hash table. The bucket index is
the 32-bit FNV-1a hash of the key modulo the table size, and a new record
goes to the head of its chain. Each table is loaded from a JSON file and
saved back to it. This project models:

- the tables (users, the loader variant of the user table, classrooms,
  quizzes, results), with their find, add, save and load operations;
- the id generator;
- the JSON conversions;
- the routes for login, signup, password change, classroom creation,
  quiz creation, quiz submission and the leaderboard;
- the raw-body answer parser and the leaderboard ranking.

Layout:

- `Chains.dfy`: the generic chained table. It is a `class` over an
  `array<seq<R>>` of chains, with head insertion, the lookup that returns
  the first match in a chain, and the pointer write-through, which is
  modelled as replacing that first match.
- `Fnv.dfy`: FNV-1a and the bucket index.
- `Codes.dfy`: six-character ids over `A-Z0-9`.
- `Json.dfy`, `Text.dfy`: JSON values, plus `std::to_string`,
  `std::stoi` and `std::stoll`.
- `Users.dfy`, `Load.dfy`, `Classrooms.dfy`, `Quizzes.dfy`, `Results.dfy`:
  the tables and their records.
- `Accounts.dfy`, `ClassroomRoutes.dfy`, `QuizRoutes.dfy`, `Attempts.dfy`:
  the route handlers.
- `Forms.dfy`: `urlDecode` and `parseQuizAnswers`.
- `Ranking.dfy`: the comparator, the priority-queue loop and the `M:SS`
  time format.

The model is written in the source's own form:

- A table is a class whose methods change its bucket array. Each method
  states the new chains through a pure function of the old ones
  (`HeadInserted`, `FirstReplaced`).
- What lookups then return is proved about those functions.
- A loop in the source is a `while`/`for` loop proved against a function:
  the hash, the dump of all chains, `urlDecode`, the answer parser, the
  scoring loop, the question-reading loops and the leaderboard loop.
- A handler is a method whose response is tied to a pure function of the
  request and the old state.

## Model

| member | source | states |
|---|---|---|
| Fnv.Hash | include/users.hpp:98-107 | the hashing loop computes FNV-1a over the string's bytes: the offset basis, then for each byte an xor and a multiplication by the prime, modulo 2^32 |
| Fnv.Bucket | include/users.hpp:241 | the index `fnv1a(key) % size` is a valid bucket for every key and positive size |
| Fnv.Fnv1aSnoc | include/users.hpp:101-105 | hashing one more character applies exactly one more xor-multiply step to the previous hash |
| Fnv.TestVectors | include/users.hpp:98-107 | the hash agrees with the published 32-bit FNV-1a values for "" and "a" |
| Codes.Generate | include/Classroom.hpp:59-70 | the generated id has six characters from the 36-character alphabet, and character i is the one draw i selects |
| Codes.EveryCodeReachable | include/Classroom.hpp:59-70 | every six-character string over the alphabet is produced by some sequence of draws, so the generator can yield any id |
| Text.NatToString | source/Quiz.cpp:104 | `std::to_string` of a natural number is a non-empty string of digits with no leading zero |
| Text.IntToString | source/QuizAttempt.cpp:238 | `std::to_string` of an int is non-empty and starts with '-' exactly when the number is negative |
| Text.DigitsOfNat | source/QuizAttempt.cpp:235-240 | the decimal text of n reads back as n |
| Text.NatToStringInjective | source/Quiz.cpp:104 | different numbers have different decimal texts |
| Text.ParseInt | source/Quiz.cpp:94 | `std::stoi` gives a value only when it is within the int range; otherwise it throws |
| Text.ParseIntToString | source/QuizAttempt.cpp:53-54 | `std::stoi` of `std::to_string(i)` is i for every i in range |
| Text.ParseIntNeedsDigits | source/QuizAttempt.cpp:53-54 | text that starts with something other than a space, a sign or a digit makes `std::stoi` throw |
| Json.Each | include/Quiz.hpp:80-106 | converting a JSON array succeeds exactly when every element converts, and element i of the result is the conversion of item i |
| Json.Items | include/Quiz.hpp:127-139 | saving writes one JSON item per record |
| Json.EachItems | include/Quiz.hpp:127-139 | when a record type's from_json inverts its to_json, loading a saved array gives back the saved records in order |
| Json.StringsRoundTrip | include/Classroom.hpp:32-41 | a list of strings written to JSON reads back unchanged |
| Json.IntsRoundTrip | include/QuizAttempt.hpp:34-43 | a list of ints written to JSON reads back unchanged |
| Chains.FirstIndex | include/users.hpp:240-249 | the scan of one chain stops at the first record with the key, or at the end when no record has it |
| Chains.LastIndex | include/users.hpp:110-153 | the position of the last record with the key in a sequence, or its length when there is none |
| Chains.FirstMatchSpec | include/users.hpp:240-249 | a chain lookup returns nothing exactly when no record in the chain has the key; otherwise it returns a record of the chain with that key |
| Chains.HeadInsert | include/users.hpp:267-295 | after head insertion the new record answers for its own key and every other key finds what it found before |
| Chains.ReplaceAtFirst | main.cpp:215-225 | writing through the pointer a lookup returned changes that key's answer to the new record and leaves every other key's answer alone |
| Chains.UniqueKeyFirstIsLast | include/users.hpp:110-153 | when a key occurs at most once, its first and last occurrences are the same record |
| Chains.LayoutHeadInsert | include/users.hpp:267-295 | head insertion into bucket `fnv1a(key) % size` keeps every record in the bucket its key hashes to |
| Chains.HeadInserted | include/users.hpp:267-295 | head insertion keeps the number of buckets |
| Chains.HeadInsertedLookup | include/users.hpp:267-295 | a lookup after insertion returns the new record for its key and the old answer for every other key |
| Chains.HeadInsertedMultiset | include/users.hpp:267-295 | the table's contents gain exactly the inserted record |
| Chains.HeadInsertedShadows | include/users.hpp:267-295 | inserting a record whose key is already present hides the old record from lookups, but it stays stored |
| Chains.InsertedAll | include/users.hpp:110-153 | loading a file keeps the number of buckets |
| Chains.InsertedAllLayout | include/users.hpp:110-153 | loading a file puts every record in the bucket its key hashes to |
| Chains.InsertedAllLookup | include/users.hpp:110-153 | after loading a file, a key finds the last record of the file that has it, or the earlier answer when the file has none |
| Chains.InsertedAllMultiset | include/users.hpp:110-153 | loading adds exactly the file's records to the table |
| Chains.FirstReplaced | main.cpp:215-225 | replacing the found record keeps the number of buckets |
| Chains.FirstReplacedLookup | main.cpp:215-225 | after the write-through, the key finds the new record and other keys find what they found before |
| Chains.FirstReplacedMultiset | main.cpp:215-225 | the write-through swaps exactly the found record for the new one in the table's contents |
| Chains.FirstReplacedLayout | main.cpp:215-225 | a write-through that keeps the key keeps every record in its hash bucket |
| Chains.FirstReplacedTwice | source/Classroom.cpp:59-60 | two write-throughs on the same key equal the second alone |
| Chains.RestartKeepsUniqueKeys | include/users.hpp:343-353 | with unique keys, saving the table and loading the file back finds the same record for each key |
| Chains.RestartUnshadows | include/users.hpp:343-353 | for every table, after saving and loading the dump into empty chains, a key finds the last (oldest) record of its old chain, so a record shadowed by a newer duplicate becomes the one found |
| Chains.ChainTable.Index | include/users.hpp:241 | the bucket of a key is below the table size |
| Chains.ChainTable.constructor | include/users.hpp:200-229 | a new table has the given size, empty chains, no key found and no contents |
| Chains.ChainTable.Find | include/users.hpp:240-249 | the scan returns the first record of the key's chain with that key, and nothing exactly when no record there has it |
| Chains.ChainTable.LookupNoneIffAbsent | include/users.hpp:240-249 | a key is not found exactly when no stored record has it, and a found record is stored and has the key |
| Chains.ChainTable.Insert | include/users.hpp:267-295 | head insertion keeps the table well formed, makes the record found for its key, leaves other keys unchanged, and adds exactly the record |
| Chains.ChainTable.InsertAll | include/users.hpp:110-153 | inserting a file's records in order makes each key find the file's last record with it, and adds exactly those records |
| Chains.ChainTable.ReplaceFirst | main.cpp:215-225 | the write-through makes the key find the new record, leaves other keys unchanged, and swaps one record for the other |
| Chains.ChainTable.Dump | include/users.hpp:343-353 | the traversal bucket by bucket, head to tail, yields exactly the table's contents in that order |
| Chains.FromSeq | include/users.hpp:110-153 | a table built from a file finds, for each key, the last record of the file with it, and holds exactly the file's records |
| Users.LoadedClassroomIds | include/users.hpp:118-120 | a loaded user's classroom ids are the file's array when the field is an array, and empty otherwise |
| Users.FromToJson | source/Students.cpp:5-13 | a user written to JSON loads back unchanged |
| Users.LoadSaved | include/users.hpp:343-353 | the saved array of users loads back as the same users in the same order |
| Users.UserTable.constructor | include/users.hpp:200-229 | each table finds, for each key, the last record of its file with that key; the email index covers students then teachers |
| Users.UserTable.FindStudent | include/users.hpp:240-249 | returns the student found for the username, and nothing exactly when no stored student has it |
| Users.UserTable.FindTeacher | include/users.hpp:252-260 | returns the teacher found for the username, and nothing exactly when no stored teacher has it |
| Users.UserTable.FindUsername | include/users.hpp:332-340 | returns the username the email index holds for the email, and nothing exactly when no entry has the email |
| Users.UserTable.SaveStudents | include/users.hpp:343-353 | the students file becomes the JSON of every stored student, in traversal order |
| Users.UserTable.SaveTeachers | include/users.hpp:356-364 | the teachers file becomes the JSON of every stored teacher, in traversal order |
| Users.UserTable.AddStudent | include/users.hpp:267-295 | the student is head-inserted by username and the email entry by email, teachers are untouched, and the students file is rewritten |
| Users.UserTable.AddTeacher | include/users.hpp:298-326 | the teacher is head-inserted by username and the email entry by email, students are untouched, and the teachers file is rewritten |
| Users.UserTable.ListClassroom | include/Classroom.hpp:132 | appending a code through the teacher pointer replaces the found teacher by one whose list ends with the code, and changes nothing else |
| Users.RestartFindsSameStudent | include/users.hpp:343-353 | with unique usernames, the saved students file loads back and finds the same student for the username |
| Load.LoadDropsClassroomIds | include/load.hpp:91-122 | the loader variant reads a saved user back with an empty classroom list |
| Load.LoadedWithoutClassrooms | include/load.hpp:91-122 | the loader variant reads the same user as the main table, except for an empty classroom list |
| Load.NoClassroomsLoaded | include/load.hpp:91-122 | every user the loader variant reads has no classrooms |
| Load.HashTables.constructor | include/load.hpp:158-183 | the loaded tables find the last record of each file per key, and no loaded user has classrooms |
| Load.HashTables.FindStudent | include/load.hpp:185-193 | returns the student found for the username, and nothing exactly when none is stored |
| Load.HashTables.FindTeacher | include/load.hpp:195-203 | returns the teacher found for the username, and nothing exactly when none is stored |
| Load.HashTables.FindUsername | include/load.hpp:259-267 | returns the username held for the email, and nothing exactly when no entry has it |
| Load.HashTables.AddStudent | include/load.hpp:205-230 | head-inserts the student and the email entry, teachers untouched; no file is written |
| Load.HashTables.AddTeacher | include/load.hpp:232-257 | head-inserts the teacher and the email entry, students untouched; no file is written |
| Classrooms.ToJson | include/Classroom.hpp:32-41 | a classroom is written as an object with exactly its six keys |
| Classrooms.FromToJson | include/Classroom.hpp:72-98 | a classroom written to JSON loads back unchanged |
| Classrooms.MissingFieldsDefault | include/Classroom.hpp:72-98 | an object with none of the six keys loads as the all-defaults classroom |
| Classrooms.ClassroomTable.constructor | include/Classroom.hpp:101-116 | each code finds the last classroom of the file with that code |
| Classrooms.ClassroomTable.FindClassroom | include/Classroom.hpp:137-145 | returns the classroom found for the code, and nothing exactly when no stored classroom has it |
| Classrooms.ClassroomTable.AddClassroom | include/Classroom.hpp:119-135 | the new classroom gets a drawn code and is head-inserted; the teacher's record gets that code appended |
| Classrooms.ClassroomTable.Save | include/Classroom.hpp:147-166 | the classroom file becomes the JSON of every stored classroom, in traversal order |
| Classrooms.LoadSaved | include/Classroom.hpp:147-166 | the saved classroom array loads back as the same classrooms in order |
| Quizzes.QuestionFromToJson | source/Quiz.cpp:5-17 | a question written to JSON loads back unchanged |
| Quizzes.FromToJson | source/Quiz.cpp:20-36 | a quiz, questions included, written to JSON loads back unchanged |
| Quizzes.MissingFieldsDefault | source/Quiz.cpp:30-36 | an object with none of the quiz keys loads as the all-defaults quiz |
| Quizzes.LoadSaved | include/Quiz.hpp:127-139 | the saved quiz array loads back as the same quizzes in order |
| Quizzes.QuizTable.constructor | include/Quiz.hpp:109-124 | each id finds the last quiz of the file with that id |
| Quizzes.QuizTable.CreateQuiz | include/Quiz.hpp:141-155 | the quiz gets a drawn id and the given fields, is head-inserted, and is found by its id |
| Quizzes.QuizTable.FindQuiz | include/Quiz.hpp:157-165 | returns the quiz found for the id, and nothing exactly when no stored quiz has it |
| Quizzes.QuizTable.Save | include/Quiz.hpp:127-139 | the quiz file becomes the JSON of every stored quiz, in traversal order |
| Results.FromToJson | include/QuizAttempt.hpp:34-52 | a result written to JSON loads back unchanged |
| Results.MissingFieldsDefault | include/QuizAttempt.hpp:45-52 | an object with none of the result keys loads as the all-defaults result |
| Results.LoadSaved | include/QuizAttempt.hpp:139-151 | the saved result array loads back as the same results in order |
| Results.ForQuizMember | include/QuizAttempt.hpp:169-181 | a result is among a quiz's results exactly when it is stored and names that quiz |
| Results.AddedIsAttempted | include/QuizAttempt.hpp:183-194 | once a result is added, its student counts as having attempted its quiz, and it is among the quiz's results |
| Results.ResultTable.constructor | include/QuizAttempt.hpp:107-122 | each id finds the last result of the file with that id |
| Results.ResultTable.AddResult | include/QuizAttempt.hpp:153-167 | the result gets a drawn id and the given fields, is head-inserted, and is added to the contents |
| Results.ResultTable.FindResultsForQuiz | include/QuizAttempt.hpp:169-181 | the full traversal returns exactly the stored results of the quiz, in traversal order |
| Results.ResultTable.HasStudentAttempted | include/QuizAttempt.hpp:183-194 | true exactly when some stored result has both the student and the quiz |
| Results.ResultTable.Save | include/QuizAttempt.hpp:139-151 | the results file becomes the JSON of every stored result, in traversal order |
| Forms.ScanHex | source/QuizAttempt.cpp:23 | `sscanf("%x")` reads a number from the two characters after a '%' exactly when they start with a hex digit, or with white space or a sign followed by one; the value is above -16 and below 256 |
| Forms.ByteOf | source/QuizAttempt.cpp:24 | `static_cast<char>` keeps the low eight bits, so the result is a byte and values 0 to 255 are kept unchanged |
| Forms.SignedEscapes | source/QuizAttempt.cpp:22-26 | "% 9" and "%+9" decode to a tab and "%-f" to the byte 0xF1, because `sscanf` skips white space and reads a sign |
| Forms.SpacedAnswer | source/QuizAttempt.cpp:44-57 | for every question q, the piece `answer_<q>=% 91` answers q with option 1, because its value decodes to a tab and "1" and `std::stoi` skips the tab |
| Forms.UrlDecode | source/QuizAttempt.cpp:17-34 | the decoding loop agrees with the decoding function: '+' becomes a space and "%hh" becomes that byte |
| Forms.DecodeEncode | source/QuizAttempt.cpp:17-34 | decoding undoes form encoding for every byte string |
| Forms.DecodePlain | source/QuizAttempt.cpp:17-34 | text with no '%' and no '+' decodes to itself |
| Forms.FindChar | source/QuizAttempt.cpp:44 | `find('=')` returns the first position of the character, or the length when it is absent |
| Forms.SplitJoin | source/QuizAttempt.cpp:43 | splitting a form at '&' gives back the pieces it was joined from |
| Forms.ParseQuizAnswers | source/QuizAttempt.cpp:38-62 | the getline loop builds the answer map of the body's pieces |
| Forms.AnswersKeys | source/QuizAttempt.cpp:38-62 | a question has an answer exactly when some piece of the body parses as an answer to it |
| Forms.AnswersLastWins | source/QuizAttempt.cpp:55 | when a question is answered more than once, the last piece that answers it wins |
| Forms.AnswerField | source/QuizAttempt.cpp:44-57 | the piece `answer_<q>=<o>` parses as the answer o to question q |
| Forms.AnswerPiece | source/QuizAttempt.cpp:44-57 | a piece whose key has no '=' answers question q with option o whenever its key decodes to `answer_` followed by text `std::stoi` reads as q, and its value decodes to text `std::stoi` reads as o |
| Ranking.StrictWeakOrder | source/QuizAttempt.cpp:8-15 | the comparator is irreflexive, asymmetric and transitive, and two results are unordered exactly when they tie on score and time |
| Ranking.TopOf | source/QuizAttempt.cpp:224-226 | every non-empty queue has a top that no other result outranks |
| Ranking.PopTop | source/QuizAttempt.cpp:224-226 | popping the top keeps the popped list ranked and ahead of what remains, and loses no result |
| Ranking.Quot | source/QuizAttempt.cpp:236-237 | the quotient truncates toward zero, so the remainder has the sign of the dividend |
| Ranking.Seconds | source/QuizAttempt.cpp:239 | seconds below 60 print as exactly two digits that read back as the seconds |
| Ranking.FormatTimeRoundTrip | source/QuizAttempt.cpp:234-240 | a non-negative time prints as M:SS, which reads back as the same number of seconds |
| Ranking.FormatNegativeTime | source/QuizAttempt.cpp:234-240 | a time between -60 and 0 prints as "0:0" followed by the signed seconds |
| Ranking.Rows | source/QuizAttempt.cpp:223-243 | the page gets one row per ranked result |
| Ranking.RowsNumbered | source/QuizAttempt.cpp:223-243 | row i carries rank i + 1 and the i-th result's name, score and formatted time |
| Ranking.Rank | source/QuizAttempt.cpp:208-243 | push all, then pop until empty: a permutation of the results, scores never rising and times never falling at equal scores, rows numbered from 1 |
| Attempts.Correct | source/QuizAttempt.cpp:171-179 | the score over n questions is at most n |
| Attempts.CorrectCountsHits | source/QuizAttempt.cpp:171-179 | the score is the number of questions whose submitted option is the correct one |
| Attempts.Score | source/QuizAttempt.cpp:167-179 | the scoring loop returns that score and the vector of chosen options, with -1 where none was chosen |
| Attempts.StoredOnlyOnce | source/QuizAttempt.cpp:127-189 | a submission is redirected to the leaderboard exactly when a student with a quiz id and start time submits an existing quiz not yet attempted |
| Attempts.SubmitQuiz | source/QuizAttempt.cpp:127-189 | the answer follows the handler's checks in order; a result is stored and the file saved exactly on the redirect, holding the score, answers and elapsed time |
| Attempts.Record | source/QuizAttempt.cpp:167-183 | an accepted submission is scored from the raw body, head-inserted with a drawn id, and the results file rewritten |
| Attempts.SecondSubmissionRejected | source/QuizAttempt.cpp:162-164 | after a student's result is stored, the next submission for that quiz gets the 303 body and stores nothing |
| Attempts.Leaderboard | source/QuizAttempt.cpp:192-251 | other roles get the error, an unknown quiz gets 404, otherwise the page shows a leaderboard of exactly that quiz's results |
| Accounts.Login | main.cpp:55-103 | missing fields throw; the dashboard redirect and a session come exactly when the email's account of the chosen role has the password |
| Accounts.Signup | main.cpp:110-142 | missing fields throw; a used email redirects to the error page and changes nothing; otherwise the user is added under the chosen role and that role's file is rewritten |
| Accounts.SignupThenLogin | main.cpp:55-103 | right after signup, the new email finds the new account |
| Accounts.StoreStudent | main.cpp:215-225 | the student found is replaced by the updated record, teachers are untouched, and the students file is rewritten |
| Accounts.StoreTeacher | main.cpp:226-236 | the teacher found is replaced by the updated record, students are untouched, and the teachers file is rewritten |
| Accounts.ChangePassword | main.cpp:194-245 | the answer follows the handler's checks; the password changes, and that role's file is rewritten, exactly on the success redirect |
| Accounts.ChangeThenLogin | main.cpp:194-245 | after a password change the account's email finds the account with the new password |
| ClassroomRoutes.AddListedTwice | source/Classroom.cpp:59-60 | `addClassroom` and then the handler's own append leave the teacher with the new code appended twice |
| ClassroomRoutes.CreateClassroom | source/Classroom.cpp:35-68 | a classroom is created exactly for a teacher session with both fields and a teacher record; the code is listed twice and the teachers file saved |
| ClassroomRoutes.CodeListedTwice | source/Classroom.cpp:59-60 | the route as written lists the new code on the teacher's record two more times than before |
| ClassroomRoutes.CreateClassroomOnce | source/Classroom.cpp:35-68 | the corrected route: the same answers and classroom, with the code appended once |
| ClassroomRoutes.CodeListedOnce | include/Classroom.hpp:132 | with a single append, a new code is listed exactly once on the teacher's record |
| QuizRoutes.QuestionKeyInjective | source/Quiz.cpp:104 | different question numbers give different form keys |
| QuizRoutes.KeyImage | source/Quiz.cpp:103-106 | the keys of the first n questions are n distinct strings |
| QuizRoutes.KeysBound | source/Quiz.cpp:103-106 | a form holding n question texts has at least n fields, so the reading loop ends |
| QuizRoutes.CountFrom | source/Quiz.cpp:103-106 | counting from question i stops at the first missing question text, and every earlier text is present |
| QuizRoutes.QuestionCount | source/Quiz.cpp:103-106 | the number of questions is the first index without a question text |
| QuizRoutes.Questions | source/Quiz.cpp:103-119 | the first n questions are read exactly when each of them can be read, and element j is question j |
| QuizRoutes.OptionsOf | source/Quiz.cpp:114-117 | a question's options are read exactly when all four option fields are present, and then there are exactly four |
| QuizRoutes.ReadOptions | source/Quiz.cpp:114-117 | the inner loop reads the four options, failing exactly when one is missing |
| QuizRoutes.ReadQuestions | source/Quiz.cpp:103-119 | the outer loop reads every question up to the first missing text, failing exactly when one of them cannot be read |
| QuizRoutes.CreatedIff | source/Quiz.cpp:82-123 | a quiz is created exactly for a teacher's form with a title, a classroom id, a positive time limit and at least one fully readable question |
| QuizRoutes.CreateQuizPost | source/Quiz.cpp:80-142 | the answer follows the checks in order; a quiz is created exactly when they pass; the classroom lists it and both files are saved only when the classroom exists |
| QuizRoutes.Publish | source/Quiz.cpp:125-140 | the quiz is created before the classroom lookup; a found classroom lists the id and both files are saved, otherwise 500 with the quiz unsaved |
| QuizRoutes.ListQuiz | source/Quiz.cpp:127-130 | the found classroom is replaced by one whose quiz list ends with the new id |
| QuizRoutes.CreatedIsListed | source/Quiz.cpp:125-133 | after creation the quiz is found by its id, and its classroom lists the id last |

## Left out

- File I/O: each JSON file is a `seq<Json>` field of its table. Reading a
  file is a constructor parameter, and writing one replaces the field.
  JSON text, file streams and unreadable files are not modelled.
- Random numbers: the six draws of `uniform_int_distribution<>(0, 35)`
  over a freshly seeded `mt19937` that make an id are a parameter
  `draws`.
- The clock: the current time is a parameter `now` of the submit route.
- Floating point: `timeTakenSeconds` is a `double` in the source and an
  `int` of whole seconds here. The source converts a `long long`
  difference to `double`. That conversion is exact while the difference
  is at most 2^53 in size. Above that it rounds, and the model does not
  follow the rounding.
- Attempts.SubmitQuiz: the elapsed time `endTime - startTime` is a
  `long long` subtraction in the source. The client chooses `startTime`,
  and a value near -2^63 overflows it, which is undefined behaviour. The
  model stores the exact, unbounded difference.
- Ranking.RowOf: the leaderboard converts the stored time with
  `static_cast<int>`. That is undefined once the time leaves the int
  range, for example beyond 2^31 - 1 seconds after `startTime=-1000000000`.
  The model formats the unbounded time, so `Ranking.FormatTime` follows
  the source only for times within the int range.
- Crow: request parsing, sessions, cookies, middleware, status-code
  plumbing and mustache rendering are not modelled. A handler receives
  the session's strings and the decoded form map, and a rendered page is
  `Page(template)`.
- GET routes that only render pages (dashboards, forms, `attempt_quiz`)
  are not modelled.
- Attempts.Leaderboard: the page context fields besides the rows (quiz
  title, question count, the "already attempted" message) are not stated.
- Fnv.Hash: the multiplication by the FNV prime is written as the sum of
  shifts by the prime's set bits. That this equals the product is proved
  only for the published test vectors of `Fnv.TestVectors`, not for all
  inputs.
- Forms.UrlDecode: sometimes the one or two characters after a '%' hold
  no hex number for `sscanf` to read. Examples are a '%' that ends the
  text, one before "zz", and one before a lone space or sign. Then the
  decoding is `None`, and a piece that does not decode carries no answer.
  In that case the source appends the byte of `ii` as it stands. After an
  earlier escape in the same text, that is the earlier escape's value:
  "%41%zz" gives "AA". With no earlier escape, `ii` is uninitialised,
  which is undefined behaviour. The model does not follow the repeated
  byte. Escapes with leading white space or a sign are modelled
  (`Forms.ScanHex`).
- Fnv.Hash: a `char` stands for one byte of a `std::string`, and the hash
  takes the character's low eight bits (`Fnv.Byte`). Text must already be
  split into bytes: a multi-byte UTF-8 character is several `char`s here,
  and a character at or above 256 is cut to its low byte.
- Pointers, `new`/`delete` and the destructors' memory release are not
  modelled. Write-through a pointer `findX` returned is modelled as
  replacing the first record with that key in its chain.
- `saveClassroomsToFile`, called by the quiz creation route, is not
  defined in `include/Classroom.hpp`. It is modelled as the destructor's
  save traversal (`Classrooms.ClassroomTable.Save`).
- The loop counters and the score are C++ `int`. Overflow past 2^31
  questions is not modelled.
- Exceptions that escape a handler, such as a `std::string` built from the
  null pointer of a missing form field or a failed `std::stoi`, are the
  single `Crash` response. Crow answers those with 500.
- The loaders' failure on a malformed file entry is a precondition on the
  constructors: every entry converts. That failure is an exception for a
  record field of the wrong type. For a missing `name`, `username`,
  `email` or `password` key it is undefined behaviour of the const
  `operator[]`.
- Concurrency: Crow may run handlers on several threads. The source does
  not lock the tables, and the model runs one handler at a time.

## Findings

| source | as written | input that shows it | evidently intended | confidence | as-written member | corrected member |
|---|---|---|---|---|---|---|
| source/Classroom.cpp:59-60 | `addClassroom` already appends the new code to the teacher's `classroomIds` (include/Classroom.hpp:132); the handler then appends it again through the same pointer | any teacher session posting a class name and subject: a teacher with no classrooms ends with `[code, code]` | the code listed once on the teacher's record | not executed | ClassroomRoutes.CreateClassroom, ClassroomRoutes.CodeListedTwice | ClassroomRoutes.CreateClassroomOnce, ClassroomRoutes.CodeListedOnce |
