# Student allocation engine of the school administration backend

This project models the student controller of the school administration
backend: the handlers that register a student and reconcile the new account
with a roster seat reserved by roll number (`createStudent`), insert a
division allocation (`allocateStudentDiv`), change one student's standard and
division (`updateStudent`), reassign many students at once
(`assignMultipleStudentsDivStd`), and the read handlers that list students by
role, standard, division, identity or missing division.

The store is two tables held as sequences of rows: `Users` (an identity
column issued by a counter, names, email, role, password, …) and `student`
(`user_id`, `roll_no`, `class_std`, `div`, where `user_id` and `div` may be
NULL). Every SQL statement a handler runs is a function over the rows
(module `Tables`). SQL `=` is never true when a side is NULL, and it ignores trailing blanks when it compares texts. A statement's
`rowsAffected` is the number of rows its `WHERE` clause matches.

Request fields are JavaScript values from a JSON body (module `JsValue`), so
the truthiness tests (`!field`), `Array.isArray` and `Number.isInteger` are
modelled as JavaScript defines them. This is why an empty `studentIds` array
passes validation.

Module `StudentController` defines one transition function per write handler
(`Register`, `Allocate`, `UpdatePlacement`, `BulkAssign`). Each maps the
tables before the request to the tables after it and the response sent. The
class `StudentStore` keeps the tables and the identity counter as fields. Its
methods run each handler statement by statement: check, insert, update, then
insert again only if no row was affected. Each method is proved to end in the
state and response that its transition function gives. The lemmas state what
the handlers promise: failing requests change nothing, and on success there is
exactly one new user and a seat for the new student. Roll numbers stay unique,
and so do emails and identities. Bulk updates touch exactly the listed ids and
are idempotent. Module `StudentQueries` models the read handlers as filters
over the inner join of the two tables.

## Model

| member | source | states |
|---|---|---|
| `Tables.SqlEqIgnoresTrailingBlanks` | server/src/controllers/student.controller.js:45-53 | the store finds a text equal to the same text with trailing blanks, as SQL Server's padded comparison does, so an email or roll number differing only in trailing blanks counts as taken |
| `Tables.TrimIgnoresAddedBlanks` | server/src/controllers/student.controller.js:45-53 | appending blanks to a text does not change its length without trailing blanks |
| `Tables.SqlEqEquivalence` | server/src/controllers/student.controller.js:45-89 | the store's `=` is symmetric and transitive |
| `Tables.CountMatches` | server/src/controllers/student.controller.js:45-53 | the `COUNT(*)` of an email, and the `rowsAffected` of the update by roll number (lines 86-89), is at most the table size and is zero exactly when no entry equals the value; a NULL entry never matches |
| `Tables.SetUserWhereRoll` | server/src/controllers/student.controller.js:76-86 | every seat whose roll number equals the given one gets the new user id and class; every other seat is unchanged; the table keeps its size |
| `Tables.SetPlacementWhereUser` | server/src/controllers/student.controller.js:127-137 | rows of that user get the new class and division; other rows are unchanged; the table keeps its size |
| `Tables.SetPlacementWhereUserIn` | server/src/controllers/student.controller.js:267-281 | rows whose user id is in the list get the new class and division; other rows are unchanged; the table keeps its size |
| `Tables.SetUserWhereRollKeepsRollNumbers` | server/src/controllers/student.controller.js:76-86 | the update by roll number leaves the roll-number column as it was |
| `Tables.SetPlacementWhereUserKeepsKeys` | server/src/controllers/student.controller.js:127-137 | the update by user id leaves the user-id and roll-number columns as they were |
| `Tables.SetPlacementWhereUserInKeepsKeys` | server/src/controllers/student.controller.js:267-281 | the bulk update leaves the user-id and roll-number columns as they were |
| `Tables.CountMatchesAppend` | server/src/controllers/student.controller.js:88-95 | inserting a seat raises the count for its roll number by one exactly when it matches, and otherwise leaves the count alone |
| `Tables.DistinctAppend` | server/src/controllers/student.controller.js:45-95 | appending a value equal to no entry keeps a column free of duplicates |
| `Tables.DistinctCountAtMostOne` | server/src/controllers/student.controller.js:76-89 | in a column without duplicates (unique roll numbers) the update by roll number affects at most one row |
| `Tables.RollNumbersAppend` | server/src/controllers/student.controller.js:88-95 | inserting a seat appends its roll number to the roll-number column |
| `StudentQueries.JoinUser` | server/src/controllers/student.controller.js:153-155 | the joined rows of one user are exactly its pairs with seats whose `user_id` equals its id, each listed once per copy of the seat |
| `StudentQueries.Join` | server/src/controllers/student.controller.js:153-155 | `Users INNER JOIN student ON user_id` holds exactly the matching pairs, each as many times as the user row times the seat row occur; a seat with NULL `user_id` joins nobody |
| `StudentQueries.GetAllStudent` | server/src/controllers/student.controller.js:148-164 | lists exactly the joined rows whose user has role 'Student', each as many times as the join pairs it |
| `StudentQueries.GetStudentByStd` | server/src/controllers/student.controller.js:167-188 | lists exactly the role-'Student' joined rows whose `class_std` equals the route parameter as text, each as many times as the join pairs it |
| `StudentQueries.GetAllocatedStudent` | server/src/controllers/student.controller.js:190-209 | lists exactly the joined rows whose `div` is NULL, with no role filter, each as many times as the join pairs it (a user with two such seats is listed twice) |
| `StudentQueries.GetStudentById` | server/src/controllers/student.controller.js:211-231 | lists exactly the role-'Student' joined rows of that identity, each as many times as the join pairs it |
| `StudentQueries.GetStudentByDiv` | server/src/controllers/student.controller.js:233-254 | lists exactly the role-'Student' joined rows whose `div` equals the route parameter, each as many times as the join pairs it |
| `StudentQueries.UnallocatedListIgnoresRole` | server/src/controllers/student.controller.js:194-199 | a non-student user holding a seat with NULL division appears in the unallocated list but not in the student list |
| `StudentQueries.Where` | server/src/controllers/student.controller.js:156 | a `WHERE` clause keeps exactly the rows it accepts, each as many times as it occurred |
| `StudentQueries.SeatedStudentIsListed` | server/src/controllers/student.controller.js:148-231 | a student whose id is on a seat is listed with that seat by `getAllStudent` and by `getStudentById` |
| `StudentQueries.FilteredListsAreSublists` | server/src/controllers/student.controller.js:152-241 | the by-standard and by-division lists are parts of the student list; a student with NULL division is in the unallocated list |
| `StudentController.StudentStore.CreateStudent` | server/src/controllers/student.controller.js:15-100 | runs validation, email check, user insert, roll-number update and the conditional seat insert, ending in exactly the state and response of `Register`; keeps every issued id below the counter and emails and roll numbers unique |
| `StudentController.StudentStore.AllocateStudentDiv` | server/src/controllers/student.controller.js:102-122 | appends the seat and answers 201, as `Allocate` gives |
| `StudentController.StudentStore.UpdateStudent` | server/src/controllers/student.controller.js:124-145 | runs the update by user id and answers 200, as `UpdatePlacement` gives |
| `StudentController.StudentStore.AssignMultipleStudentsDivStd` | server/src/controllers/student.controller.js:256-284 | validates, then updates by id list or fails in the store, as `BulkAssign` gives |
| `StudentController.RegisterRejectsMissingField` | server/src/controllers/student.controller.js:29-42 | the request fails with 400 "Please provide all the required fields" exactly when one of the ten fields is falsy, and both tables are unchanged |
| `StudentController.RegisterRejectsTakenEmail` | server/src/controllers/student.controller.js:45-53 | an email that some user already has fails with 400 "Email already in use" and creates no row |
| `StudentController.RegisterSucceedsIff` | server/src/controllers/student.controller.js:29-53 | registration succeeds exactly when all fields are present and the email is new; a failure changes nothing |
| `StudentController.RegisterAddsOneUser` | server/src/controllers/student.controller.js:55-73 | on success exactly one `Users` row is appended: the next id, the given fields, role 'Student', password = `dob`; the response is 201 with that id and email |
| `StudentController.RegisterIssuesFreshId` | server/src/controllers/student.controller.js:56-73 | the new identity differs from every existing one, and the counter stays above all ids |
| `StudentController.RegisterKeepsEmailsUnique` | server/src/controllers/student.controller.js:45-73 | if emails were unique before a registration, they are unique after it |
| `StudentController.RegisterClaimsReservedSeats` | server/src/controllers/student.controller.js:76-86 | if seats with the roll number exist, each gets the new id and class, the table keeps its size, and all other seats are unchanged |
| `StudentController.RegisterAppendsSeat` | server/src/controllers/student.controller.js:86-95 | if no seat has the roll number, exactly one seat (new id, roll number, class, NULL division) is appended |
| `StudentController.RegisterSeatsStudent` | server/src/controllers/student.controller.js:76-95 | in both branches some seat has the roll number and the new id |
| `StudentController.RegisterKeepsRollNumbersUnique` | server/src/controllers/student.controller.js:76-95 | if roll numbers were unique before, they still are, and exactly one seat has the registered roll number |
| `StudentController.RegisterKeepsInvariants` | server/src/controllers/student.controller.js:45-95 | a registration keeps identities below the counter, emails unique and roll numbers unique |
| `StudentController.ReRegisteringSameEmailFails` | server/src/controllers/student.controller.js:45-73 | after a successful registration, another with an email the store finds equal fails with 400 and changes nothing |
| `StudentController.RegisteredStudentIsListed` | server/src/controllers/student.controller.js:76-95 | a newly registered student is listed by `getAllStudent` under its roll number and by `getStudentById` |
| `StudentController.AllocateAlwaysAppends` | server/src/controllers/student.controller.js:105-113 | `allocateStudentDiv` appends exactly one row (user, NULL roll number, standard, division) and changes nothing else |
| `StudentController.AllocateCanDuplicateSeat` | server/src/controllers/student.controller.js:105-113 | allocating a user who already has a seat leaves that user with two seats, because nothing checks for an existing seat |
| `StudentController.AllocatingTwiceListsTwice` | server/src/controllers/student.controller.js:105-113 | allocating a student who has no seat twice, with the same standard and division, makes `getAllStudent` list that student's row twice |
| `StudentController.UpdateTouchesOnlyThatUser` | server/src/controllers/student.controller.js:127-137 | `updateStudent` sets class and division on exactly the rows of that user; the row count and all other rows are unchanged |
| `StudentController.UpdateWithoutUserChangesNothing` | server/src/controllers/student.controller.js:124-145 | without a user id the update matches no row (`user_id = NULL`) and still answers 200 |
| `StudentController.BulkAssignRejectsIff` | server/src/controllers/student.controller.js:259-265 | bulk assignment is refused with 400 exactly when an input is falsy, the ids are not an array, or some id is not an integer; a refusal changes nothing |
| `StudentController.BulkAssignEmptyListReachesStore` | server/src/controllers/student.controller.js:259-281 | an empty id array passes validation, the `IN ()` statement fails in the store, and the tables are unchanged |
| `StudentController.BulkAssignTouchesExactlyListed` | server/src/controllers/student.controller.js:267-283 | a valid bulk assignment updates exactly the rows whose user id is listed, answers 200, and leaves every other row unchanged |
| `StudentController.BulkAssignIdempotent` | server/src/controllers/student.controller.js:267-281 | running the same bulk assignment twice gives the same tables and response as running it once |
| `StudentController.EveryHandlerKeepsInvariants` | server/src/controllers/student.controller.js:15-284 | every write handler keeps identities below the counter, emails unique and roll numbers unique |
| `StudentController.OnlyRegistrationUnseats` | server/src/controllers/student.controller.js:102-284 | allocation, update and bulk assignment never take away a user's seat |
| `StudentController.RegisterUnseatsHolderOfRoll` | server/src/controllers/student.controller.js:76-86 | registering a roll number held by another user `k` moves `k`'s only seat to the newcomer, so no roster query lists `k` |
| `StudentController.RegisterCheckedKeepsSeats` | server/src/controllers/student.controller.js:76-95 | with the corrected guard, every user who had a seat keeps it and the new student is seated |

## Left out

- `executeQuery` and the connection pool are not modelled. Each statement is a function over the tables.
- Store failures are not modelled: connectivity loss, timeouts, and constraint violations of a schema that is not part of this model. The one exception is the `IN ()` syntax error of an empty id list. So the partial state left when `createStudent` fails between its statements (there is no transaction) is not modelled either.
- `asyncHandler`, `ApiResponse`, `ApiError` and `res.send` are not modelled. A response is its status code and its `data`. A store exception is reported as status 500, assuming the default error handler.
- StudentController.BulkAssignRejectsIff: records a 400 failure when an input is missing, but line 260 calls `ApiError(...)` without `new`. The module is an ES module, so it runs in strict mode. Calling a class or a constructor function without `new` there throws a `TypeError`, which the default error handler reports as 500. Only an `ApiError` written as a factory that returns an object would give 400. `ApiError.js` is not part of this model. Either way the request fails before any store access and changes nothing.
- The race between the email check and the user insert is not modelled. The model is sequential.
- SQL type conversions are not modelled. The model compares values by kind and value, so the text "11" does not match the number 11.
- StudentQueries.GetStudentById: takes the route parameter already converted to the integer the store compares it with. A non-numeric parameter, which would make the store fail, is not modelled.
- StudentQueries.GetAllStudent, StudentQueries.GetStudentByStd, StudentQueries.GetAllocatedStudent, StudentQueries.GetStudentById, StudentQueries.GetStudentByDiv: state which joined rows are in the result and how many times each is listed, not their order. SQL does not define an order. Column projections are left out: a result row is the pair of joined rows.
- Tables.SqlEq, Tables.CountMatches, Tables.SetUserWhereRoll, StudentQueries.GetStudentByStd, StudentQueries.GetStudentByDiv: texts compare as SQL Server compares them under a case- and accent-sensitive collation (trailing blanks ignored, everything else exact). The database's collation is not part of the repository. Under the default case-insensitive collation, 'A@x.com' would also match 'a@x.com'; that is not modelled.
- JSON numbers are modelled as finite reals. A JSON literal that overflows to `Infinity` is not modelled. Objects and arrays bound as SQL parameters are stored as given.
- The identity column is a counter that grows by one per user. Identity gaps and 32-bit overflow are not modelled. The model only relies on new identities being fresh.
- `allocateStudentDiv` leaves `roll_no` NULL. If the unseen schema declared that column NOT NULL, the store would refuse the insert.
- The React components, the client routes and `teacher.routes.js` are not modelled. They are UI and routing code.
- The code differs from what a reader might expect in these points:
  - an empty id list is not rejected by validation (it fails in the store);
  - the bulk assignment returns the UPDATE's `recordset`, not an affected-row count;
  - `allocateStudentDiv` only inserts and never updates;
  - the roll-number update claims a seat even when it already has a user (see Findings).

## Findings

| source | as written | input that shows it | evidently intended | confidence | as-written member | corrected member |
|---|---|---|---|---|---|---|
| server/src/controllers/student.controller.js:76-95 | `UPDATE student SET user_id = @UserId … WHERE roll_no = @RollNo` matches a seat whether or not it already has a user, so it hands a registered student's seat to the newcomer | register student A with `roll_no` "101" (a seat is inserted), then student B with another email and `roll_no` "101": the seat now carries B's id, and A is listed by no roster query | attach only a seat with no user; refuse a roll number whose seat already belongs to a user, before writing anything | medium; not executed | `StudentController.RegisterUnseatsHolderOfRoll` | `StudentController.RegisterCheckedKeepsSeats` |

`StudentStore.CreateStudent` follows the code as written. `RegisterChecked` is
the corrected registration: it adds the guard and otherwise proceeds as
`Register`.
