/** The write handlers of the student controller. Each handler is given as a
    transition function from the tables before the request to the tables
    after it and the response (`Register`, `Allocate`, `UpdatePlacement`,
    `BulkAssign`); the class `StudentStore` holds the tables and runs each
    handler step by step, statement after statement, and its methods are
    proved to follow those functions. The lemmas state what the handlers
    promise. */
module StudentController {
  import opened JsValue
  import opened Tables
  import opened StudentQueries

  /** The errors a handler reports: `BadRequest` is an `ApiError` with status
      400; `StoreFailure` is an exception from the store, which the error
      handler reports with status 500. */
  datatype ApiError = BadRequest(message: string) | StoreFailure

  /** The `data` of a successful response. */
  datatype Body =
    | Registered(id: int, email: Value)                 // { id: userId, email }
    | Allocated(userRef: Value, stdId: Value, divId: Value)  // { id: userId, stdId, divId }
    | Updated(userId: Value, stdId: Value, divId: Value)
    | NoData                                            // response.recordset of an UPDATE

  datatype Response = Ok(status: int, body: Body) | Err(error: ApiError)

  /** The tables after a request, and the response sent. */
  datatype Outcome = Outcome(db: Db, response: Response)

  const MissingFields := "Please provide all the required fields"
  const EmailInUse := "Email already in use"
  const BulkInputMissing := "Invalid input. Provide studentIds, class_std, and div."
  const BulkIdsInvalid := "Invalid student IDs provided. Ensure all IDs are integers."

  /** The HTTP status of a response. */
  function Status(r: Response): int {
    match r
    case Ok(status, _) => status
    case Err(BadRequest(_)) => 400
    case Err(StoreFailure) => 500
  }

  /** The body of a `createStudent` request. */
  datatype StudentForm = StudentForm(
    fname: Value, mname: Value, lname: Value, address: Value, gender: Value,
    dob: Value, email: Value, rollNo: Value, phone: Value, classStd: Value)

  /** The ten fields `fname` … `class_std` are all truthy. */
  predicate AllFieldsPresent(f: StudentForm) {
    Truthy(f.fname) && Truthy(f.mname) && Truthy(f.lname) && Truthy(f.address) && Truthy(f.gender)
    && Truthy(f.dob) && Truthy(f.email) && Truthy(f.rollNo) && Truthy(f.phone) && Truthy(f.classStd)
  }

  /** The `Users` row `createStudent` inserts: role 'Student', password the date of birth. */
  function NewUser(id: int, f: StudentForm): UserRow {
    UserRow(id, f.fname, f.mname, f.lname, f.address, f.gender, f.dob, f.email, f.phone, StudentRole, f.dob)
  }

  /** `createStudent` as written: validate, check the email, insert the user,
      attach the new id to every seat with the roll number, and insert a seat
      when no row was affected. */
  function Register(db: Db, f: StudentForm): Outcome {
    if !AllFieldsPresent(f) then Outcome(db, Err(BadRequest(MissingFields)))
    else if CountMatches(Emails(db.users), f.email) > 0 then Outcome(db, Err(BadRequest(EmailInUse)))
    else
      var id := db.nextId;
      var users := db.users + [NewUser(id, f)];
      var rowsAffected := CountMatches(RollNumbers(db.students), f.rollNo);
      var updated := SetUserWhereRoll(db.students, f.rollNo, IdValue(id), f.classStd);
      var students := if rowsAffected == 0 then updated + [StudentRow(IdValue(id), f.rollNo, f.classStd, Null)] else updated;
      Outcome(Db(users, students, id + 1), Ok(201, Registered(id, f.email)))
  }

  /** `allocateStudentDiv`: an unconditional insert; `roll_no` is left NULL. */
  function Allocate(db: Db, userId: Value, stdId: Value, divId: Value): Outcome {
    var row := StudentRow(Bind(userId), Null, Bind(stdId), Bind(divId));
    Outcome(db.(students := db.students + [row]), Ok(201, Allocated(userId, stdId, divId)))
  }

  /** `updateStudent`: set `div` and `class_std` on the rows of one user. */
  function UpdatePlacement(db: Db, userId: Value, stdId: Value, divId: Value): Outcome {
    var students := SetPlacementWhereUser(db.students, Bind(userId), Bind(stdId), Bind(divId));
    Outcome(db.(students := students), Ok(200, Updated(userId, stdId, divId)))
  }

  /** `assignMultipleStudentsDivStd`. An empty id array passes validation and
      yields the statement `... WHERE user_id IN ()`, which the store rejects. */
  function BulkAssign(db: Db, studentIds: Value, classStd: Value, div: Value): Outcome {
    if !Truthy(studentIds) || !Truthy(classStd) || !Truthy(div) then Outcome(db, Err(BadRequest(BulkInputMissing)))
    else if !IsIntegerArray(studentIds) then Outcome(db, Err(BadRequest(BulkIdsInvalid)))
    else if studentIds.elems == [] then Outcome(db, Err(StoreFailure))
    else
      var students := SetPlacementWhereUserIn(db.students, studentIds.elems, classStd, div);
      Outcome(db.(students := students), Ok(200, NoData))
  }

  /** The tables and the identity counter, updated in place by the handlers. */
  class StudentStore {
    var users: seq<UserRow>
    var students: seq<StudentRow>
    var nextId: int

    /** Identities below the counter, emails unique, one seat per roll number. */
    ghost predicate Valid()
      reads this
    {
      IdsBelow(users, nextId) && EmailsUnique(users) && RollNumbersUnique(students)
    }

    function State(): Db
      reads this
    {
      Db(users, students, nextId)
    }

    constructor (db: Db)
      requires IdsBelow(db.users, db.nextId) && EmailsUnique(db.users) && RollNumbersUnique(db.students)
      ensures Valid() && State() == db
    {
      users, students, nextId := db.users, db.students, db.nextId;
    }

    method CreateStudent(f: StudentForm) returns (r: Response)
      requires Valid()
      modifies this
      ensures Valid()
      ensures Outcome(State(), r) == Register(old(State()), f)
    {
      if !AllFieldsPresent(f) {
        return Err(BadRequest(MissingFields));
      }
      var existing := CountMatches(Emails(users), f.email);
      if existing > 0 {
        return Err(BadRequest(EmailInUse));
      }
      var id := nextId;
      ghost var emails := Emails(users);
      users := users + [NewUser(id, f)];
      assert Emails(users) == emails + [f.email];
      DistinctAppend(emails, f.email);
      nextId := nextId + 1;
      var rowsAffected := CountMatches(RollNumbers(students), f.rollNo);
      SetUserWhereRollKeepsRollNumbers(students, f.rollNo, IdValue(id), f.classStd);
      students := SetUserWhereRoll(students, f.rollNo, IdValue(id), f.classStd);
      if rowsAffected == 0 {
        var seat := StudentRow(IdValue(id), f.rollNo, f.classStd, Null);
        RollNumbersAppend(students, seat);
        DistinctAppend(RollNumbers(students), f.rollNo);
        students := students + [seat];
      }
      r := Ok(201, Registered(id, f.email));
    }

    method AllocateStudentDiv(userId: Value, stdId: Value, divId: Value) returns (r: Response)
      requires Valid()
      modifies this
      ensures Valid()
      ensures Outcome(State(), r) == Allocate(old(State()), userId, stdId, divId)
    {
      students := students + [StudentRow(Bind(userId), Null, Bind(stdId), Bind(divId))];
      r := Ok(201, Allocated(userId, stdId, divId));
    }

    method UpdateStudent(userId: Value, stdId: Value, divId: Value) returns (r: Response)
      requires Valid()
      modifies this
      ensures Valid()
      ensures Outcome(State(), r) == UpdatePlacement(old(State()), userId, stdId, divId)
    {
      SetPlacementWhereUserKeepsKeys(students, Bind(userId), Bind(stdId), Bind(divId));
      SameKeysTransfer(students, SetPlacementWhereUser(students, Bind(userId), Bind(stdId), Bind(divId)));
      students := SetPlacementWhereUser(students, Bind(userId), Bind(stdId), Bind(divId));
      r := Ok(200, Updated(userId, stdId, divId));
    }

    method AssignMultipleStudentsDivStd(studentIds: Value, classStd: Value, div: Value) returns (r: Response)
      requires Valid()
      modifies this
      ensures Valid()
      ensures Outcome(State(), r) == BulkAssign(old(State()), studentIds, classStd, div)
    {
      if !Truthy(studentIds) || !Truthy(classStd) || !Truthy(div) {
        return Err(BadRequest(BulkInputMissing));
      }
      if !IsIntegerArray(studentIds) {
        return Err(BadRequest(BulkIdsInvalid));
      }
      if studentIds.elems == [] {
        return Err(StoreFailure);
      }
      SetPlacementWhereUserInKeepsKeys(students, studentIds.elems, classStd, div);
      SameKeysTransfer(students, SetPlacementWhereUserIn(students, studentIds.elems, classStd, div));
      students := SetPlacementWhereUserIn(students, studentIds.elems, classStd, div);
      r := Ok(200, NoData);
    }
  }

  // ---------------------------------------------------------------------------
  // createStudent

  /** A missing or empty field fails with 400 before the store is touched. */
  lemma RegisterRejectsMissingField(db: Db, f: StudentForm)
    ensures !AllFieldsPresent(f) <==> Register(db, f).response == Err(BadRequest(MissingFields))
    ensures !AllFieldsPresent(f) ==> Register(db, f).db == db && Status(Register(db, f).response) == 400
  {
  }

  /** An email some user already has fails with 400 and creates no row. */
  lemma {:induction false} RegisterRejectsTakenEmail(db: Db, f: StudentForm, i: nat)
    requires AllFieldsPresent(f) && i < |db.users| && SqlEq(db.users[i].email, f.email)
    ensures Register(db, f) == Outcome(db, Err(BadRequest(EmailInUse)))
    ensures Status(Register(db, f).response) == 400
  {
  }

  /** The complete success condition: every field present and the email new. */
  lemma RegisterSucceedsIff(db: Db, f: StudentForm)
    ensures Register(db, f).response.Ok? <==>
      AllFieldsPresent(f) && forall i :: 0 <= i < |db.users| ==> !SqlEq(db.users[i].email, f.email)
    ensures Register(db, f).response.Err? ==> Register(db, f).db == db
  {
  }

  /** On success exactly one user is added: the next identity, role 'Student',
      password the date of birth, the given email; the response carries both. */
  lemma RegisterAddsOneUser(db: Db, f: StudentForm)
    requires Register(db, f).response.Ok?
    ensures var o := Register(db, f);
      && |o.db.users| == |db.users| + 1
      && o.db.users[..|db.users|] == db.users
      && var u := o.db.users[|db.users|];
      && u.id == db.nextId && u.role == StudentRole && u.password == f.dob && u.email == f.email
      && u.fname == f.fname && u.mname == f.mname && u.lname == f.lname && u.address == f.address
      && u.gender == f.gender && u.dob == f.dob && u.phone == f.phone
      && o.db.nextId == db.nextId + 1
      && o.response == Ok(201, Registered(db.nextId, f.email))
  {
  }

  /** The identity issued is fresh, and the counter stays ahead of every id. */
  lemma RegisterIssuesFreshId(db: Db, f: StudentForm)
    requires IdsBelow(db.users, db.nextId)
    ensures IdsBelow(Register(db, f).db.users, Register(db, f).db.nextId)
    ensures Register(db, f).response.Ok? ==> forall i :: 0 <= i < |db.users| ==> db.users[i].id != db.nextId
  {
  }

  /** Registration keeps emails unique. */
  lemma RegisterKeepsEmailsUnique(db: Db, f: StudentForm)
    requires EmailsUnique(db.users)
    ensures EmailsUnique(Register(db, f).db.users)
  {
    var o := Register(db, f);
    if o.response.Ok? {
      var u := NewUser(db.nextId, f);
      assert o.db.users == db.users + [u];
      assert Emails(o.db.users) == Emails(db.users) + [f.email];
      DistinctAppend(Emails(db.users), f.email);
    }
  }

  /** When seats with the roll number exist, each gets the new id and the
      class; the table keeps its size and every other row. */
  lemma RegisterClaimsReservedSeats(db: Db, f: StudentForm)
    requires Register(db, f).response.Ok? && CountMatches(RollNumbers(db.students), f.rollNo) > 0
    ensures var s := Register(db, f).db.students;
      && |s| == |db.students|
      && (forall i :: 0 <= i < |s| && SqlEq(db.students[i].rollNo, f.rollNo) ==>
            s[i] == db.students[i].(userId := IdValue(db.nextId), classStd := f.classStd))
      && (forall i :: 0 <= i < |s| && !SqlEq(db.students[i].rollNo, f.rollNo) ==> s[i] == db.students[i])
  {
  }

  /** When no seat has the roll number, exactly one seat is appended, with no division. */
  lemma RegisterAppendsSeat(db: Db, f: StudentForm)
    requires Register(db, f).response.Ok?
    requires forall i :: 0 <= i < |db.students| ==> !SqlEq(db.students[i].rollNo, f.rollNo)
    ensures Register(db, f).db.students == db.students + [StudentRow(IdValue(db.nextId), f.rollNo, f.classStd, Null)]
  {
  }

  /** Either way the new student ends up on the roster under the roll number. */
  lemma {:induction false} RegisterSeatsStudent(db: Db, f: StudentForm)
    requires Register(db, f).response.Ok?
    ensures var s := Register(db, f).db.students;
      exists i :: 0 <= i < |s| && SqlEq(s[i].rollNo, f.rollNo) && s[i].userId == IdValue(db.nextId)
  {
    var s := Register(db, f).db.students;
    if CountMatches(RollNumbers(db.students), f.rollNo) == 0 {
      var k := |s| - 1;
      assert SqlEq(s[k].rollNo, f.rollNo) && s[k].userId == IdValue(db.nextId);
    } else {
      var k :| 0 <= k < |db.students| && SqlEq(RollNumbers(db.students)[k], f.rollNo);
      assert SqlEq(s[k].rollNo, f.rollNo) && s[k].userId == IdValue(db.nextId);
    }
  }

  /** With at most one seat per roll number before, there is still at most
      one after, and exactly one for the roll number just registered. */
  lemma {:induction false} RegisterKeepsRollNumbersUnique(db: Db, f: StudentForm)
    requires RollNumbersUnique(db.students)
    ensures RollNumbersUnique(Register(db, f).db.students)
    ensures Register(db, f).response.Ok? ==> CountMatches(RollNumbers(Register(db, f).db.students), f.rollNo) == 1
  {
    var o := Register(db, f);
    if o.response.Ok? {
      var id := db.nextId;
      var updated := SetUserWhereRoll(db.students, f.rollNo, IdValue(id), f.classStd);
      SetUserWhereRollKeepsRollNumbers(db.students, f.rollNo, IdValue(id), f.classStd);
      var column := RollNumbers(updated);
      assert column == RollNumbers(db.students);
      DistinctCountAtMostOne(column, f.rollNo);
      if CountMatches(column, f.rollNo) == 0 {
        var row := StudentRow(IdValue(id), f.rollNo, f.classStd, Null);
        assert o.db.students == updated + [row];
        RollNumbersAppend(updated, row);
        DistinctAppend(column, f.rollNo);
        CountMatchesAppend(column, f.rollNo, f.rollNo);
      } else {
        assert o.db.students == updated;
      }
    }
  }

  /** Registration keeps all three table invariants. */
  lemma RegisterKeepsInvariants(db: Db, f: StudentForm)
    requires IdsBelow(db.users, db.nextId) && EmailsUnique(db.users) && RollNumbersUnique(db.students)
    ensures var o := Register(db, f);
      IdsBelow(o.db.users, o.db.nextId) && EmailsUnique(o.db.users) && RollNumbersUnique(o.db.students)
  {
    RegisterIssuesFreshId(db, f);
    RegisterKeepsEmailsUnique(db, f);
    RegisterKeepsRollNumbersUnique(db, f);
  }

  /** A second registration with the same email is refused. */
  lemma {:induction false} ReRegisteringSameEmailFails(db: Db, f: StudentForm, g: StudentForm)
    requires Register(db, f).response.Ok?
    requires AllFieldsPresent(g) && SqlEq(g.email, f.email)
    ensures Register(Register(db, f).db, g) == Outcome(Register(db, f).db, Err(BadRequest(EmailInUse)))
  {
    var users := Register(db, f).db.users;
    assert Emails(users)[|users| - 1] == f.email;
    SqlEqEquivalence(g.email, f.email, g.email);
  }

  /** A registered student is listed by `getAllStudent` and `getStudentById`. */
  lemma {:induction false} RegisteredStudentIsListed(db: Db, f: StudentForm)
    requires Register(db, f).response.Ok?
    ensures exists j :: j in GetAllStudent(Register(db, f).db) && j.user.id == db.nextId && SqlEq(j.seat.rollNo, f.rollNo)
    ensures exists j :: j in GetStudentById(Register(db, f).db, db.nextId)
  {
    var o := Register(db, f);
    assert o.db.users[|db.users|] == NewUser(db.nextId, f);
    RegisterSeatsStudent(db, f);
    var i :| 0 <= i < |o.db.students| && SqlEq(o.db.students[i].rollNo, f.rollNo) && o.db.students[i].userId == IdValue(db.nextId);
    SeatedStudentIsListed(o.db, |db.users|, i);
  }

  // ---------------------------------------------------------------------------
  // allocateStudentDiv, updateStudent

  /** `allocateStudentDiv` always adds exactly one row, even for a user who
      already has one, and changes nothing else. */
  lemma AllocateAlwaysAppends(db: Db, userId: Value, stdId: Value, divId: Value)
    ensures var o := Allocate(db, userId, stdId, divId);
      && o.db.users == db.users && o.db.nextId == db.nextId
      && |o.db.students| == |db.students| + 1
      && o.db.students[..|db.students|] == db.students
      && o.db.students[|db.students|] == StudentRow(Bind(userId), Null, Bind(stdId), Bind(divId))
  {
  }

  /** So allocating a user who is already seated gives that user two seats. */
  lemma {:induction false} AllocateCanDuplicateSeat(db: Db, id: int, stdId: Value, divId: Value)
    requires Seated(db.students, id)
    ensures var s := Allocate(db, IdValue(id), stdId, divId).db.students;
      exists i, j :: 0 <= i < j < |s| && s[i].userId == IdValue(id) && s[j].userId == IdValue(id)
  {
    var s := Allocate(db, IdValue(id), stdId, divId).db.students;
    var i :| 0 <= i < |db.students| && db.students[i].userId == IdValue(id);
    assert s[i].userId == IdValue(id) && s[|db.students|].userId == IdValue(id);
  }

  /** Every allocation inserts, and the join lists a user once per seat:
      allocating a student with no seat twice lists that student twice. */
  lemma {:induction false} AllocatingTwiceListsTwice(db: Db, u: UserRow, stdId: Value, divId: Value)
    requires multiset(db.users)[u] == 1 && SqlEq(u.role, StudentRole) && !Seated(db.students, u.id)
    ensures var once := Allocate(db, IdValue(u.id), stdId, divId).db;
      var twice := Allocate(once, IdValue(u.id), stdId, divId).db;
      multiset(GetAllStudent(twice))[Joined(u, StudentRow(IdValue(u.id), Null, Bind(stdId), Bind(divId)))] == 2
  {
    var id := IdValue(u.id);
    var row := StudentRow(id, Null, Bind(stdId), Bind(divId));
    var twice := Allocate(Allocate(db, id, stdId, divId).db, id, stdId, divId).db;
    assert twice.users == db.users && twice.students == db.students + [row, row];
    assert forall i :: 0 <= i < |db.students| ==> db.students[i] != row;
    assert multiset(twice.students)[row] == multiset(db.students)[row] + 2;
    var j := Joined(u, row);
    assert Joins(u, row) && HasStudentRole(j);
    assert Pairings(twice.users, twice.students, j) == 2;
  }

  /** `updateStudent` changes exactly the rows of that user, and only their
      class and division. */
  lemma UpdateTouchesOnlyThatUser(db: Db, userId: Value, stdId: Value, divId: Value)
    ensures var o := UpdatePlacement(db, userId, stdId, divId);
      && o.db.users == db.users && o.db.nextId == db.nextId
      && |o.db.students| == |db.students|
      && (forall i :: 0 <= i < |db.students| && SqlEq(db.students[i].userId, Bind(userId)) ==>
            o.db.students[i] == db.students[i].(classStd := Bind(stdId), div := Bind(divId)))
      && (forall i :: 0 <= i < |db.students| && !SqlEq(db.students[i].userId, Bind(userId)) ==>
            o.db.students[i] == db.students[i])
  {
  }

  /** An `updateStudent` without a user id matches no row (`user_id = NULL`). */
  lemma UpdateWithoutUserChangesNothing(db: Db, stdId: Value, divId: Value)
    ensures UpdatePlacement(db, Undefined, stdId, divId).db == db
    ensures Status(UpdatePlacement(db, Undefined, stdId, divId).response) == 200
  {
  }

  // ---------------------------------------------------------------------------
  // assignMultipleStudentsDivStd

  /** The request is refused with 400 exactly when an input is falsy, the ids
      are not an array, or some id is not an integer; a refusal changes nothing. */
  lemma BulkAssignRejectsIff(db: Db, studentIds: Value, classStd: Value, div: Value)
    ensures var o := BulkAssign(db, studentIds, classStd, div);
      && (o.response.Err? && o.response.error.BadRequest? <==>
           !Truthy(studentIds) || !Truthy(classStd) || !Truthy(div) || !IsIntegerArray(studentIds))
      && (o.response.Err? ==> o.db == db)
  {
  }

  /** The empty array is not refused by validation: `![]` is false and
      `[].every(...)` is true. The store then fails on `IN ()`. */
  lemma BulkAssignEmptyListReachesStore(db: Db, classStd: Value, div: Value)
    requires Truthy(classStd) && Truthy(div)
    ensures BulkAssign(db, Arr([]), classStd, div) == Outcome(db, Err(StoreFailure))
  {
  }

  /** A valid request changes exactly the rows whose user is listed. */
  lemma BulkAssignTouchesExactlyListed(db: Db, ids: seq<Value>, classStd: Value, div: Value)
    requires ids != [] && IsIntegerArray(Arr(ids)) && Truthy(classStd) && Truthy(div)
    ensures var o := BulkAssign(db, Arr(ids), classStd, div);
      && o.response == Ok(200, NoData)
      && o.db.users == db.users && o.db.nextId == db.nextId
      && |o.db.students| == |db.students|
      && (forall i :: 0 <= i < |db.students| && db.students[i].userId in ids ==>
            o.db.students[i] == db.students[i].(classStd := classStd, div := div))
      && (forall i :: 0 <= i < |db.students| && db.students[i].userId !in ids ==>
            o.db.students[i] == db.students[i])
  {
  }

  /** Running the same bulk assignment twice gives the same tables and response. */
  lemma {:induction false} BulkAssignIdempotent(db: Db, studentIds: Value, classStd: Value, div: Value)
    ensures var once := BulkAssign(db, studentIds, classStd, div);
      BulkAssign(once.db, studentIds, classStd, div) == once
  {
  }

  // ---------------------------------------------------------------------------
  // Invariants across every write handler

  /** A write request, as routed to one of the four handlers. */
  datatype Request =
    | CreateStudent(form: StudentForm)
    | AllocateStudentDiv(userId: Value, stdId: Value, divId: Value)
    | UpdateStudent(userId: Value, stdId: Value, divId: Value)
    | AssignMultiple(studentIds: Value, classStd: Value, div: Value)

  function Handle(db: Db, req: Request): Outcome {
    match req
    case CreateStudent(f) => Register(db, f)
    case AllocateStudentDiv(u, s, d) => Allocate(db, u, s, d)
    case UpdateStudent(u, s, d) => UpdatePlacement(db, u, s, d)
    case AssignMultiple(ids, s, d) => BulkAssign(db, ids, s, d)
  }

  /** No handler ever creates a second seat for a roll number, issues a used
      identity or a taken email. */
  lemma {:induction false} EveryHandlerKeepsInvariants(db: Db, req: Request)
    requires IdsBelow(db.users, db.nextId) && EmailsUnique(db.users) && RollNumbersUnique(db.students)
    ensures var o := Handle(db, req);
      IdsBelow(o.db.users, o.db.nextId) && EmailsUnique(o.db.users) && RollNumbersUnique(o.db.students)
  {
    match req
    case CreateStudent(f) =>
      RegisterKeepsInvariants(db, f);
    case AllocateStudentDiv(u, st, d) =>
    case UpdateStudent(u, st, d) =>
      SetPlacementWhereUserKeepsKeys(db.students, Bind(u), Bind(st), Bind(d));
    case AssignMultiple(ids, st, d) =>
      if Truthy(ids) && IsIntegerArray(ids) {
        SetPlacementWhereUserInKeepsKeys(db.students, ids.elems, st, d);
      }
  }

  /** Apart from a registration that claims the seat's roll number, no
      handler takes a seat away from a user. */
  lemma {:induction false} OnlyRegistrationUnseats(db: Db, req: Request, id: int)
    requires Seated(db.students, id) && !req.CreateStudent?
    ensures Seated(Handle(db, req).db.students, id)
  {
    var s := Handle(db, req).db.students;
    match req
    case AllocateStudentDiv(u, st, d) =>
      var i :| 0 <= i < |db.students| && db.students[i].userId == IdValue(id);
      assert s[i] == db.students[i];
    case UpdateStudent(u, st, d) =>
      SameKeysTransfer(db.students, s);
    case AssignMultiple(ids, st, d) =>
      SameKeysTransfer(db.students, s);
  }

  // ---------------------------------------------------------------------------
  // Finding: registering a roll number that is already claimed

  /** Some seat with roll number `rollNo` already belongs to a user. */
  predicate RollClaimed(rows: seq<StudentRow>, rollNo: Value) {
    exists i :: 0 <= i < |rows| && SqlEq(rows[i].rollNo, rollNo) && !IsNull(rows[i].userId)
  }

  /** As written, registering a new student under a roll number whose seat
      already belongs to another user `k` moves the seat to the newcomer: when
      that was `k`'s only seat, `k` keeps the `Users` row but is no longer on
      the roster, so `getAllStudent` and `getStudentById` no longer list `k`. */
  lemma {:induction false} RegisterUnseatsHolderOfRoll(db: Db, f: StudentForm, k: int)
    requires Register(db, f).response.Ok? && k != db.nextId
    requires exists i :: 0 <= i < |db.students| && db.students[i].userId == IdValue(k)
    requires forall i :: 0 <= i < |db.students| && db.students[i].userId == IdValue(k) ==>
      SqlEq(db.students[i].rollNo, f.rollNo)
    ensures Seated(db.students, k)
    ensures Register(db, f).db.users[..|db.users|] == db.users
    ensures !Seated(Register(db, f).db.students, k)
    ensures forall j :: j !in GetStudentById(Register(db, f).db, k)
  {
  }

  /** Registration with the evidently intended guard: a roll number whose seat
      already belongs to a user is refused with 400 before anything is
      written; otherwise it proceeds as `Register`. */
  function RegisterChecked(db: Db, f: StudentForm): Outcome {
    if AllFieldsPresent(f) && CountMatches(Emails(db.users), f.email) == 0 && RollClaimed(db.students, f.rollNo) then
      Outcome(db, Err(BadRequest("Roll number already in use")))
    else Register(db, f)
  }

  /** With the guard, nobody who was seated loses the seat, and the
      registered student is seated too. */
  lemma {:induction false} RegisterCheckedKeepsSeats(db: Db, f: StudentForm, id: int)
    requires Seated(db.students, id)
    ensures Seated(RegisterChecked(db, f).db.students, id)
    ensures RegisterChecked(db, f).response.Ok? ==> Seated(RegisterChecked(db, f).db.students, db.nextId)
  {
    var o := RegisterChecked(db, f);
    if o.response.Ok? {
      var s := o.db.students;
      var i :| 0 <= i < |db.students| && db.students[i].userId == IdValue(id);
      if SqlEq(db.students[i].rollNo, f.rollNo) {
        assert RollClaimed(db.students, f.rollNo);
        assert false;
      }
      assert s[i] == db.students[i];
      RegisterSeatsStudent(db, f);
    }
  }
}
