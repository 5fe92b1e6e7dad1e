/** The read handlers of the student controller: each is a filter over the
    inner join of `Users` and `student` on `user_id`. Column projections are
    not modelled; a result row is the joined pair of rows. SQL gives the rows
    of a result in no particular order, so the contracts state which rows are
    in a result and how many times each is listed (its multiset), not their
    order. */
module StudentQueries {
  import opened JsValue
  import opened Tables

  datatype Joined = Joined(user: UserRow, seat: StudentRow)

  /** `ON u.user_id = s.user_id`: a seat with a NULL user id joins nobody. */
  predicate Joins(u: UserRow, s: StudentRow) {
    SqlEq(s.userId, IdValue(u.id))
  }

  /** `j` is a row of `Users u INNER JOIN student s ON u.user_id = s.user_id`. */
  predicate InJoin(db: Db, j: Joined) {
    j.user in db.users && j.seat in db.students && Joins(j.user, j.seat)
  }

  /** How many times the join of `users` and `students` lists `j`: an inner
      join pairs every copy of the user row with every copy of the seat row. */
  function Pairings(users: seq<UserRow>, students: seq<StudentRow>, j: Joined): nat {
    if Joins(j.user, j.seat) then multiset(users)[j.user] * multiset(students)[j.seat] else 0
  }

  predicate HasStudentRole(j: Joined) {
    SqlEq(j.user.role, StudentRole)
  }

  /** The joined rows of one user. */
  function JoinUser(u: UserRow, students: seq<StudentRow>): (r: seq<Joined>)
    ensures forall j :: j in r <==> j.user == u && j.seat in students && Joins(u, j.seat)
    ensures forall j :: multiset(r)[j] == if j.user == u && Joins(u, j.seat) then multiset(students)[j.seat] else 0
  {
    if students == [] then []
    else
      assert students == [students[0]] + students[1..];
      (if Joins(u, students[0]) then [Joined(u, students[0])] else []) + JoinUser(u, students[1..])
  }

  /** `Users u INNER JOIN student s ON u.user_id = s.user_id`. */
  function Join(users: seq<UserRow>, students: seq<StudentRow>): (r: seq<Joined>)
    ensures forall j :: j in r <==> j.user in users && j.seat in students && Joins(j.user, j.seat)
    ensures forall j :: multiset(r)[j] == Pairings(users, students, j)
  {
    if users == [] then []
    else
      var here, rest := JoinUser(users[0], students), Join(users[1..], students);
      assert users == [users[0]] + users[1..];
      PairingsStep(users[0], users[1..], students, here, rest);
      here + rest
  }

  /** The pairings of `[u] + rest` are those of `u` and those of `rest`. */
  lemma PairingsStep(u: UserRow, rest: seq<UserRow>, students: seq<StudentRow>, here: seq<Joined>, others: seq<Joined>)
    requires forall j :: multiset(here)[j] == if j.user == u && Joins(u, j.seat) then multiset(students)[j.seat] else 0
    requires forall j :: multiset(others)[j] == Pairings(rest, students, j)
    ensures forall j :: multiset(here + others)[j] == Pairings([u] + rest, students, j)
  {
    forall j ensures multiset(here + others)[j] == Pairings([u] + rest, students, j) {
      var m, c := multiset(students)[j.seat], multiset(rest)[j.user];
      assert multiset(here + others)[j] == multiset(here)[j] + multiset(others)[j];
      if Joins(j.user, j.seat) && j.user == u {
        assert multiset([u] + rest)[j.user] == 1 + c;
        OneMoreCopy(c, m);
      } else if Joins(j.user, j.seat) {
        assert multiset([u] + rest)[j.user] == c;
      }
    }
  }

  lemma OneMoreCopy(c: nat, m: nat)
    ensures (1 + c) * m == m + c * m
  {
  }

  /** A `WHERE` clause over joined rows. */
  function Where(rows: seq<Joined>, keep: Joined -> bool): (r: seq<Joined>)
    ensures forall j :: j in r <==> j in rows && keep(j)
    ensures forall j :: multiset(r)[j] == if keep(j) then multiset(rows)[j] else 0
  {
    if rows == [] then []
    else
      assert rows == [rows[0]] + rows[1..];
      (if keep(rows[0]) then [rows[0]] else []) + Where(rows[1..], keep)
  }

  /** `getAllStudent`: every joined row of a user whose role is 'Student'. */
  function GetAllStudent(db: Db): (r: seq<Joined>)
    ensures forall j :: j in r <==> InJoin(db, j) && HasStudentRole(j)
    ensures forall j :: multiset(r)[j] == if HasStudentRole(j) then Pairings(db.users, db.students, j) else 0
  {
    Where(Join(db.users, db.students), HasStudentRole)
  }

  /** `getStudentByStd`: students whose `class_std` is the route parameter,
      taken as text (`String(req.params.id)`). */
  function GetStudentByStd(db: Db, std: string): (r: seq<Joined>)
    ensures forall j :: j in r <==> InJoin(db, j) && HasStudentRole(j) && SqlEq(j.seat.classStd, Str(std))
    ensures forall j :: multiset(r)[j] ==
                         if HasStudentRole(j) && SqlEq(j.seat.classStd, Str(std)) then Pairings(db.users, db.students, j) else 0
  {
    Where(Join(db.users, db.students), (j: Joined) => HasStudentRole(j) && SqlEq(j.seat.classStd, Str(std)))
  }

  /** `getAllocatedStudent`: joined rows with no division yet (`s.div IS NULL`).
      Unlike its neighbours, this query has no role filter. */
  function GetAllocatedStudent(db: Db): (r: seq<Joined>)
    ensures forall j :: j in r <==> InJoin(db, j) && IsNull(j.seat.div)
    ensures forall j :: multiset(r)[j] == if IsNull(j.seat.div) then Pairings(db.users, db.students, j) else 0
  {
    Where(Join(db.users, db.students), (j: Joined) => IsNull(j.seat.div))
  }

  /** `getStudentById`: the joined rows of the student with identity `id`. */
  function GetStudentById(db: Db, id: int): (r: seq<Joined>)
    ensures forall j :: j in r <==> InJoin(db, j) && HasStudentRole(j) && j.user.id == id
    ensures forall j :: multiset(r)[j] == if HasStudentRole(j) && j.user.id == id then Pairings(db.users, db.students, j) else 0
  {
    Where(Join(db.users, db.students), (j: Joined) => HasStudentRole(j) && j.user.id == id)
  }

  /** `getStudentByDiv`: students whose `div` is the route parameter. */
  function GetStudentByDiv(db: Db, div: string): (r: seq<Joined>)
    ensures forall j :: j in r <==> InJoin(db, j) && HasStudentRole(j) && SqlEq(j.seat.div, Str(div))
    ensures forall j :: multiset(r)[j] ==
                         if HasStudentRole(j) && SqlEq(j.seat.div, Str(div)) then Pairings(db.users, db.students, j) else 0
  {
    Where(Join(db.users, db.students), (j: Joined) => HasStudentRole(j) && SqlEq(j.seat.div, Str(div)))
  }

  /** The unallocated list also shows users of other roles (a teacher, say)
      that happen to hold a seat with no division. */
  lemma UnallocatedListIgnoresRole(db: Db, u: UserRow, s: StudentRow)
    requires u in db.users && s in db.students && Joins(u, s)
    requires IsNull(s.div) && !HasStudentRole(Joined(u, s))
    ensures Joined(u, s) in GetAllocatedStudent(db)
    ensures Joined(u, s) !in GetAllStudent(db)
  {
  }

  /** A student whose id is on a seat is listed with that seat by
      `getAllStudent` and by `getStudentById`. */
  lemma SeatedStudentIsListed(db: Db, k: nat, i: nat)
    requires k < |db.users| && i < |db.students|
    requires db.students[i].userId == IdValue(db.users[k].id) && SqlEq(db.users[k].role, StudentRole)
    ensures Joined(db.users[k], db.students[i]) in GetAllStudent(db)
    ensures Joined(db.users[k], db.students[i]) in GetStudentById(db, db.users[k].id)
  {
    var j := Joined(db.users[k], db.students[i]);
    assert InJoin(db, j) && HasStudentRole(j);
  }

  /** The per-standard and per-division lists are the full list cut down. */
  lemma FilteredListsAreSublists(db: Db, std: string, div: string, j: Joined)
    ensures j in GetStudentByStd(db, std) ==> j in GetAllStudent(db)
    ensures j in GetStudentByDiv(db, div) ==> j in GetAllStudent(db)
    ensures j in GetAllStudent(db) && IsNull(j.seat.div) ==> j in GetAllocatedStudent(db)
  {
  }
}
