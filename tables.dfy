/** The two tables the student controller works on, `Users` and `student`,
    and the SQL statements it runs against them, each as a function over the
    rows. A statement's `rowsAffected` is the number of rows its `WHERE`
    clause matches. */
module Tables {
  import opened JsValue

  /** A row of `Users`. `id` is the store-generated identity column. */
  datatype UserRow = UserRow(
    id: int,
    fname: Value, mname: Value, lname: Value, address: Value, gender: Value,
    dob: Value, email: Value, phone: Value, role: Value, password: Value)

  /** A row of `student` (a roster entry). `userId` is NULL for a seat
      reserved by roll number before anyone registered for it; `div` is NULL
      until a division is allocated. */
  datatype StudentRow = StudentRow(userId: Value, rollNo: Value, classStd: Value, div: Value)

  /** Both tables and the next value of the `Users` identity column. */
  datatype Db = Db(users: seq<UserRow>, students: seq<StudentRow>, nextId: int)

  const StudentRole: Value := Str("Student")

  predicate IsNull(v: Value) {
    v.Null? || v.Undefined?
  }

  // ---------------------------------------------------------------------------
  // Comparing values the way the store does

  /** The length of `s` without its trailing blanks. */
  function TrimmedLength(s: string): (n: nat)
    ensures n <= |s|
  {
    if s != [] && s[|s| - 1] == ' ' then TrimmedLength(s[..|s| - 1]) else |s|
  }

  /** The first `n` characters of `s` and of `t` are the same. */
  predicate SamePrefix(s: string, t: string, n: nat) {
    n == 0 || (n <= |s| && n <= |t| && s[n - 1] == t[n - 1] && SamePrefix(s, t, n - 1))
  }

  /** How SQL Server compares two texts: it pads the shorter with blanks,
      so trailing blanks do not count. */
  predicate SameText(s: string, t: string) {
    s == t || (TrimmedLength(s) == TrimmedLength(t) && SamePrefix(s, t, TrimmedLength(s)))
  }

  /** SQL `a = b`: never true when either side is NULL; texts compare as
      the store compares them, every other value as itself. */
  predicate SqlEq(a: Value, b: Value) {
    !IsNull(a) && !IsNull(b) && if a.Str? && b.Str? then SameText(a.s, b.s) else a == b
  }

  /** SQL `a IN (list)` for a list of numbers. */
  predicate SqlIn(a: Value, list: seq<Value>) {
    !IsNull(a) && a in list
  }

  /** `n` blanks. */
  function Blanks(n: nat): (s: string)
    ensures |s| == n && forall i :: 0 <= i < n ==> s[i] == ' '
  {
    if n == 0 then [] else Blanks(n - 1) + " "
  }

  /** The trimmed part ends in something other than a blank, and only
      blanks follow it. */
  lemma {:induction false} TrimmedLengthDropsOnlyBlanks(s: string)
    ensures var n := TrimmedLength(s);
      && (n == 0 || s[n - 1] != ' ')
      && forall i :: n <= i < |s| ==> s[i] == ' '
  {
    if s != [] && s[|s| - 1] == ' ' {
      TrimmedLengthDropsOnlyBlanks(s[..|s| - 1]);
    }
  }

  /** Trailing blanks added to a text make no difference to its trimmed length. */
  lemma {:induction false} TrimIgnoresAddedBlanks(s: string, n: nat)
    ensures TrimmedLength(s + Blanks(n)) == TrimmedLength(s)
  {
    if n > 0 {
      var t := s + Blanks(n);
      assert t[|t| - 1] == ' ' && t[..|t| - 1] == s + Blanks(n - 1);
      TrimIgnoresAddedBlanks(s, n - 1);
    } else {
      assert s + Blanks(n) == s;
    }
  }

  /** A text with trailing blanks added has the same characters up to the
      trimmed length. */
  lemma {:induction false} SamePrefixWithBlanks(s: string, n: nat, k: nat)
    requires k <= |s|
    ensures SamePrefix(s, s + Blanks(n), k)
  {
    if k > 0 {
      SamePrefixWithBlanks(s, n, k - 1);
    }
  }

  /** So the store finds `'a@x.com'` equal to `'a@x.com   '`. */
  lemma SqlEqIgnoresTrailingBlanks(s: string, n: nat)
    ensures SqlEq(Str(s), Str(s + Blanks(n)))
  {
    TrimIgnoresAddedBlanks(s, n);
    SamePrefixWithBlanks(s, n, TrimmedLength(s));
  }

  lemma {:induction false} SamePrefixSymmetric(s: string, t: string, n: nat)
    ensures SamePrefix(s, t, n) ==> SamePrefix(t, s, n)
  {
    if n > 0 {
      SamePrefixSymmetric(s, t, n - 1);
    }
  }

  lemma {:induction false} SamePrefixTransitive(s: string, t: string, u: string, n: nat)
    ensures SamePrefix(s, t, n) && SamePrefix(t, u, n) ==> SamePrefix(s, u, n)
  {
    if n > 0 {
      SamePrefixTransitive(s, t, u, n - 1);
    }
  }

  /** The store's `=` is symmetric and transitive on values that are not NULL. */
  lemma SqlEqEquivalence(a: Value, b: Value, c: Value)
    ensures SqlEq(a, b) ==> SqlEq(b, a)
    ensures SqlEq(a, b) && SqlEq(b, c) ==> SqlEq(a, c)
  {
    if a.Str? && b.Str? {
      var n := TrimmedLength(a.s);
      SamePrefixSymmetric(a.s, b.s, n);
      if c.Str? && a.s != b.s && b.s != c.s {
        SamePrefixTransitive(a.s, b.s, c.s, n);
      }
    }
  }

  // ---------------------------------------------------------------------------
  // Columns and the invariants the controller relies on

  /** The `email` column. */
  function Emails(users: seq<UserRow>): (c: seq<Value>)
    ensures |c| == |users| && forall i :: 0 <= i < |users| ==> c[i] == users[i].email
  {
    seq(|users|, i requires 0 <= i < |users| => users[i].email)
  }

  /** The `roll_no` column. */
  function RollNumbers(rows: seq<StudentRow>): (c: seq<Value>)
    ensures |c| == |rows| && forall i :: 0 <= i < |rows| ==> c[i] == rows[i].rollNo
  {
    seq(|rows|, i requires 0 <= i < |rows| => rows[i].rollNo)
  }

  /** No two entries of a column are equal to the store. */
  predicate Distinct(column: seq<Value>) {
    forall i, j :: 0 <= i < |column| && 0 <= j < |column| && SqlEq(column[i], column[j]) ==> i == j
  }

  /** Every identity already issued is below the next one. */
  predicate IdsBelow(users: seq<UserRow>, next: int) {
    forall i :: 0 <= i < |users| ==> users[i].id < next
  }

  /** No two users share an email. */
  predicate EmailsUnique(users: seq<UserRow>) {
    Distinct(Emails(users))
  }

  /** At most one roster entry per roll number. */
  predicate RollNumbersUnique(rows: seq<StudentRow>) {
    Distinct(RollNumbers(rows))
  }

  /** Some roster entry belongs to the user with identity `id`. */
  predicate Seated(rows: seq<StudentRow>, id: int) {
    exists i :: 0 <= i < |rows| && rows[i].userId == IdValue(id)
  }

  /** Two tables whose rows agree on `roll_no`, row by row. */
  predicate SameRollNumbers(a: seq<StudentRow>, b: seq<StudentRow>) {
    RollNumbers(a) == RollNumbers(b)
  }

  /** The rows of two tables agree on every column but `class_std` and `div`. */
  predicate SameKeys(a: seq<StudentRow>, b: seq<StudentRow>) {
    SameRollNumbers(a, b) && |a| == |b| && forall i :: 0 <= i < |a| ==> a[i].userId == b[i].userId
  }

  // ---------------------------------------------------------------------------
  // Statements

  /** `SELECT COUNT(*) ... WHERE column = @v`, and the `rowsAffected` of an
      `UPDATE ... WHERE column = @v`. */
  function CountMatches(column: seq<Value>, v: Value): (n: nat)
    ensures n <= |column|
    ensures n == 0 <==> forall i :: 0 <= i < |column| ==> !SqlEq(column[i], v)
  {
    if column == [] then 0
    else (if SqlEq(column[0], v) then 1 else 0) + CountMatches(column[1..], v)
  }

  /** `UPDATE student SET user_id = @UserId, class_std = @ClassStd WHERE roll_no = @RollNo`. */
  function SetUserWhereRoll(rows: seq<StudentRow>, rollNo: Value, userId: Value, classStd: Value): (r: seq<StudentRow>)
    ensures |r| == |rows|
    ensures forall i :: 0 <= i < |rows| && SqlEq(rows[i].rollNo, rollNo) ==>
      r[i] == rows[i].(userId := userId, classStd := classStd)
    ensures forall i :: 0 <= i < |rows| && !SqlEq(rows[i].rollNo, rollNo) ==> r[i] == rows[i]
  {
    if rows == [] then []
    else
      var head := if SqlEq(rows[0].rollNo, rollNo) then rows[0].(userId := userId, classStd := classStd) else rows[0];
      [head] + SetUserWhereRoll(rows[1..], rollNo, userId, classStd)
  }

  /** `UPDATE student SET div = @DivId, class_std = @StdId WHERE user_id = @UserId`. */
  function SetPlacementWhereUser(rows: seq<StudentRow>, userId: Value, classStd: Value, div: Value): (r: seq<StudentRow>)
    ensures |r| == |rows|
    ensures forall i :: 0 <= i < |rows| && SqlEq(rows[i].userId, userId) ==>
      r[i] == rows[i].(classStd := classStd, div := div)
    ensures forall i :: 0 <= i < |rows| && !SqlEq(rows[i].userId, userId) ==> r[i] == rows[i]
  {
    if rows == [] then []
    else
      var head := if SqlEq(rows[0].userId, userId) then rows[0].(classStd := classStd, div := div) else rows[0];
      [head] + SetPlacementWhereUser(rows[1..], userId, classStd, div)
  }

  /** `UPDATE student SET class_std = @class_std, div = @div WHERE user_id IN (ids)`. */
  function SetPlacementWhereUserIn(rows: seq<StudentRow>, ids: seq<Value>, classStd: Value, div: Value): (r: seq<StudentRow>)
    ensures |r| == |rows|
    ensures forall i :: 0 <= i < |rows| && SqlIn(rows[i].userId, ids) ==>
      r[i] == rows[i].(classStd := classStd, div := div)
    ensures forall i :: 0 <= i < |rows| && !SqlIn(rows[i].userId, ids) ==> r[i] == rows[i]
  {
    if rows == [] then []
    else
      var head := if SqlIn(rows[0].userId, ids) then rows[0].(classStd := classStd, div := div) else rows[0];
      [head] + SetPlacementWhereUserIn(rows[1..], ids, classStd, div)
  }

  // ---------------------------------------------------------------------------
  // Lemmas

  /** Setting the user by roll number leaves roll numbers alone. */
  lemma SetUserWhereRollKeepsRollNumbers(rows: seq<StudentRow>, rollNo: Value, userId: Value, classStd: Value)
    ensures SameRollNumbers(rows, SetUserWhereRoll(rows, rollNo, userId, classStd))
  {
    var r := SetUserWhereRoll(rows, rollNo, userId, classStd);
    forall i | 0 <= i < |rows| ensures RollNumbers(r)[i] == RollNumbers(rows)[i] {
      if SqlEq(rows[i].rollNo, rollNo) {
        assert r[i].rollNo == rows[i].rollNo;
      }
    }
  }

  /** `updateStudent`'s statement leaves both key columns alone. */
  lemma SetPlacementWhereUserKeepsKeys(rows: seq<StudentRow>, userId: Value, classStd: Value, div: Value)
    ensures SameKeys(rows, SetPlacementWhereUser(rows, userId, classStd, div))
  {
    var r := SetPlacementWhereUser(rows, userId, classStd, div);
    forall i | 0 <= i < |rows| ensures RollNumbers(r)[i] == RollNumbers(rows)[i] && r[i].userId == rows[i].userId {
      if SqlEq(rows[i].userId, userId) {
        assert r[i].rollNo == rows[i].rollNo;
      }
    }
  }

  /** The bulk statement leaves both key columns alone. */
  lemma SetPlacementWhereUserInKeepsKeys(rows: seq<StudentRow>, ids: seq<Value>, classStd: Value, div: Value)
    ensures SameKeys(rows, SetPlacementWhereUserIn(rows, ids, classStd, div))
  {
    var r := SetPlacementWhereUserIn(rows, ids, classStd, div);
    forall i | 0 <= i < |rows| ensures RollNumbers(r)[i] == RollNumbers(rows)[i] && r[i].userId == rows[i].userId {
      if SqlIn(rows[i].userId, ids) {
        assert r[i].rollNo == rows[i].rollNo;
      }
    }
  }

  /** Appending one value adds one to the count exactly when it matches. */
  lemma {:induction false} CountMatchesAppend(column: seq<Value>, x: Value, v: Value)
    ensures CountMatches(column + [x], v) == CountMatches(column, v) + (if SqlEq(x, v) then 1 else 0)
  {
    if column == [] {
      assert [x][1..] == [];
    } else {
      assert (column + [x])[1..] == column[1..] + [x];
      CountMatchesAppend(column[1..], x, v);
    }
  }

  /** Appending a row appends its roll number to the column. */
  lemma RollNumbersAppend(rows: seq<StudentRow>, row: StudentRow)
    ensures RollNumbers(rows + [row]) == RollNumbers(rows) + [row.rollNo]
  {
  }

  /** A value equal to no entry keeps a column distinct when appended. */
  lemma DistinctAppend(column: seq<Value>, x: Value)
    requires Distinct(column) && forall i :: 0 <= i < |column| ==> !SqlEq(column[i], x)
    ensures Distinct(column + [x])
  {
    forall k | 0 <= k < |column| ensures !SqlEq(x, column[k]) {
      SqlEqEquivalence(x, column[k], x);
    }
    var c := column + [x];
    forall i, j | 0 <= i < |c| && 0 <= j < |c| && SqlEq(c[i], c[j]) ensures i == j {
      if i < |column| && j < |column| {
        assert c[i] == column[i] && c[j] == column[j];
      }
    }
  }

  /** In a column of distinct values, a value matches at most one entry. */
  lemma {:induction false} DistinctCountAtMostOne(column: seq<Value>, v: Value)
    requires Distinct(column)
    ensures CountMatches(column, v) <= 1
  {
    if column != [] {
      var tail := column[1..];
      assert Distinct(tail) by {
        forall i, j | 0 <= i < |tail| && 0 <= j < |tail| && SqlEq(tail[i], tail[j])
          ensures i == j
        {
          assert column[i + 1] == tail[i] && column[j + 1] == tail[j];
        }
      }
      DistinctCountAtMostOne(tail, v);
      if SqlEq(column[0], v) {
        forall i | 0 <= i < |tail| ensures !SqlEq(tail[i], v) {
          SqlEqEquivalence(tail[i], v, tail[i]);
          SqlEqEquivalence(column[0], v, tail[i]);
          assert column[i + 1] == tail[i];
        }
      }
    }
  }

  /** Tables that agree on user ids and roll numbers agree on uniqueness of
      roll numbers and on who is seated. */
  lemma SameKeysTransfer(a: seq<StudentRow>, b: seq<StudentRow>)
    requires SameKeys(a, b)
    ensures RollNumbersUnique(a) ==> RollNumbersUnique(b)
    ensures forall id :: Seated(a, id) ==> Seated(b, id)
  {
  }
}
