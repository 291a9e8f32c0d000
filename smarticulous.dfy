/**
 * The Smarticulous data-access class, with the User, Exercise and Question tables of its
 * database held as in-memory state. Each operation changes these tables the way the SQL
 * statement it runs changes them; the SQL text, the JDBC driver and the engine are not modelled.
 */
module Smarticulous {
  import opened Db

  /** A row of the User table (its key, UserId, is the key of the map that holds the table). */
  datatype UserRow = UserRow(username: string, firstname: string, lastname: string, password: string)

  /** A row of the Exercise table (its key, ExerciseId, is the key of the map that holds the table). */
  datatype ExerciseRow = ExerciseRow(name: string, dueDate: int)

  /** A row of the Question table. */
  datatype QuestionRow = QuestionRow(exerciseId: int, name: string, desc: string, points: int)

  /** A row returned by a submission-grades query: one question's grade in one submission. */
  datatype GradeRow = GradeRow(submissionId: int, questionId: int, grade: real, submissionTime: int)

  /** Run-time failures that the source does not catch. */
  datatype Error = ArrayIndexOutOfBounds

  datatype Result<T> = Ok(value: T) | Err(error: Error)

  /** Java's null, or a reference. */
  datatype Option<T> = None | Some(value: T)

  /** The UNIQUE constraint on Username: no two User rows share a username. */
  ghost predicate UniqueUsernames(users: map<int, UserRow>)
  {
    forall i, j :: i in users && j in users && users[i].username == users[j].username ==> i == j
  }

  /** The ids `SELECT UserId FROM User WHERE Username = ?` returns. */
  function UserIdsNamed(users: map<int, UserRow>, username: string): set<int>
  {
    set id | id in users && users[id].username == username
  }

  /**
   * The UNIQUE constraint holds exactly when every username lookup finds at most one row,
   * so the first row a lookup returns is the only one.
   */
  lemma UniqueIffSingleLookup(users: map<int, UserRow>)
    ensures UniqueUsernames(users) <==> forall u :: |UserIdsNamed(users, u)| <= 1
  {
    if UniqueUsernames(users) {
      forall u ensures |UserIdsNamed(users, u)| <= 1 {
        var ids := UserIdsNamed(users, u);
        if exists id :: id in ids {
          var id :| id in ids;
          forall other | other in ids ensures other == id { }
          assert ids == {id};
        } else {
          assert ids == {};
        }
      }
    } else {
      var i, j :| i in users && j in users && users[i].username == users[j].username && i != j;
      var ids := UserIdsNamed(users, users[i].username);
      assert {i, j} <= ids;
      assert |{i, j}| == 2;
      SubsetCardinality({i, j}, ids);
    }
  }

  lemma {:induction false} SubsetCardinality(a: set<int>, b: set<int>)
    requires a <= b
    ensures |a| <= |b|
  {
    assert b == a + (b - a);
  }

  /** The User table after `UPDATE User SET Password = ?, Firstname = ?, Lastname = ? WHERE Username = ?`. */
  function UpdateWhereUsername(users: map<int, UserRow>, user: User, password: string): map<int, UserRow>
  {
    map id | id in users ::
      if users[id].username == user.username
      then users[id].(password := password, firstname := user.firstname, lastname := user.lastname)
      else users[id]
  }

  /**
   * Under the UNIQUE constraint the UPDATE rewrites only the one row of that username, and
   * only its password and names; when no row has that username it changes nothing.
   */
  lemma UpdateTouchesOneRow(users: map<int, UserRow>, user: User, password: string)
    requires UniqueUsernames(users)
    ensures forall id :: id in UserIdsNamed(users, user.username) ==>
      UpdateWhereUsername(users, user, password)
        == users[id := UserRow(user.username, user.firstname, user.lastname, password)]
    ensures UserIdsNamed(users, user.username) == {} ==> UpdateWhereUsername(users, user, password) == users
  {
    var updated := UpdateWhereUsername(users, user, password);
    forall id | id in UserIdsNamed(users, user.username)
      ensures updated == users[id := UserRow(user.username, user.firstname, user.lastname, password)]
    {
      var expected := users[id := UserRow(user.username, user.firstname, user.lastname, password)];
      assert updated.Keys == expected.Keys;
      forall k | k in updated ensures updated[k] == expected[k] {
        if k != id {
          assert users[k].username != user.username;
        }
      }
    }
    if UserIdsNamed(users, user.username) == {} {
      forall k | k in updated ensures updated[k] == users[k] {
        assert k !in UserIdsNamed(users, user.username);
      }
    }
  }

  /** The rows addExercise inserts into the Question table for `qs`, tagged with `exerciseId`. */
  function QuestionRowsFor(exerciseId: int, qs: seq<Question>): seq<QuestionRow>
    decreases |qs|
  {
    if qs == [] then []
    else
      var q := qs[|qs| - 1];
      QuestionRowsFor(exerciseId, qs[..|qs| - 1]) + [QuestionRow(exerciseId, q.name, q.desc, q.points)]
  }

  /** One Question row per question, in list order, each carrying the exercise id and the question's fields. */
  lemma {:induction false} QuestionRowsInOrder(exerciseId: int, qs: seq<Question>)
    ensures |QuestionRowsFor(exerciseId, qs)| == |qs|
    ensures forall k :: 0 <= k < |qs| ==>
      QuestionRowsFor(exerciseId, qs)[k] == QuestionRow(exerciseId, qs[k].name, qs[k].desc, qs[k].points)
    decreases |qs|
  {
    if qs != [] {
      var init := qs[..|qs| - 1];
      QuestionRowsInOrder(exerciseId, init);
      forall k | 0 <= k < |qs| - 1 ensures init[k] == qs[k] { }
    }
  }

  /**
   * The grade array getSubmission builds from the query's rows for an exercise with
   * `questionCount` questions: slot k holds row k's grade, and every slot no row reaches stays 0.
   */
  function Grades(rows: seq<GradeRow>, questionCount: nat): (grades: seq<real>)
    requires |rows| <= questionCount
    ensures |grades| == questionCount
    ensures forall k :: 0 <= k < |rows| ==> grades[k] == rows[k].grade
    ensures forall k :: |rows| <= k < questionCount ==> grades[k] == 0.0
    decreases rows
  {
    if rows == [] then seq(questionCount, _ => 0.0)
    else [rows[0].grade] + Grades(rows[1..], questionCount - 1)
  }

  class Smarticulous {
    /** Whether the connection field `db` is set (it is null until the database is opened). */
    var dbOpen: bool
    /** The User table, keyed by UserId. */
    var userTable: map<int, UserRow>
    /**
     * The UserId the engine gives the next inserted User row: one more than the largest
     * UserId, or 1 for an empty table (SQLite's rule for an INTEGER PRIMARY KEY column).
     */
    var nextUserId: int
    /** The Exercise table, keyed by ExerciseId. */
    var exerciseTable: map<int, ExerciseRow>
    /** The Question table, in insertion order. */
    var questionTable: seq<QuestionRow>

    /** The User table keeps usernames unique and `nextUserId` one above its largest key. */
    ghost predicate Valid()
      reads this`userTable, this`nextUserId
    {
      && UniqueUsernames(userTable)
      && (forall id :: id in userTable ==> id < nextUserId)
      && (if userTable == map[] then nextUserId == 1 else nextUserId - 1 in userTable)
    }

    /** A Smarticulous on an empty database, not yet opened. */
    constructor ()
      ensures Valid() && !dbOpen
      ensures userTable == map[] && exerciseTable == map[] && questionTable == []
    {
      dbOpen := false;
      userTable := map[];
      nextUserId := 1;
      exerciseTable := map[];
      questionTable := [];
    }

    /** Opens the connection; creating the tables "if not exists" keeps every existing row. */
    method OpenDB()
      modifies this`dbOpen
      ensures dbOpen
    {
      dbOpen := true;
    }

    /** Closes the connection if it is open; on a closed one it does nothing. */
    method CloseDB()
      modifies this`dbOpen
      ensures !dbOpen
      ensures !old(dbOpen) ==> unchanged(this)
    {
      if dbOpen {
        dbOpen := false;
      }
    }

    /**
     * Adds a user, or updates the password and names of the user with that username.
     * Returns the user's UserId: the existing one on an update, the new row's on an insert.
     */
    method AddOrUpdateUser(user: User, password: string) returns (id: int)
      requires dbOpen && Valid()
      modifies this`userTable, this`nextUserId
      ensures Valid()
      ensures userTable == old(userTable)[id := UserRow(user.username, user.firstname, user.lastname, password)]
      ensures old(UserIdsNamed(userTable, user.username)) != {} ==>
        && old(UserIdsNamed(userTable, user.username)) == {id}
        && userTable.Keys == old(userTable.Keys)
        && nextUserId == old(nextUserId)
      ensures old(UserIdsNamed(userTable, user.username)) == {} ==>
        && id !in old(userTable)
        && userTable.Keys == old(userTable.Keys) + {id}
        && id == old(nextUserId)
    {
      var ids := UserIdsNamed(userTable, user.username);
      if exists found :: found in ids {
        id :| id in ids;
        forall other | other in ids ensures other == id { }
        assert ids == {id};
        UpdateTouchesOneRow(userTable, user, password);
        UpdateUser(user, password);
      } else {
        assert ids == {};
        id := CreateUser(user, password);
      }
    }

    /** Inserts a User row for a username that has none, under the next UserId, and returns that id. */
    method CreateUser(user: User, password: string) returns (id: int)
      requires dbOpen && Valid()
      requires UserIdsNamed(userTable, user.username) == {}
      modifies this`userTable, this`nextUserId
      ensures Valid()
      ensures id == old(nextUserId) && id !in old(userTable)
      ensures userTable == old(userTable)[id := UserRow(user.username, user.firstname, user.lastname, password)]
      ensures nextUserId == id + 1
    {
      forall other | other in userTable ensures userTable[other].username != user.username {
        assert other !in UserIdsNamed(userTable, user.username);
      }
      id := nextUserId;
      userTable := userTable[id := UserRow(user.username, user.firstname, user.lastname, password)];
      nextUserId := nextUserId + 1;
    }

    /** Sets the password and names of every User row with `user.username`. */
    method UpdateUser(user: User, password: string)
      requires dbOpen && Valid()
      modifies this`userTable
      ensures Valid()
      ensures userTable == UpdateWhereUsername(old(userTable), user, password)
    {
      userTable := UpdateWhereUsername(userTable, user, password);
    }

    /** True iff a user with this username exists and its stored password equals `password`. */
    method VerifyLogin(username: string, password: string) returns (ok: bool)
      requires dbOpen && Valid()
      ensures ok <==> exists id :: id in userTable && userTable[id].username == username && userTable[id].password == password
      ensures UserIdsNamed(userTable, username) == {} ==> !ok
    {
      var ids := UserIdsNamed(userTable, username);
      if exists found :: found in ids {
        var id :| id in ids;
        if userTable[id].password == password {
          return true;
        }
        forall other | other in userTable && userTable[other].username == username ensures other == id { }
      } else {
        forall other | other in userTable ensures userTable[other].username != username {
          assert other !in ids;
        }
      }
      return false;
    }

    /**
     * Adds an exercise and its questions. Returns -1, changing nothing, when an exercise with
     * that id exists; otherwise inserts the Exercise row, then one Question row per question
     * in list order, and returns the exercise id.
     */
    method AddExercise(exercise: Exercise) returns (r: int)
      requires dbOpen
      modifies this`exerciseTable, this`questionTable
      ensures exercise.id in old(exerciseTable) ==>
        r == -1 && exerciseTable == old(exerciseTable) && questionTable == old(questionTable)
      ensures exercise.id !in old(exerciseTable) ==>
        && r == exercise.id
        && exerciseTable == old(exerciseTable)[exercise.id := ExerciseRow(exercise.name, exercise.dueDate)]
        && questionTable == old(questionTable) + QuestionRowsFor(exercise.id, exercise.questions)
      ensures r == -1 <==> exercise.id in old(exerciseTable) || exercise.id == -1
    {
      if exercise.id in exerciseTable {
        return -1;
      }
      exerciseTable := exerciseTable[exercise.id := ExerciseRow(exercise.name, exercise.dueDate)];
      var qs := exercise.questions;
      for i := 0 to |qs|
        invariant exerciseTable == old(exerciseTable)[exercise.id := ExerciseRow(exercise.name, exercise.dueDate)]
        invariant questionTable == old(questionTable) + QuestionRowsFor(exercise.id, qs[..i])
      {
        assert qs[..i + 1][..i] == qs[..i];
        AddQuestion(qs[i], exercise.id);
      }
      assert qs[..|qs|] == qs;
      r := exercise.id;
    }

    /** Inserts one Question row for `question` under `exerciseId`, after all existing rows. */
    method AddQuestion(question: Question, exerciseId: int)
      requires dbOpen
      modifies this`questionTable
      ensures questionTable == old(questionTable) + [QuestionRow(exerciseId, question.name, question.desc, question.points)]
    {
      questionTable := questionTable + [QuestionRow(exerciseId, question.name, question.desc, question.points)];
    }

    /**
     * Folds the rows of a submission-grades query into a submission. No rows means no
     * submission (null). Otherwise the id and time come from the first row and slot k of
     * a grade array with one slot per question holds row k's grade; a row beyond the last
     * slot makes the array store fail.
     */
    method GetSubmission(user: User, exercise: Exercise, rows: seq<GradeRow>) returns (r: Result<Option<Submission>>)
      ensures rows == [] ==> r == Ok(None)
      ensures |rows| > |exercise.questions| ==> r == Err(ArrayIndexOutOfBounds)
      ensures 0 < |rows| <= |exercise.questions| ==>
        r == Ok(Some(Submission(rows[0].submissionId, user, exercise, rows[0].submissionTime,
                                Grades(rows, |exercise.questions|))))
    {
      var hasNext := 0 < |rows|;
      if !hasNext {
        return Ok(None);
      }
      var sid := rows[0].submissionId;
      var submissionTime := rows[0].submissionTime;
      var n := |exercise.questions|;
      var grades := new real[n](_ => 0.0);
      var i := 0;
      while hasNext
        invariant 0 <= i <= |rows| && i <= n
        invariant hasNext <==> i < |rows|
        invariant forall k :: 0 <= k < i ==> grades[k] == rows[k].grade
        invariant forall k :: i <= k < n ==> grades[k] == 0.0
        decreases |rows| - i
      {
        if i >= grades.Length {
          return Err(ArrayIndexOutOfBounds);
        }
        grades[i] := rows[i].grade;
        i := i + 1;
        hasNext := i < |rows|;
      }
      assert grades[..] == Grades(rows, n);
      return Ok(Some(Submission(sid, user, exercise, submissionTime, grades[..])));
    }
  }

  /** Adding a user twice under one username keeps one row and returns the same id both times. */
  method UpsertTwiceKeepsId(s: Smarticulous, first: User, second: User, password1: string, password2: string)
    returns (id1: int, id2: int)
    requires s.dbOpen && s.Valid()
    requires first.username == second.username
    modifies s
    ensures s.Valid()
    ensures id1 == id2
    ensures s.userTable.Keys <= old(s.userTable.Keys) + {id1}
    ensures id2 in s.userTable && s.userTable[id2] == UserRow(second.username, second.firstname, second.lastname, password2)
  {
    id1 := s.AddOrUpdateUser(first, password1);
    assert id1 in UserIdsNamed(s.userTable, second.username);
    id2 := s.AddOrUpdateUser(second, password2);
  }

  /**
   * After a user is added or updated with a password, logging in with it succeeds, also after
   * the connection is closed and opened again.
   */
  method LoginAfterUpsert(s: Smarticulous, user: User, password: string) returns (ok: bool)
    requires s.dbOpen && s.Valid()
    modifies s
    ensures s.Valid()
    ensures ok
  {
    var id := s.AddOrUpdateUser(user, password);
    s.CloseDB();
    s.OpenDB();
    ok := s.VerifyLogin(user.username, password);
  }

  /**
   * Adding the same exercise twice: the second call returns -1 and leaves the rows the first
   * call left, so the first exercise's rows are not altered.
   */
  method AddExerciseTwice(s: Smarticulous, exercise: Exercise) returns (r1: int, r2: int)
    requires s.dbOpen
    modifies s
    ensures r2 == -1
    ensures exercise.id in s.exerciseTable
    ensures old(exercise.id !in s.exerciseTable) ==>
      && r1 == exercise.id
      && s.exerciseTable[exercise.id] == ExerciseRow(exercise.name, exercise.dueDate)
      && s.questionTable == old(s.questionTable) + QuestionRowsFor(exercise.id, exercise.questions)
    ensures old(exercise.id in s.exerciseTable) ==>
      s.exerciseTable == old(s.exerciseTable) && s.questionTable == old(s.questionTable)
  {
    r1 := s.AddExercise(exercise);
    r2 := s.AddExercise(exercise);
  }
}
