# Smarticulous grading-records store, modelled in Dafny

Smarticulous is a small data-access layer for a grading system. It keeps users, exercises and their
questions in a SQLite database, and it assembles a submission from the rows of a per-question grades
query. This project models the `Smarticulous` class and the `Exercise` record it stores.

- `db.dfy`, module `Db`: the records of package `smarticulous.db`. `Exercise` is a class whose
  constructor sets id, name and due date and whose `AddQuestion` appends to its question list in
  place. `Question`, `User` and `Submission` are values.
- `smarticulous.dfy`, module `Smarticulous`: the class `Smarticulous`. Its fields are the connection
  flag (`db != null`) and three tables:
  - the User table, a map from UserId to row;
  - the Exercise table, a map from ExerciseId to row;
  - the Question table, a sequence of rows in insertion order.

  Each method changes these tables the way its SQL statement would. `Valid()` is the User table's
  invariant: the UNIQUE constraint on Username, and the counter `nextUserId` standing one above the
  largest UserId (1 for an empty table). That is SQLite's rule for choosing the key of a new row in an
  `INTEGER PRIMARY KEY` column. `Valid()` reads only the User table and the counter, so every
  operation that leaves those two alone keeps it.

`GetSubmission` takes the rows the grades query returns as a parameter. It fills a grade array in a
loop, as the source does. The array has one slot per question and starts at zero. The method is
proved against the function `Grades`, whose contract says slot k holds row k's grade and later slots
stay 0. A query that returns more rows than there are questions would overrun the array. The source
does not catch that error, so the model returns `Err(ArrayIndexOutOfBounds)` for it.

Where the code and its prose description disagree, the model follows the code:
- The Question table declares `QuestionId INTEGER AUTO_INCREMENT`. SQLite does not fill a column
  declared like that, and the insert at `Smarticulous.java:270` gives it no value, so question rows
  carry no question id. The model's Question rows therefore have none. Their order in the sequence
  is the insertion order.
- The sentinel `-1` of `addExercise` is not distinct from a real key. An absent exercise whose id is
  `-1` is inserted and also returns `-1`. `AddExercise`'s last `ensures` states both cases.

## Model

| member | source | states |
|---|---|---|
| `Db.Exercise.constructor` | src/main/java/smarticulous/db/Exercise.java:59-64 | a new exercise holds the given id, name and due date and an empty question list |
| `Db.Exercise.AddQuestion` | src/main/java/smarticulous/db/Exercise.java:72-74 | the list grows by exactly one; the new last element is `Question(name, desc, points)`; earlier questions, id, name and due date are unchanged |
| `Db.QuestionsInCallOrder` | src/main/java/smarticulous/db/Exercise.java:57-74 | after a sequence of AddQuestion calls the earlier questions come first and the new ones follow in call order; on a new exercise the list is exactly the calls |
| `Smarticulous.UniqueIffSingleLookup` | src/main/java/smarticulous/Smarticulous.java:89 | the UNIQUE(Username) constraint holds iff every username lookup returns at most one UserId |
| `Smarticulous.UpdateTouchesOneRow` | src/main/java/smarticulous/Smarticulous.java:172-183 | under the UNIQUE constraint, the UPDATE by username rewrites only that username's row, setting only password, first and last name; with no such row it changes nothing |
| `Smarticulous.QuestionRowsInOrder` | src/main/java/smarticulous/Smarticulous.java:249-252 | the Question rows inserted for an exercise are one per question, in list order, each tagged with the exercise id and carrying the question's name, description and points |
| `Smarticulous.Grades` | src/main/java/smarticulous/Smarticulous.java:388-392 | the grade array has one slot per question; slot k holds the k-th row's grade; slots no row reaches stay 0 |
| `Smarticulous.Smarticulous.constructor` | src/main/java/smarticulous/Smarticulous.java:16-21 | a new instance has no connection, and its empty tables satisfy the User-table invariant |
| `Smarticulous.Smarticulous.OpenDB` | src/main/java/smarticulous/Smarticulous.java:86-96 | the connection is set; creating the tables only if they are absent leaves every row and the invariant as they were |
| `Smarticulous.Smarticulous.CloseDB` | src/main/java/smarticulous/Smarticulous.java:111-116 | afterwards the connection is null; on an already closed instance nothing changes |
| `Smarticulous.Smarticulous.AddOrUpdateUser` | src/main/java/smarticulous/Smarticulous.java:131-150 | if the username exists, returns that row's existing id, rewrites that row only, and adds no row; otherwise inserts exactly one row with the given username, names and password under a new id absent before, and returns it; the uniqueness invariant is kept |
| `Smarticulous.Smarticulous.CreateUser` | src/main/java/smarticulous/Smarticulous.java:153-169 | for a username without a row, inserts one row under the next rowid, returns that id, and keeps the invariant |
| `Smarticulous.Smarticulous.UpdateUser` | src/main/java/smarticulous/Smarticulous.java:172-183 | the User table becomes the effect of the UPDATE by username; the invariant is kept |
| `Smarticulous.Smarticulous.VerifyLogin` | src/main/java/smarticulous/Smarticulous.java:197-211 | true iff a row with that username exists and its stored password equals the given one; false when the username is absent |
| `Smarticulous.Smarticulous.AddExercise` | src/main/java/smarticulous/Smarticulous.java:222-259 | with the id already present, returns -1 and leaves the Exercise and Question tables unchanged; otherwise inserts the Exercise row with id, name and due date, appends one Question row per question in list order, and returns the id; -1 is returned iff the id was present or is itself -1 |
| `Smarticulous.Smarticulous.AddQuestion` | src/main/java/smarticulous/Smarticulous.java:268-279 | appends exactly one Question row with the exercise id and the question's name, description and points |
| `Smarticulous.Smarticulous.GetSubmission` | src/main/java/smarticulous/Smarticulous.java:374-395 | no rows gives null; more rows than questions gives the array-bounds error; otherwise the submission has the first row's id and time, the given user and exercise, and exactly the `Grades` array |
| `Smarticulous.UpsertTwiceKeepsId` | src/main/java/smarticulous/Smarticulous.java:131-150 | two add-or-update calls with one username return the same id, add at most that one row, and leave the second call's names and password |
| `Smarticulous.LoginAfterUpsert` | src/main/java/smarticulous/Smarticulous.java:197-211 | after a user is added or updated with a password, verifying that username and password succeeds, also after the connection is closed and reopened |
| `Smarticulous.AddExerciseTwice` | src/main/java/smarticulous/Smarticulous.java:222-234 | adding one exercise twice returns -1 the second time; the rows the first call wrote stay as they were |

## Left out

- The JDBC connection, `DriverManager`, statement preparation, parameter binding and the SQL text: the model keeps only their effect on the tables. `OpenDB`'s URL and the table-creation statements are not modelled. The model holds one database, so opening a different database file is not modelled either.
- `SQLException`s raised by the driver are not modelled. The `NullPointerException` an operation raises on a closed connection is not modelled: each table operation requires the connection to be open.
- The Submission and QuestionGrade tables: no implemented operation reads or writes them.
- `loadExercises`, `storeSubmission`, `getLastSubmissionGradesStatement` and `getBestSubmissionGradesStatement`: they are unimplemented stubs returning null or -1. `getLastSubmission` and `getBestSubmission` are left out too: they only pass those null statements to `getSubmission`.
- Grades are exact reals, not 32-bit floats. Due dates and submission times are opaque integers: the `java.util.Date`/`java.sql.Date` conversion is not modelled.
- `src/main/java/smarticulous/db/User.java` and `src/main/java/smarticulous/db/Submission.java` are not part of this model. `User` carries the three fields the data-access layer reads, and `Submission` carries the five values its constructor is given.
- Null strings (a missing password, say) are not modelled, and neither is the mutability of the `Question` record's fields, which nothing in the core changes.
- AddOrUpdateUser: UserIds are unbounded integers; the truncation of a rowid beyond 2^31 - 1 by `getInt` is not modelled.
- AddExercise: returns `exercise.id`, the key of the inserted Exercise row, as the documentation at `Smarticulous.java:219` promises. The source asks for the generated key only after the Question inserts. Which row's key a driver reports at that point is not modelled.
- A database that already holds rows when the object is created is not modelled: the model starts from empty tables and reaches every other state through its operations.
