/**
 * The records of package smarticulous.db that the data-access layer reads and builds:
 * the Exercise definition with its ordered Questions, and the User and Submission values.
 */
module Db {

  /** An assignment question: its name, its description and its maximum grade in points. */
  datatype Question = Question(name: string, desc: string, points: int)

  /** The fields of a user that the data-access layer reads. */
  datatype User = User(username: string, firstname: string, lastname: string)

  /**
   * One attempt by a user at an exercise, with one grade per question in question order.
   * Grades are exact reals; the submission time is an opaque instant.
   */
  datatype Submission = Submission(id: int, user: User, exercise: Exercise, submissionTime: int, grades: seq<real>)

  /** An exercise definition: id, name, due date (an opaque instant) and its questions in order. */
  class Exercise {
    var id: int
    var name: string
    var dueDate: int
    var questions: seq<Question>

    /** A new exercise stores its id, name and due date and has no questions yet. */
    constructor (id: int, name: string, dueDate: int)
      ensures this.id == id && this.name == name && this.dueDate == dueDate
      ensures questions == []
    {
      this.id := id;
      this.name := name;
      this.dueDate := dueDate;
      questions := [];
    }

    /** Appends one new question; the header fields and all earlier questions stay as they were. */
    method AddQuestion(name: string, desc: string, points: int)
      modifies this`questions
      ensures questions == old(questions) + [Question(name, desc, points)]
      ensures |questions| == |old(questions)| + 1
      ensures questions[|questions| - 1] == Question(name, desc, points)
      ensures questions[..|old(questions)|] == old(questions)
      ensures id == old(id) && this.name == old(this.name) && dueDate == old(dueDate)
    {
      questions := questions + [Question(name, desc, points)];
    }
  }

  /**
   * The question list after AddQuestion has been called once per element of `calls`,
   * in that order, starting from the list `qs`: each call appends its question at the end.
   */
  function QuestionsAfter(qs: seq<Question>, calls: seq<Question>): seq<Question>
    decreases |calls|
  {
    if calls == [] then qs else QuestionsAfter(qs + [calls[0]], calls[1..])
  }

  /**
   * A sequence of AddQuestion calls leaves the earlier questions in front and the new
   * ones behind them in call order; on a new exercise the list is exactly the calls.
   */
  lemma {:induction false} QuestionsInCallOrder(qs: seq<Question>, calls: seq<Question>)
    ensures QuestionsAfter(qs, calls) == qs + calls
    ensures |QuestionsAfter(qs, calls)| == |qs| + |calls|
    ensures forall k :: 0 <= k < |calls| ==> QuestionsAfter(qs, calls)[|qs| + k] == calls[k]
    decreases |calls|
  {
    if calls != [] {
      QuestionsInCallOrder(qs + [calls[0]], calls[1..]);
      assert qs + [calls[0]] + calls[1..] == qs + calls;
    }
  }
}
