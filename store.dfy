/** The question table as shared state, and the two handlers that change it:
    DELETE /questions/{id} and POST /questions (create, or search). */
module QuestionStore {
  import opened Entities
  import opened Queries
  import opened Handlers

  /** The JSON body of POST /questions; a key absent from the body is None. */
  datatype QuestionBody = QuestionBody(
    question: Option<string>,
    answer: Option<string>,
    category: Option<int>,
    difficulty: Option<int>,
    search: Option<string>)

  /** `if search:` a present, non-empty term selects search mode; an absent or
      empty one falls through to create mode. */
  predicate SearchMode(body: QuestionBody) {
    body.search.Some? && body.search.value != ""
  }

  /** Whether `question.insert()` succeeds: the model takes the database to
      accept a row exactly when all four columns are given. */
  predicate InsertAccepted(body: QuestionBody) {
    body.question.Some? && body.answer.Some? && body.category.Some? && body.difficulty.Some?
  }

  /** The question table. Rows are kept in id order, and `nextId` is the id
      sequence's next value, above the id of every row in the table. */
  class Store {
    var questions: seq<Question>
    var nextId: int

    ghost predicate Valid()
      reads this
    {
      IdOrdered(questions) && forall q :: q in questions ==> q.id < nextId
    }

    constructor (rows: seq<Question>, next: int)
      requires IdOrdered(rows) && forall q :: q in rows ==> q.id < next
      ensures Valid() && questions == rows && nextId == next
    {
      questions := rows;
      nextId := next;
    }

    /** DELETE /questions/{id}: 404 when no row has the id, otherwise the row with
        that id, and only it, is removed. */
    method DeleteQuestion(questionId: int) returns (r: Response)
      requires Valid()
      modifies this
      ensures Valid() && nextId == old(nextId)
      ensures r == NotFound || r == Deleted
      ensures r == NotFound <==> forall q :: q in old(questions) ==> q.id != questionId
      ensures r == NotFound ==> questions == old(questions)
      ensures r == Deleted ==>
                && |questions| == |old(questions)| - 1
                && (forall q :: q in questions <==> q in old(questions) && q.id != questionId)
                && exists i :: 0 <= i < |old(questions)| && old(questions)[i].id == questionId
                                 && questions == old(questions)[..i] + old(questions)[i + 1..]
    {
      match IndexOf(questions, questionId)
      case None =>
        r := NotFound;
      case Some(i) =>
        RemoveAt(questions, i);
        questions := questions[..i] + questions[i + 1..];
        r := Deleted;
    }

    /** POST /questions. In search mode the table is unchanged and the answer is
        the search; in create mode an accepted row is appended under the next
        id, and a rejected one gives 422. */
    method CreateQuestion(body: QuestionBody, pageArg: Option<int>) returns (r: Response)
      requires Valid()
      modifies this
      ensures Valid()
      ensures body.search.Some? && body.search.value != "" ==>
                && r == SearchQuestions(old(questions), body.search.value, pageArg)
                && questions == old(questions) && nextId == old(nextId)
      ensures (body.search.None? || body.search == Some(""))
              && body.question.Some? && body.answer.Some? && body.category.Some? && body.difficulty.Some? ==>
                && r == Created(old(nextId), |old(questions)| + 1)
                && questions == old(questions) + [Question(old(nextId), body.question.value, body.answer.value,
                                                           body.category.value, body.difficulty.value)]
                && nextId == old(nextId) + 1
      ensures (body.search.None? || body.search == Some(""))
              && (body.question.None? || body.answer.None? || body.category.None? || body.difficulty.None?) ==>
                r == Unprocessable && questions == old(questions)
    {
      if SearchMode(body) {
        r := SearchQuestions(questions, body.search.value, pageArg);
      } else if InsertAccepted(body) {
        var question := Question(nextId, body.question.value, body.answer.value,
                                 body.category.value, body.difficulty.value);
        ghost var before := questions;
        questions := questions + [question];
        nextId := nextId + 1;
        assert forall i :: 0 <= i < |before| ==> before[i] in before;
        r := Created(question.id, |questions|);
      } else {
        r := Unprocessable;
      }
    }
  }

  /** The test suite's create and delete scenarios, against a store of two
      questions. */
  method Scenario() {
    var store := new Store([Question(1, "q1", "a1", 3, 2), Question(2, "q2", "a2", 4, 2)], 3);

    var missing := QuestionBody(Some("q3"), Some("a3"), None, None, None);
    var r := store.CreateQuestion(missing, None);
    assert r == Unprocessable && |store.questions| == 2;

    var wrongKey := QuestionBody(None, None, None, None, None);
    r := store.CreateQuestion(wrongKey, None);
    assert r == Unprocessable && |store.questions| == 2;

    var full := QuestionBody(Some("q3"), Some("a3"), Some(4), Some(2), None);
    r := store.CreateQuestion(full, None);
    assert r.Created? && r.totalQuestions == 3 && store.questions[2].id == r.created;

    r := store.DeleteQuestion(r.created);
    assert r == Deleted && |store.questions| == 2;
    assert forall q :: q in store.questions ==> q.id < 3;

    r := store.DeleteQuestion(5000);
    assert r == NotFound && |store.questions| == 2;
  }
}
