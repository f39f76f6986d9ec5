/**
 * The database as the handlers that change it see it: the two tables, held in
 * memory, and the `questions` id sequence. `delete_a_question` and
 * `add_a_question` are methods that update the tables in place.
 */
module Store {
  import opened Wrappers
  import opened Models
  import opened Query
  import opened Pagination
  import opened Errors
  import opened Handlers

  const DELETED_MESSAGE := "Question successfully deleted"
  const ADDED_MESSAGE := "Question successfully added"

  /** The JSON body of POST /api/v1/questions; a field is `None` when the key is absent or null. */
  datatype NewQuestion = NewQuestion(question: Option<string>, answer: Option<string>,
                                     category: Option<int>, difficulty: Option<int>)

  /** Python truthiness of the two kinds of field: a non-empty string, a non-zero integer. */
  predicate TruthyText(v: Option<string>) { v.Some? && v.value != "" }
  predicate TruthyNumber(v: Option<int>) { v.Some? && v.value != 0 }

  /** A Python value is falsy when it is `None` or the zero of its type (`""`, `0`). */
  predicate Falsy<T(==)>(v: Option<T>, zero: T) { v == None || v == Some(zero) }

  /**
   * The validation `question and answer and category and difficulty`: the body is
   * rejected exactly when some field is falsy, and an accepted body has four present
   * fields, non-empty texts and non-zero numbers.
   */
  predicate IsComplete(body: NewQuestion): (ok: bool)
    ensures !ok <==> Falsy(body.question, "") || Falsy(body.answer, "") ||
                     Falsy(body.category, 0) || Falsy(body.difficulty, 0)
    ensures ok ==> body.question.Some? && |body.question.value| > 0 && body.answer.Some? && |body.answer.value| > 0
    ensures ok ==> body.category.Some? && body.category.value != 0 && body.difficulty.Some? && body.difficulty.value != 0
  {
    TruthyText(body.question) && TruthyText(body.answer) &&
    TruthyNumber(body.category) && TruthyNumber(body.difficulty)
  }

  class TriviaDb {
    var questions: seq<Question>
    var categories: seq<Category>
    /** The next value of the `questions.id` autoincrement sequence. */
    var nextId: int

    /** Ids are handed out in increasing order and never reused. */
    ghost predicate Valid()
      reads this
    {
      IdsIncreasing(questions) && forall q :: q in questions ==> q.id < nextId
    }

    /** A fresh database: seeded categories, no questions, ids starting at 1. */
    constructor (categories: seq<Category>)
      ensures Valid()
      ensures this.categories == categories && questions == [] && nextId == 1
    {
      this.categories := categories;
      questions := [];
      nextId := 1;
    }

    /** DELETE /api/v1/questions/{questionId} */
    method DeleteQuestion(questionId: int) returns (r: Response)
      requires Valid()
      modifies this
      ensures Valid()
      ensures categories == old(categories) && nextId == old(nextId)
      ensures questions == Without(old(questions), questionId)
      ensures !HasId(questions, questionId)
      ensures HasId(old(questions), questionId) ==>
        r == Success(200, Confirmation(DELETED_MESSAGE)) && |questions| == |old(questions)| - 1
      ensures !HasId(old(questions), questionId) ==>
        r == Failure(NotFound) && questions == old(questions)
    {
      DeleteFacts(questions, questionId);
      // Look up the row with this id; ids are unique, so there is at most one.
      match OneOrNone(Select(IdIs(questionId), questions)) {
        case NoRow =>
          r := Failure(NotFound);
        case OneRow(row) =>
          // Remove that row from the table.
          questions := Without(questions, questionId);
          r := Success(200, Confirmation(DELETED_MESSAGE));
        case ManyRows =>
          assert false;
      }
    }

    /** POST /api/v1/questions: the body is validated before anything is inserted. */
    method AddQuestion(body: NewQuestion) returns (r: Response)
      requires Valid()
      modifies this
      ensures Valid()
      ensures categories == old(categories)
      ensures !IsComplete(body) ==>
        r == Failure(BadRequest) && questions == old(questions) && nextId == old(nextId)
      ensures IsComplete(body) ==>
        r == Success(201, Confirmation(ADDED_MESSAGE)) &&
        !HasId(old(questions), old(nextId)) &&
        questions == old(questions) + [Question(old(nextId), body.question.value, body.answer.value,
                                                body.category.value, body.difficulty.value)] &&
        nextId == old(nextId) + 1
    {
      if !IsComplete(body) {
        return Failure(BadRequest);
      }
      // Insert the row with the next id of the sequence.
      var q := Question(nextId, body.question.value, body.answer.value, body.category.value, body.difficulty.value);
      assert forall k :: 0 <= k < |questions| ==> questions[k] in questions;
      questions := questions + [q];
      nextId := nextId + 1;
      r := Success(201, Confirmation(ADDED_MESSAGE));
    }
  }

  /** What deleting `id` does to an id-increasing table, and why `one_or_none` finds at most one row. */
  lemma DeleteFacts(s: seq<Question>, id: int)
    requires IdsIncreasing(s)
    ensures |Select(IdIs(id), s)| <= 1
    ensures Select(IdIs(id), s) != [] <==> HasId(s, id)
    ensures IdsIncreasing(Without(s, id)) && !HasId(Without(s, id), id)
    ensures forall q :: q in Without(s, id) ==> q in s
    ensures HasId(s, id) ==> |Without(s, id)| == |s| - 1
    ensures !HasId(s, id) ==> Without(s, id) == s
  {
    IncreasingIsUnique(s);
    AtMostOneWithId(s, id);
    SelectKeepsIncreasing(Not(IdIs(id)), s);
    if HasId(s, id) {
      var i :| 0 <= i < |s| && s[i].id == id;
      WithoutPresent(s, i);
    } else {
      WithoutAbsent(s, id);
    }
    var w := Without(s, id);
    assert forall k :: 0 <= k < |w| ==> w[k] in w;
  }

  /** After deleting a present question, list-questions no longer shows it and reports one question fewer, on every page. */
  lemma DeleteThenList(qs: seq<Question>, cats: seq<Category>, i: int, page: int)
    requires UniqueIds(qs) && 0 <= i < |qs|
    ensures var r := ListQuestions(Without(qs, qs[i].id), cats, page);
      r.Success? ==>
        r.payload.totalQuestions == |qs| - 1 &&
        forall q :: q in r.payload.questions ==> q.id != qs[i].id
  {
    WithoutPresent(qs, i);
  }

  /** After adding a question, list-questions reports one question more, and the new question is on the last page. */
  lemma AddThenList(qs: seq<Question>, cats: seq<Category>, q: Question)
    requires IdsIncreasing(qs) && forall p :: p in qs ==> p.id < q.id
    ensures var r := ListQuestions(qs + [q], cats, PageCount(|qs| + 1));
      r.Success? && r.payload.totalQuestions == |qs| + 1 && q in r.payload.questions
  {
    var s := qs + [q];
    assert IdsIncreasing(s) by {
      assert forall k :: 0 <= k < |qs| ==> qs[k] in qs;
    }
    var last := PageCount(|s|);
    ListQuestionsInStoreOrder(s, cats, last);
    PageNonEmptyIff(s, last);
    PageWindow(s, last);
    assert s[|s| - 1] == q;
  }
}
