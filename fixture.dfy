/**
 * The test suite's database fixture (one category "Math" and one question about
 * four by four) and the responses its test cases expect.
 */
module Fixture {
  import opened Wrappers
  import opened Models
  import opened Query
  import opened Errors
  import opened Handlers
  import opened Store

  const MATH := Category(1, "Math")
  const FOUR_BY_FOUR := Question(1, "What is four by four?", "Sixteen", 1, 2)

  /** The fixture's tables: the first category and the first question get id 1. */
  function Categories(): seq<Category> { [MATH] }
  function Questions(): seq<Question> { [FOUR_BY_FOUR] }

  /** Listing categories and questions succeeds, with one question in all. */
  lemma ListingsSucceed()
    ensures ListCategories(Categories()) == Success(200, CategoryList(["Math"]))
    ensures ListQuestions(Questions(), Categories(), 1) ==
            Success(200, QuestionPage([FOUR_BY_FOUR], Some(map[1 := "Math"]), 1, None))
  {
    assert SortById(Questions()) == Questions();
    assert CategoryMap(Categories()) == map[1 := "Math"];
  }

  lemma LowerQuestionText()
    ensures Text.Lower(FOUR_BY_FOUR.question) == "what is four by four?"
  {
  }

  lemma FourOccurs()
    ensures Text.ContainsIgnoringCase(FOUR_BY_FOUR.question, "four")
    ensures Text.ContainsIgnoringCase(FOUR_BY_FOUR.question, "FOUR")
  {
    LowerQuestionText();
    assert Text.Lower("four") == "four" && Text.Lower("FOUR") == "four";
    assert Text.OccursAt("what is four by four?", "four", 8);
    Text.ContainsIffOccurs("what is four by four?", "four");
  }

  lemma FredAbsent()
    ensures !Text.ContainsIgnoringCase(FOUR_BY_FOUR.question, "fred")
  {
    LowerQuestionText();
    assert Text.Lower("fred") == "fred";
    assert 'd' !in "what is four by four?";
    Text.MissingCharNeverContained("what is four by four?", "fred", 3);
  }

  /** "four" finds the question, in any letter case; "fred" finds nothing and gives 404; no term gives 500. */
  lemma SearchScenario()
    ensures SearchQuestions(Questions(), Some("four"), 1) ==
            Success(200, QuestionPage([FOUR_BY_FOUR], None, 1, None))
    ensures SearchQuestions(Questions(), Some("FOUR"), 1) == SearchQuestions(Questions(), Some("four"), 1)
    ensures SearchQuestions(Questions(), Some("fred"), 1) == Failure(NotFound)
    ensures SearchQuestions(Questions(), None, 1) == Failure(InternalServerError)
  {
    FourOccurs();
    FredAbsent();
    assert Select(QuestionContains("four"), Questions()) == [FOUR_BY_FOUR];
    assert Select(QuestionContains("FOUR"), Questions()) == [FOUR_BY_FOUR];
    assert Select(QuestionContains("fred"), Questions()) == [];
  }

  /** The failing test cases see status 404 and the body `{"success": false, "message": "Resource not found"}`. */
  lemma NotFoundResponses()
    ensures StatusCode(SearchQuestions(Questions(), Some("fred"), 1)) == 404
    ensures StatusCode(QuestionsByCategory(Questions(), Categories(), 2, 1)) == 404
    ensures StatusCode(ListQuestions([], Categories(), 1)) == 404
    ensures Body(NotFound) == ErrorBody(Some(false), "Resource not found")
  {
    SearchScenario();
    CategoryScenario();
  }

  /** Category 1 lists the question; category 2, which does not exist, gives 404. */
  lemma CategoryScenario()
    ensures QuestionsByCategory(Questions(), Categories(), 1, 1) ==
            Success(200, QuestionPage([FOUR_BY_FOUR], None, 1, Some(1)))
    ensures QuestionsByCategory(Questions(), Categories(), 2, 1) == Failure(NotFound)
  {
    assert Select(CategoryIs(1), Questions()) == [FOUR_BY_FOUR];
    EmptyCategoryNotFound(Questions(), Categories(), 2, 1);
  }

  /**
   * A round over all categories serves the question; once it has been seen, for a category
   * without questions, or without `previous_questions`, the round fails with 500.
   */
  lemma QuizScenario()
    ensures PlayQuiz(Questions(), Some([]), Some(0)) == Success(200, QuizQuestion(FOUR_BY_FOUR))
    ensures PlayQuiz(Questions(), Some([1]), Some(0)) == Failure(InternalServerError)
    ensures PlayQuiz(Questions(), Some([]), Some(2)) == Failure(InternalServerError)
    ensures PlayQuiz(Questions(), None, Some(0)) == Failure(InternalServerError)
  {
    QuizDrawsEarliest(Questions(), [], 0, 0);
  }

  /**
   * The delete test cases, against a database built like the fixture: deleting
   * id 2 gives 404 and changes nothing, deleting id 1 succeeds, and afterwards
   * list-questions gives 404 because the table is empty.
   */
  method DeleteScenario() returns (missing: Response, deleted: Response, listed: Response)
    ensures missing == Failure(NotFound)
    ensures deleted == Success(200, Confirmation(DELETED_MESSAGE))
    ensures listed == Failure(NotFound)
  {
    var db := new TriviaDb(Categories());
    var seeded := db.AddQuestion(NewQuestion(Some(FOUR_BY_FOUR.question), Some(FOUR_BY_FOUR.answer), Some(1), Some(2)));
    assert db.questions == Questions();
    assert !HasId(db.questions, 2);
    missing := db.DeleteQuestion(2);
    assert HasId(db.questions, 1) by {
      assert db.questions[0].id == 1;
    }
    deleted := db.DeleteQuestion(1);
    assert db.questions == [];
    listed := ListQuestions(db.questions, db.categories, 1);
  }

  /** Adding a complete question succeeds even for a category id that no category has. */
  method AddScenario() returns (added: Response, count: nat)
    ensures added == Success(201, Confirmation(ADDED_MESSAGE))
    ensures count == 1
  {
    var db := new TriviaDb(Categories());
    added := db.AddQuestion(NewQuestion(Some("Is computer Science good?"), Some("Yes its good"), Some(2), Some(2)));
    count := |db.questions|;
  }

  /** A request missing any required field, or carrying "" or 0 in one, is refused before the table is touched. */
  method IncompleteAddScenario() returns (emptyText: Response, zeroDifficulty: Response, absentAnswer: Response, count: nat)
    ensures emptyText == Failure(BadRequest)
    ensures zeroDifficulty == Failure(BadRequest)
    ensures absentAnswer == Failure(BadRequest)
    ensures count == 0
  {
    var db := new TriviaDb(Categories());
    emptyText := db.AddQuestion(NewQuestion(Some(""), Some("Sixteen"), Some(1), Some(2)));
    zeroDifficulty := db.AddQuestion(NewQuestion(Some("What is four by four?"), Some("Sixteen"), Some(1), Some(0)));
    absentAnswer := db.AddQuestion(NewQuestion(Some("What is four by four?"), None, Some(1), Some(2)));
    count := |db.questions|;
  }
}
