/**
 * The request handlers of the trivia service that only read the database, each
 * a function of a snapshot of the two tables and the parsed request arguments.
 * A handler's `abort(code)` (or an exception re-raised to Flask) is a `Failure`.
 */
module Handlers {
  import opened Wrappers
  import opened Text
  import opened Models
  import opened Query
  import opened Pagination
  import opened Errors

  /** The part of a success body after `'success': True`. */
  datatype Payload =
    | CategoryList(types: seq<string>)
      // `categories` is `None` when the body has no `categories` key;
      // `currentCategory` is `None` when `current_category` is null.
    | QuestionPage(questions: seq<Question>, categories: Option<map<int, string>>,
                   totalQuestions: nat, currentCategory: Option<int>)
    | Confirmation(message: string)
    | QuizQuestion(question: Question)

  datatype Response = Success(status: int, payload: Payload) | Failure(error: ErrorKind)

  /** The HTTP status the client sees. */
  function StatusCode(r: Response): int {
    if r.Success? then r.status else Code(r.error)
  }

  /** GET /api/v1/categories */
  function ListCategories(cats: seq<Category>): (r: Response)
    ensures r.Failure? <==> cats == []
    ensures r.Failure? ==> r.error == NotFound
    ensures r.Success? ==> r.status == 200 && r.payload.CategoryList?
    ensures r.Success? ==>
      |r.payload.types| == |cats| &&
      forall i :: 0 <= i < |cats| ==> r.payload.types[i] == cats[i].typeName
  {
    if cats == [] then Failure(NotFound) else Success(200, CategoryList(CategoryTypes(cats)))
  }

  /**
   * The shared tail of the three paginated handlers: cut page `page` out of the
   * selection and `abort(404)` when that page is empty.
   */
  function PageOf(selection: seq<Question>, page: int,
                  categories: Option<map<int, string>>, currentCategory: Option<int>): (r: Response)
    ensures r.Failure? ==> r.error == NotFound
    ensures page >= 1 ==> (r.Success? <==> page <= PageCount(|selection|))
    ensures r.Success? ==>
      r.status == 200 &&
      r.payload == QuestionPage(Paginate(selection, page), categories, |selection|, currentCategory)
    ensures r.Success? ==> 1 <= |r.payload.questions| <= QUESTIONS_PER_PAGE
  {
    var current := Paginate(selection, page);
    assert page >= 1 ==> (current != [] <==> page <= PageCount(|selection|)) by {
      if page >= 1 { PageNonEmptyIff(selection, page); }
    }
    if current == [] then Failure(NotFound)
    else Success(200, QuestionPage(current, categories, |selection|, currentCategory))
  }

  /** The questions a response shows; none for a failure. */
  function ShownQuestions(r: Response): seq<Question> {
    if r.Success? && r.payload.QuestionPage? then r.payload.questions else []
  }

  /** Whatever the outcome, a paginated response shows exactly page `page` of the selection. */
  lemma ShownIsPage(selection: seq<Question>, page: int,
                    categories: Option<map<int, string>>, currentCategory: Option<int>)
    ensures ShownQuestions(PageOf(selection, page, categories, currentCategory)) == Paginate(selection, page)
  {
  }

  /** GET /api/v1/questions?page=page */
  function ListQuestions(qs: seq<Question>, cats: seq<Category>, page: int): (r: Response)
    ensures r.Failure? ==> r.error == NotFound
    ensures qs == [] ==> r.Failure?
    ensures page >= 1 ==> (r.Success? <==> page <= PageCount(|qs|))
    ensures r.Success? ==> r.status == 200 && r.payload.QuestionPage?
    ensures r.Success? ==>
      1 <= |r.payload.questions| <= QUESTIONS_PER_PAGE &&
      SortedById(r.payload.questions) &&
      (forall q :: q in r.payload.questions ==> q in qs) &&
      r.payload.totalQuestions == |qs| &&
      r.payload.categories == Some(CategoryMap(cats)) &&
      r.payload.currentCategory == None
  {
    var selection := SortById(qs);
    SortByIdMembersAll(qs);
    PageOfSortedIsSorted(selection, page);
    PageOf(selection, page, Some(CategoryMap(cats)), None)
  }

  lemma SortByIdMembersAll(qs: seq<Question>)
    ensures forall q :: q in SortById(qs) ==> q in qs
  {
    forall q | q in SortById(qs) ensures q in qs {
      SortByIdMembers(qs, q);
    }
  }

  lemma PageOfSortedIsSorted(selection: seq<Question>, page: int)
    requires SortedById(selection)
    ensures SortedById(Paginate(selection, page))
  {
    var n := |selection|;
    var start := (page - 1) * QUESTIONS_PER_PAGE;
    var lo := SliceBound(n, start);
    var r := Paginate(selection, page);
    assert r == [] || r == selection[lo..lo + |r|];
  }

  /** On success, list-questions' `categories` sends each category's id to that category's type. */
  lemma ListQuestionsCategories(qs: seq<Question>, cats: seq<Category>, page: int, i: int)
    requires UniqueCategoryIds(cats) && 0 <= i < |cats|
    ensures var r := ListQuestions(qs, cats, page);
      r.Success? ==>
        cats[i].id in r.payload.categories.value &&
        r.payload.categories.value[cats[i].id] == cats[i].typeName
  {
    CategoryMapAt(cats, i);
  }

  /** list-questions shows page `page` of the table sorted by id. */
  lemma ListShownIsPage(qs: seq<Question>, cats: seq<Category>, page: int)
    ensures ShownQuestions(ListQuestions(qs, cats, page)) == Paginate(SortById(qs), page)
  {
    ShownIsPage(SortById(qs), page, Some(CategoryMap(cats)), None);
  }

  /** On page `page >= 1`, list-questions shows exactly the window `[(page-1)*10, page*10)` of the id-ordered table. */
  lemma ListQuestionsWindow(qs: seq<Question>, cats: seq<Category>, page: int)
    requires page >= 1
    ensures Min((page - 1) * QUESTIONS_PER_PAGE, |qs|) <= Min(page * QUESTIONS_PER_PAGE, |qs|)
    ensures ShownQuestions(ListQuestions(qs, cats, page)) ==
            SortById(qs)[Min((page - 1) * QUESTIONS_PER_PAGE, |qs|)..Min(page * QUESTIONS_PER_PAGE, |qs|)]
  {
    PageWindow(SortById(qs), page);
    ListShownIsPage(qs, cats, page);
  }

  /** The questions shown by list-questions on pages 1..k, laid end to end. */
  function ListedUpTo(qs: seq<Question>, cats: seq<Category>, k: nat): seq<Question> {
    if k == 0 then [] else ListedUpTo(qs, cats, k - 1) + ShownQuestions(ListQuestions(qs, cats, k))
  }

  /** Reading list-questions page by page, from 1 to the last page, yields the whole table ordered by id. */
  lemma {:induction false} ListedPagesRebuild(qs: seq<Question>, cats: seq<Category>)
    ensures ListedUpTo(qs, cats, PageCount(|qs|)) == SortById(qs)
  {
    ListedIsPages(qs, cats, PageCount(|qs|));
    AllPagesRebuild(SortById(qs));
  }

  lemma {:induction false} ListedIsPages(qs: seq<Question>, cats: seq<Category>, k: nat)
    ensures ListedUpTo(qs, cats, k) == PagesUpTo(SortById(qs), k)
  {
    if k > 0 {
      ListedIsPages(qs, cats, k - 1);
      ListShownIsPage(qs, cats, k);
    }
  }

  /** For a table whose ids increase in storage order (as autoincrement keeps them), the pages follow storage order. */
  lemma ListQuestionsInStoreOrder(qs: seq<Question>, cats: seq<Category>, page: int)
    requires IdsIncreasing(qs)
    ensures ShownQuestions(ListQuestions(qs, cats, page)) == Paginate(qs, page)
  {
    SortByIdOfIncreasing(qs);
    ListShownIsPage(qs, cats, page);
  }

  /** POST /api/v1/questions/search with body `{"searchTerm": term}`; an absent term makes `"%" + None` raise, which Flask turns into a 500. */
  function SearchQuestions(qs: seq<Question>, searchTerm: Option<string>, page: int): (r: Response)
    ensures searchTerm.None? ==> r == Failure(InternalServerError)
    ensures searchTerm.Some? && r.Failure? ==> r.error == NotFound
    ensures searchTerm.Some? && page >= 1 ==>
      (r.Success? <==> page <= PageCount(|Select(QuestionContains(searchTerm.value), qs)|))
    ensures r.Success? ==> searchTerm.Some? && r.status == 200 && r.payload.QuestionPage?
    ensures r.Success? ==>
      1 <= |r.payload.questions| <= QUESTIONS_PER_PAGE &&
      (forall q :: q in r.payload.questions ==> q in qs && ContainsIgnoringCase(q.question, searchTerm.value)) &&
      r.payload.categories == None &&
      r.payload.currentCategory == None
  {
    match searchTerm
    case None => Failure(InternalServerError)
    case Some(term) => PageOf(Select(QuestionContains(term), qs), page, None, None)
  }

  /** `total_questions` of a search counts exactly the distinct questions whose text contains the term, ignoring case. */
  lemma SearchTotalCounts(qs: seq<Question>, term: string, page: int)
    requires UniqueIds(qs)
    ensures var r := SearchQuestions(qs, Some(term), page);
      r.Success? ==> r.payload.totalQuestions == |Satisfying(QuestionContains(term), qs)|
  {
    SelectCount(QuestionContains(term), qs);
  }

  /** Search terms that differ only in letter case give the same response. */
  lemma SearchIgnoresCase(qs: seq<Question>, t1: string, t2: string, page: int)
    requires Lower(t1) == Lower(t2)
    ensures SearchQuestions(qs, Some(t1), page) == SearchQuestions(qs, Some(t2), page)
  {
    SelectSameTerm(qs, t1, t2);
  }

  lemma {:induction false} SelectSameTerm(qs: seq<Question>, t1: string, t2: string)
    requires Lower(t1) == Lower(t2)
    ensures Select(QuestionContains(t1), qs) == Select(QuestionContains(t2), qs)
  {
    if qs != [] {
      SelectSameTerm(qs[1..], t1, t2);
    }
  }

  /** GET /api/v1/categories/{categoryId}/questions?page=page. The category row is looked up but never used. */
  function QuestionsByCategory(qs: seq<Question>, cats: seq<Category>, categoryId: int, page: int): (r: Response)
    ensures r.Failure? ==> r.error == NotFound
    ensures page >= 1 ==>
      (r.Success? <==> page <= PageCount(|Select(CategoryIs(categoryId), qs)|))
    ensures r.Success? ==> r.status == 200 && r.payload.QuestionPage?
    ensures r.Success? ==>
      1 <= |r.payload.questions| <= QUESTIONS_PER_PAGE &&
      (forall q :: q in r.payload.questions ==> q in qs && q.category == categoryId) &&
      r.payload.categories == None &&
      r.payload.currentCategory == Some(categoryId)
  {
    PageOf(Select(CategoryIs(categoryId), qs), page, None, Some(categoryId))
  }

  /** `total_questions` of the category listing counts exactly the distinct questions of that category. */
  lemma ByCategoryTotalCounts(qs: seq<Question>, cats: seq<Category>, categoryId: int, page: int)
    requires UniqueIds(qs)
    ensures var r := QuestionsByCategory(qs, cats, categoryId, page);
      r.Success? ==> r.payload.totalQuestions == |Satisfying(CategoryIs(categoryId), qs)|
  {
    SelectCount(CategoryIs(categoryId), qs);
  }

  /** A category with no questions gives 404 on every page, whether or not the category exists. */
  lemma EmptyCategoryNotFound(qs: seq<Question>, cats: seq<Category>, categoryId: int, page: int)
    requires forall q :: q in qs ==> q.category != categoryId
    ensures QuestionsByCategory(qs, cats, categoryId, page) == Failure(NotFound)
  {
    SelectNone(CategoryIs(categoryId), qs);
  }

  /** The response does not depend on the categories table at all. */
  lemma ByCategoryIgnoresCategories(qs: seq<Question>, cats1: seq<Category>, cats2: seq<Category>,
                                    categoryId: int, page: int)
    ensures QuestionsByCategory(qs, cats1, categoryId, page) == QuestionsByCategory(qs, cats2, categoryId, page)
  {
  }

  /** A question may be served in a quiz round: not yet seen, and of the category unless the category id is 0 ("all"). */
  predicate Eligible(q: Question, previousQuestions: seq<int>, categoryId: int) {
    q.id !in previousQuestions && (categoryId != 0 ==> q.category == categoryId)
  }

  /**
   * POST /api/v1/quizzes with body `{"previous_questions": ..., "quiz_category": {"id": ...}}`.
   * `previousQuestions` is `None` when the key is absent, and `notin_(None)` raises.
   * `quizCategory` is `None` when `int(quiz_category["id"])` raises. The draw is
   * `.first()`, not random; with no candidate, `None.format()` raises and Flask answers 500.
   */
  function PlayQuiz(qs: seq<Question>, previousQuestions: Option<seq<int>>, quizCategory: Option<int>): (r: Response)
    ensures r.Failure? ==> r.error == InternalServerError
    ensures previousQuestions.None? || quizCategory.None? ==> r.Failure?
    ensures previousQuestions.Some? && quizCategory.Some? ==>
      (r.Failure? <==> forall q :: q in qs ==> !Eligible(q, previousQuestions.value, quizCategory.value))
    ensures r.Success? ==>
      previousQuestions.Some? && quizCategory.Some? && r.status == 200 && r.payload.QuizQuestion? &&
      r.payload.question in qs &&
      r.payload.question.id !in previousQuestions.value &&
      (quizCategory.value != 0 ==> r.payload.question.category == quizCategory.value)
  {
    match (previousQuestions, quizCategory)
    case (None, _) => Failure(InternalServerError)
    case (_, None) => Failure(InternalServerError)
    case (Some(seen), Some(categoryId)) =>
      var unseen := Select(IdNotIn(seen), qs);
      var candidates := if categoryId != 0 then Select(CategoryIs(categoryId), unseen) else unseen;
      match First(candidates)
      case None => Failure(InternalServerError)
      case Some(q) => assert q in candidates; Success(200, QuizQuestion(q))
  }

  /** The quiz serves the earliest eligible question in table order. */
  lemma QuizDrawsEarliest(qs: seq<Question>, previousQuestions: seq<int>, categoryId: int, i: int)
    requires 0 <= i < |qs| && Eligible(qs[i], previousQuestions, categoryId)
    requires forall j :: 0 <= j < i ==> !Eligible(qs[j], previousQuestions, categoryId)
    ensures PlayQuiz(qs, Some(previousQuestions), Some(categoryId)) == Success(200, QuizQuestion(qs[i]))
  {
    var unseen := IdNotIn(previousQuestions);
    if categoryId != 0 {
      SelectThenSelect(unseen, CategoryIs(categoryId), qs);
      SelectHeadIsEarliest(And(unseen, CategoryIs(categoryId)), qs, i);
    } else {
      SelectHeadIsEarliest(unseen, qs, i);
    }
  }
}
