/** The request handlers that only read the store: the category listing, the
    paginated question listing, search, listing by category and quiz
    selection, with the two error handlers' response shapes. */
module Handlers {
  import opened Entities
  import opened Pagination
  import opened Queries

  /** The JSON bodies the handlers return; every success case carries
      `"success": true`, the last two are the aborts handled below. */
  datatype Response =
    | CategoryList(categories: map<int, string>, totalCategories: nat)
    | QuestionList(questions: seq<Record>, totalQuestions: nat, currentCategory: string, categories: map<int, string>)
    | Deleted
    | SearchResults(questions: seq<Record>, totalQuestions: nat)
    | Created(created: int, totalQuestions: nat)
    | CategoryQuestions(questions: seq<Record>, totalQuestions: nat, category: string)
    | QuizQuestion(question: Option<Record>)
    | NotFound
    | Unprocessable

  /** The body `not_found` and `unprocessable` return. */
  datatype ErrorBody = ErrorBody(success: bool, error: int, message: string)

  /** The HTTP status of a response: the two error cases carry their own
      code, every handler's normal answer is 200. */
  function StatusCode(r: Response): int {
    match r
    case NotFound => 404
    case Unprocessable => 422
    case _ => 200
  }

  /** `@app.errorhandler(404)` and `@app.errorhandler(422)`; None for a response
      no error handler produces. */
  function ErrorHandler(r: Response): (body: Option<ErrorBody>)
    ensures body.Some? <==> r.NotFound? || r.Unprocessable?
    ensures body.Some? ==> !body.value.success
  {
    match r
    case NotFound => Some(ErrorBody(false, 404, "resource not found"))
    case Unprocessable => Some(ErrorBody(false, 422, "unprocessable"))
    case _ => None
  }

  /** Exactly the non-200 responses have an error body, which reports failure
      and its own status code. */
  lemma ErrorBodiesMatchStatus(r: Response)
    ensures ErrorHandler(r).Some? <==> StatusCode(r) != 200
    ensures ErrorHandler(r).Some? ==> !ErrorHandler(r).value.success && ErrorHandler(r).value.error == StatusCode(r)
    ensures StatusCode(r) == 404 ==> ErrorHandler(r).value.message == "resource not found"
    ensures StatusCode(r) == 422 ==> ErrorHandler(r).value.message == "unprocessable"
  {
  }

  /** GET /categories. It reads no query argument, so `?page=5` changes nothing. */
  function GetCategories(cats: seq<Category>): (r: Response)
    ensures r.CategoryList? && StatusCode(r) == 200
    ensures r.categories.Keys == CategoryIds(cats)
    ensures r.totalCategories == |cats|
  {
    CategoryList(CategoryMap(cats), |cats|)
  }

  /** Over the category table (distinct ids), each id is mapped to its own
      label and there is one entry per row. */
  lemma CategoriesOfTable(cats: seq<Category>)
    requires DistinctCategoryIds(cats)
    ensures var r := GetCategories(cats);
            && (forall c :: c in cats ==> c.id in r.categories && r.categories[c.id] == c.kind)
            && |r.categories| == r.totalCategories
  {
    CategoryMapOfTable(cats);
  }

  /** GET /questions?page=N. `Category.query.first()` must find a row, so the
      category table is not empty. */
  function GetQuestions(questions: seq<Question>, cats: seq<Category>, pageArg: Option<int>): (r: Response)
    requires |cats| > 0
    ensures r.QuestionList? && StatusCode(r) == 200
    ensures r.totalQuestions == |questions|
    ensures |r.questions| <= QuestionsPerShelf
    ensures r.currentCategory in set c | c in cats :: c.kind
    ensures r.categories.Keys == CategoryIds(cats)
  {
    var currentQuest := Paginate(questions, PageNumber(pageArg));
    var category := cats[0];
    assert category in cats;
    QuestionList(currentQuest, |questions|, category.kind, CategoryMap(cats))
  }

  /** The listing is the requested page of the whole table in id order. */
  lemma ListIsPageOfTable(questions: seq<Question>, cats: seq<Category>, page: int)
    requires |cats| > 0 && IdOrdered(questions) && page >= 1
    ensures var r := GetQuestions(questions, cats, Some(page));
            var n := |questions|;
            && r.questions == FormatAll(questions)[Min((page - 1) * QuestionsPerShelf, n) .. Min(page * QuestionsPerShelf, n)]
            && RecordsIdOrdered(r.questions)
  {
    PageOfSelection(questions, page);
    PageOrdered(questions, page);
  }

  /** A page past the end still succeeds, with an empty list and the full
      total: the handler has no 404 branch. */
  lemma ListPastEndIsEmpty(questions: seq<Question>, cats: seq<Category>, page: int)
    requires |cats| > 0 && page >= 1 && (page - 1) * QuestionsPerShelf >= |questions|
    ensures var r := GetQuestions(questions, cats, Some(page));
            r.QuestionList? && r.questions == [] && r.totalQuestions == |questions|
  {
    PageEmptyIff(questions, page);
  }

  /** Everything but the list itself is the same whatever the page. */
  lemma ListTotalsIgnorePage(questions: seq<Question>, cats: seq<Category>, a: Option<int>, b: Option<int>)
    requires |cats| > 0
    ensures var ra, rb := GetQuestions(questions, cats, a), GetQuestions(questions, cats, b);
            ra.totalQuestions == rb.totalQuestions && ra.currentCategory == rb.currentCategory && ra.categories == rb.categories
  {
  }

  /** The search branch of POST /questions, for a non-empty term. */
  function SearchQuestions(questions: seq<Question>, term: string, pageArg: Option<int>): (r: Response)
    ensures r.SearchResults? && StatusCode(r) == 200
    ensures |r.questions| <= QuestionsPerShelf
    ensures r.totalQuestions == |Matching(questions, term)|
    ensures forall x :: x in r.questions ==> ContainsIgnoringCase(x.question, term)
  {
    var selection := Matching(questions, term);
    var currentQuest := Paginate(selection, PageNumber(pageArg));
    forall x | x in currentQuest ensures ContainsIgnoringCase(x.question, term) {
      PageFrom(selection, PageNumber(pageArg), x);
    }
    SearchResults(currentQuest, |selection|)
  }

  /** Search returns the requested page of exactly the rows whose text holds the
      term, in id order, and counts all of them: any id-ordered sequence of
      exactly the matching rows yields the same answer. */
  lemma SearchIsPageOfMatches(questions: seq<Question>, term: string, pageArg: Option<int>, matches: seq<Question>)
    requires IdOrdered(questions) && IdOrdered(matches)
    requires forall q :: q in matches <==> q in questions && ContainsIgnoringCase(q.question, term)
    ensures SearchQuestions(questions, term, pageArg)
            == SearchResults(Paginate(matches, PageNumber(pageArg)), |matches|)
  {
    OrderedSameRowsEqual(Matching(questions, term), matches);
  }

  /** GET /categories/{id}/questions?page=N. A non-empty page whose category
      row is missing would crash on `category.format()`; that is excluded. */
  function GetQuestionsFromCategory(questions: seq<Question>, cats: seq<Category>, categoryId: int, pageArg: Option<int>): (r: Response)
    requires Paginate(InCategory(questions, categoryId), PageNumber(pageArg)) != [] ==> FindCategory(cats, categoryId).Some?
    ensures r.NotFound? || r.CategoryQuestions?
    ensures r.NotFound? <==> Paginate(InCategory(questions, categoryId), PageNumber(pageArg)) == []
    ensures r.CategoryQuestions? ==>
              && (forall x :: x in r.questions ==> x.category == categoryId)
              && r.totalQuestions == |r.questions| <= QuestionsPerShelf
              && (exists c :: c in cats && c.id == categoryId && c.kind == r.category)
              && (IdOrdered(questions) ==> RecordsIdOrdered(r.questions))
  {
    var selection := InCategory(questions, categoryId);
    var page := Paginate(selection, PageNumber(pageArg));
    var category := FindCategory(cats, categoryId);
    if |page| == 0 then NotFound
    else
      forall x | x in page ensures x.category == categoryId {
        PageFrom(selection, PageNumber(pageArg), x);
      }
      assert IdOrdered(questions) ==> RecordsIdOrdered(page) by {
        if IdOrdered(questions) { PageOrdered(selection, PageNumber(pageArg)); }
      }
      CategoryQuestions(page, |page|, category.value.kind)
  }

  /** A category no question belongs to gives 404 on every page, whether or not
      the category exists. */
  lemma EmptyCategoryNotFound(questions: seq<Question>, cats: seq<Category>, categoryId: int, pageArg: Option<int>)
    requires forall q :: q in questions ==> q.category != categoryId
    ensures InCategory(questions, categoryId) == []
    ensures GetQuestionsFromCategory(questions, cats, categoryId, pageArg) == NotFound
  {
    NoRowsIsEmpty(InCategory(questions, categoryId));
  }

  /** A page past the last page of the category gives 404. */
  lemma CategoryPastEndNotFound(questions: seq<Question>, cats: seq<Category>, categoryId: int, page: int)
    requires page >= 1 && (page - 1) * QuestionsPerShelf >= |InCategory(questions, categoryId)|
    ensures GetQuestionsFromCategory(questions, cats, categoryId, Some(page)) == NotFound
  {
    PageEmptyIff(InCategory(questions, categoryId), page);
  }

  /** `total_questions` is the length of the page, not the category's size: a
      category of more than ten questions reports ten on page 1. */
  lemma CategoryTotalIsPageLength(questions: seq<Question>, cats: seq<Category>, categoryId: int)
    requires |InCategory(questions, categoryId)| > QuestionsPerShelf
    requires FindCategory(cats, categoryId).Some?
    ensures var r := GetQuestionsFromCategory(questions, cats, categoryId, None);
            r.CategoryQuestions? && r.totalQuestions == QuestionsPerShelf < |InCategory(questions, categoryId)|
  {
    FullPage(InCategory(questions, categoryId), 1);
  }

  /** The page returned is the requested page of exactly the category's rows in
      id order: any id-ordered sequence of exactly those rows gives it. */
  lemma CategoryIsPageOfRows(questions: seq<Question>, cats: seq<Category>, categoryId: int, pageArg: Option<int>, rows: seq<Question>)
    requires IdOrdered(questions) && IdOrdered(rows)
    requires forall q :: q in rows <==> q in questions && q.category == categoryId
    requires FindCategory(cats, categoryId).Some?
    ensures var r := GetQuestionsFromCategory(questions, cats, categoryId, pageArg);
            var page := Paginate(rows, PageNumber(pageArg));
            if page == [] then r == NotFound
            else r == CategoryQuestions(page, |page|, FindCategory(cats, categoryId).value.kind)
  {
    OrderedSameRowsEqual(InCategory(questions, categoryId), rows);
  }

  /** The JSON body of POST /quizzes; `quiz_category` 0 stands for any category. */
  datatype QuizRequest = QuizRequest(quizCategory: int, previousQuestions: seq<int>)

  /** A question may be asked next: not asked before and, unless the quiz is
      over all categories, in the quiz's category. */
  predicate Askable(q: Question, req: QuizRequest) {
    q.id !in req.previousQuestions && (req.quizCategory == 0 || q.category == req.quizCategory)
  }

  /** The rows the quiz query draws from, before `order_by(func.random())`. */
  function Eligible(questions: seq<Question>, req: QuizRequest): (r: seq<Question>)
    ensures forall q :: q in r <==> q in questions && Askable(q, req)
  {
    if req.quizCategory == 0 then
      NotAsked(questions, req.previousQuestions)
    else
      NotAsked(InCategory(questions, req.quizCategory), req.previousQuestions)
  }

  /** POST /quizzes. The random order and `limit(1)` are a choice of any
      eligible row. */
  method PlayGetQuestion(questions: seq<Question>, req: QuizRequest) returns (r: Response)
    ensures r.QuizQuestion? && StatusCode(r) == 200
    ensures r.question.None? <==> forall q :: q in questions ==> !Askable(q, req)
    ensures r.question.Some? ==> exists q :: q in questions && Askable(q, req) && Format(q) == r.question.value
  {
    var eligible := Eligible(questions, req);
    if eligible == [] {
      r := QuizQuestion(None);
    } else {
      assert eligible[0] in eligible;
      var q :| q in eligible;
      r := QuizQuestion(Some(Format(q)));
    }
  }

  /** Once every id has been asked, no question is left. */
  lemma QuizExhausted(questions: seq<Question>, req: QuizRequest)
    requires forall q :: q in questions ==> q.id in req.previousQuestions
    ensures Eligible(questions, req) == []
  {
    NoRowsIsEmpty(Eligible(questions, req));
  }

  /** A quiz category no question has (an unknown one, say) yields no question
      rather than an error. */
  lemma QuizUnknownCategory(questions: seq<Question>, req: QuizRequest)
    requires req.quizCategory != 0
    requires forall q :: q in questions ==> q.category != req.quizCategory
    ensures Eligible(questions, req) == []
  {
    NoRowsIsEmpty(Eligible(questions, req));
  }
}
