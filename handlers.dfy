/** The read-only request handlers of the trivia service, over the rows of the questions
    table (`questions`, kept in id order) and of the categories table (`categories`). */
module Handlers {
  import opened TriviaModel
  import opened Filtering
  import opened TextMatch
  import opened Pagination

  // ---------------------------------------------------------------- GET /questions

  /** `get_questions`: an empty page aborts with 404; for any other page the view reaches
      its end without returning, because its `return` sits inside the `if` after the abort. */
  function GetQuestions(questions: seq<Question>, page: int): (r: Reply<PageBody>)
    ensures r == if PageHasRows(|questions|, page) then NoReturn else Err(NotFound)
  {
    PaginateEmptyIff(questions, page);
    if |Paginate(questions, page)| == 0 then Err(NotFound) else NoReturn
  }

  /** An empty table answers 404 for every page. */
  lemma GetQuestionsEmptyStore(page: int)
    ensures GetQuestions([], page) == Err(NotFound)
  {
  }

  // ---------------------------------------------------------------- POST /questions/<searchTerm>

  /** The rows of `Question.query.filter(Question.question.ilike('%term%'))`. */
  function SearchMatches(questions: seq<Question>, term: string): (r: seq<Question>)
    ensures forall q :: q in r <==> q in questions && MatchesTerm(q.question, term)
    ensures SortedById(questions) ==> SortedById(r)
  {
    FilterSorted(questions, (q: Question) => MatchesTerm(q.question, term));
    Filter(questions, (q: Question) => MatchesTerm(q.question, term))
  }

  /** `search_questions`: a page of the matches; an empty page is 404; the total is the
      number of all matches, not of this page. */
  function SearchQuestions(questions: seq<Question>, term: string, page: int): (r: Reply<PageBody>)
    ensures r.Err? <==> !PageHasRows(|SearchMatches(questions, term)|, page)
    ensures r.Err? ==> r.error == NotFound
    ensures r.Ok? ==>
              && r.body.totalQuestions == |SearchMatches(questions, term)|
              && r.body.currentCategory == ""
              && 0 < |r.body.questions| <= QuestionsPerPage
              && forall q :: q in r.body.questions ==> q in questions && MatchesTerm(q.question, term)
    ensures r.Ok? ==> r.body.questions == Paginate(SearchMatches(questions, term), page)
    ensures r != NoReturn
  {
    var matches := SearchMatches(questions, term);
    var current := Paginate(matches, page);
    PaginateEmptyIff(matches, page);
    if |current| == 0 then Err(NotFound)
    else Ok(PageBody(current, |matches|, ""))
  }

  // ---------------------------------------------------------------- GET /categories/<id>/questions

  /** `Category.query.filter_by(id=id).one_or_none()`. */
  function FindCategory(categories: seq<Category>, id: int): (r: Option<Category>)
    ensures r.Some? ==> r.value in categories && r.value.id == id
    ensures r.None? <==> forall c :: c in categories ==> c.id != id
  {
    if categories == [] then None
    else if categories[0].id == id then Some(categories[0])
    else FindCategory(categories[1..], id)
  }

  /** The rows of `Question.query.filter_by(category=id)`. */
  function InCategory(questions: seq<Question>, id: int): (r: seq<Question>)
    ensures forall q :: q in r <==> q in questions && q.category == id
    ensures SortedById(questions) ==> SortedById(r)
  {
    FilterSorted(questions, (q: Question) => q.category == id);
    Filter(questions, (q: Question) => q.category == id)
  }

  /** `get_questions_by_category`: 400 for an unknown category; otherwise a page of that
      category's questions (possibly empty: there is no 404 here), the number of ALL
      questions in the table, and the category's name. */
  function GetQuestionsByCategory(questions: seq<Question>, categories: seq<Category>, id: int, page: int)
    : (r: Reply<PageBody>)
    ensures r.Err? <==> forall c :: c in categories ==> c.id != id
    ensures r.Err? ==> r.error == BadRequest
    ensures r.Ok? ==>
              && r.body.totalQuestions == |questions|
              && (exists c :: c in categories && c.id == id && c.kind == r.body.currentCategory)
              && |r.body.questions| <= QuestionsPerPage
              && forall q :: q in r.body.questions ==> q in questions && q.category == id
    ensures r.Ok? ==> r.body.questions == Paginate(InCategory(questions, id), page)
    ensures r != NoReturn
  {
    match FindCategory(categories, id)
    case None => Err(BadRequest)
    case Some(category) =>
      var selection := InCategory(questions, category.id);
      Ok(PageBody(Paginate(selection, page), |questions|, category.kind))
  }

  /** With category ids unique, the name reported is that of the one category with the id. */
  lemma CategoryNameIsUnique(questions: seq<Question>, categories: seq<Category>, id: int, page: int, c: Category)
    requires UniqueCategoryIds(categories)
    requires c in categories && c.id == id
    ensures GetQuestionsByCategory(questions, categories, id, page).Ok?
    ensures GetQuestionsByCategory(questions, categories, id, page).body.currentCategory == c.kind
  {
    var r := GetQuestionsByCategory(questions, categories, id, page);
    var d :| d in categories && d.id == id && d.kind == r.body.currentCategory;
    var i :| 0 <= i < |categories| && categories[i] == c;
    var j :| 0 <= j < |categories| && categories[j] == d;
    assert !(i < j) && !(j < i);
  }

  // ---------------------------------------------------------------- POST /quizzes

  /** `quiz_category['id']` when the key is there: an integer, or JSON null. */
  datatype CategoryId = Id(value: int) | Null

  /** The request body: `previous_questions`, and `quiz_category['id']`. None stands for a
      missing key, a null `previous_questions`, or a `quiz_category` that cannot be
      subscripted (all of which raise inside the `try`); a present but null id is `Null`. */
  datatype QuizBody = QuizBody(previousQuestions: Option<seq<int>>, quizCategoryId: Option<CategoryId>)

  predicate WellFormed(body: QuizBody) {
    body.previousQuestions.Some? && body.quizCategoryId.Some?
  }

  /** Whether a question is in the quiz's pool: every question for id 0, the category's
      questions for another id, and none for a null id, since `category == None` becomes
      `category IS NULL` and every row here has a category. */
  predicate InPool(q: Question, categoryId: CategoryId) {
    match categoryId
    case Null => false
    case Id(c) => c == 0 || q.category == c
  }

  /** `total_questions` of `play_quiz`. */
  function QuizPool(questions: seq<Question>, categoryId: CategoryId): (r: seq<Question>)
    ensures forall q :: q in r <==> q in questions && InPool(q, categoryId)
    ensures categoryId == Id(0) ==> r == questions
    ensures SortedById(questions) ==> SortedById(r)
  {
    match categoryId
    case Null => []
    case Id(c) => if c == 0 then questions else InCategory(questions, c)
  }

  /** What `play_quiz` does before the random draw. */
  datatype QuizStep = AllAsked | Draw(selection: seq<Question>)

  /** The exhaustion test compares COUNTS: as many previous ids as questions in the pool
      ends the quiz, whatever those ids are. Otherwise the draw is from the pool's
      questions whose id is not among the previous ones. */
  function NextStep(questions: seq<Question>, previous: seq<int>, categoryId: CategoryId): (r: QuizStep)
    ensures r.Draw? ==> forall q :: q in r.selection <==>
              q in questions && InPool(q, categoryId) && q.id !in previous
  {
    var pool := QuizPool(questions, categoryId);
    if |previous| == |pool| then AllAsked
    else Draw(Filter(pool, (q: Question) => q.id !in previous))
  }

  /** `play_quiz`: the random index of `random.randrange` is a nondeterministic choice. */
  method PlayQuiz(questions: seq<Question>, body: QuizBody) returns (r: Reply<Option<Question>>)
    ensures !WellFormed(body) ==> r == Err(Unprocessable)
    ensures WellFormed(body) ==>
              (r == Ok(None) <==> |body.previousQuestions.value| == |QuizPool(questions, body.quizCategoryId.value)|)
    ensures WellFormed(body) && r.Err? ==>
              r.error == Unprocessable &&
              forall q :: q in QuizPool(questions, body.quizCategoryId.value) ==> q.id in body.previousQuestions.value
    ensures r.Ok? && r.body.Some? ==>
              && WellFormed(body)
              && r.body.value in questions
              && InPool(r.body.value, body.quizCategoryId.value)
              && r.body.value.id !in body.previousQuestions.value
    ensures r != NoReturn
  {
    match body {
      case QuizBody(Some(previous), Some(categoryId)) =>
        match NextStep(questions, previous, categoryId) {
          case AllAsked =>
            r := Ok(None);
          case Draw(selection) =>
            if |selection| == 0 {
              // randrange(0, 0) raises ValueError, caught by the bare except
              r := Err(Unprocessable);
            } else {
              var i :| 0 <= i < |selection|;
              r := Ok(Some(selection[i]));
            }
        }
      case _ =>
        r := Err(Unprocessable);
    }
  }

  /** A null category id selects no question: the quiz ends at once when no previous ids
      are sent, and is stuck (422) otherwise. */
  lemma QuizNullCategory(questions: seq<Question>, previous: seq<int>)
    ensures NextStep(questions, previous, Null) ==
            if previous == [] then AllAsked else Draw([])
  {
    if previous != [] {
      FilterKeepsNone([], (q: Question) => q.id !in previous);
    }
  }

  lemma {:induction false} DistinctCard(xs: seq<int>)
    requires forall i, j :: 0 <= i < j < |xs| ==> xs[i] != xs[j]
    ensures |set x | x in xs| == |xs|
  {
    if xs != [] {
      DistinctCard(xs[1..]);
      assert (set x | x in xs) == {xs[0]} + (set x | x in xs[1..]);
      assert xs[0] !in (set x | x in xs[1..]);
    }
  }

  lemma {:induction false} IdsCard(qs: seq<Question>)
    requires SortedById(qs)
    ensures |Ids(qs)| == |qs|
  {
    if qs != [] {
      IdsCard(qs[1..]);
      assert Ids(qs) == {qs[0].id} + Ids(qs[1..]);
      assert qs[0].id !in Ids(qs[1..]);
    }
  }

  /** A client that reports each question it has seen once, and only questions of the
      pool, never gets a 422: either the pool is used up or there is a question to draw. */
  lemma QuizProgress(questions: seq<Question>, previous: seq<int>, categoryId: CategoryId)
    requires SortedById(questions)
    requires forall i, j :: 0 <= i < j < |previous| ==> previous[i] != previous[j]
    requires forall x :: x in previous ==> x in Ids(QuizPool(questions, categoryId))
    ensures NextStep(questions, previous, categoryId) == AllAsked ||
            NextStep(questions, previous, categoryId).selection != []
  {
    var pool := QuizPool(questions, categoryId);
    DistinctCard(previous);
    IdsCard(pool);
    var asked := set x | x in previous;
    assert asked <= Ids(pool);
    if |previous| != |pool| {
      assert asked + Ids(pool) == Ids(pool);
      assert asked * Ids(pool) == asked;
      assert asked - Ids(pool) == {};
      assert |Ids(pool) - asked| > 0;
      var id :| id in Ids(pool) - asked;
      var q :| q in pool && q.id == id;
      assert q in NextStep(questions, previous, categoryId).selection;
    }
  }

  /** A client that has reported every question of the pool exactly once gets `question: None`. */
  lemma QuizCoveredIsAllAsked(questions: seq<Question>, previous: seq<int>, categoryId: CategoryId)
    requires SortedById(questions)
    requires forall i, j :: 0 <= i < j < |previous| ==> previous[i] != previous[j]
    requires (set x | x in previous) == Ids(QuizPool(questions, categoryId))
    ensures NextStep(questions, previous, categoryId) == AllAsked
  {
    DistinctCard(previous);
    IdsCard(QuizPool(questions, categoryId));
  }

  /** Count, not set: one previous id from another category ends a one-question quiz
      although its question was never asked. */
  lemma QuizCountNotSet()
    ensures var q := Question(1, "Q", "A", 2, 1);
            NextStep([q], [9], Id(2)) == AllAsked && q.id !in [9]
  {
  }

  /** Once every question of the pool was asked but the count of previous ids differs from
      the pool's size (a repeated id, say), the selection is empty and the quiz answers 422. */
  lemma QuizStuck(questions: seq<Question>, previous: seq<int>, categoryId: CategoryId)
    requires forall q :: q in QuizPool(questions, categoryId) ==> q.id in previous
    requires |previous| != |QuizPool(questions, categoryId)|
    ensures NextStep(questions, previous, categoryId) == Draw([])
  {
    FilterKeepsNone(QuizPool(questions, categoryId), (q: Question) => q.id !in previous);
  }
}
