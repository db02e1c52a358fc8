/** The read-only route handlers. Each request reads the tables afresh, so
    each handler takes that read as its input: `qs`, the questions in the
    order the database keeps them (ascending id), and `cats`, the categories. */
module Routes {
  import opened Model
  import opened Pagination
  import opened Text
  import opened Responses

  /** Every question of a page came from the selection it was cut from, and a
      page cut from an id-ordered selection is id-ordered. */
  lemma PageFromSelection(selection: seq<Question>, page: int)
    ensures forall q :: q in Paginate(selection, page) ==> q in selection
    ensures AscendingIds(selection) ==> AscendingIds(Paginate(selection, page))
  {
  }

  // ---------------------------------------------------------------- GET /categories

  /** `list_categories`: the dictionary of every category id to its type. */
  method ListCategories(cats: seq<Category>) returns (r: Response)
    ensures r.status == 200 && r.body.CategoriesPayload?
    ensures r.body.categories.Keys == set c | c in cats :: c.id
    ensures DistinctCategoryIds(cats) ==>
      forall i :: 0 <= i < |cats| ==> r.body.categories[cats[i].id] == cats[i].typeName
  {
    var m := CategoryMap(cats);
    r := Ok(CategoriesPayload(m));
    if DistinctCategoryIds(cats) {
      forall i | 0 <= i < |cats| ensures m[cats[i].id] == cats[i].typeName {
        CategoryMapLookup(cats, i);
      }
    }
  }

  // ---------------------------------------------------------------- GET /questions

  /** The response of `list_questions` for the given tables and page: a 404
      or a page of at most ten questions counted against the whole table. */
  function ListQuestionsResponse(qs: seq<Question>, cats: seq<Category>, page: int): (r: Response)
    ensures r.status == 200 || r == NotFound()
    ensures r.status == 200 ==>
      r.body.QuestionsPayload? && r.body.totalQuestions == |qs| && |r.body.questions| <= QuestionsPerPage
  {
    var questions := Paginate(qs, page);
    if |questions| == 0 && |qs| != 0 then NotFound()
    else Ok(QuestionsPayload(questions, |qs|, Some(CategoryMapOf(cats)), None))
  }

  /** `list_questions`, which fills the category dictionary in a loop. */
  method ListQuestions(qs: seq<Question>, cats: seq<Category>, page: int) returns (r: Response)
    ensures r == ListQuestionsResponse(qs, cats, page)
  {
    var questions := Paginate(qs, page);
    if |questions| == 0 && |qs| != 0 {
      return NotFound();
    }
    var categories := CategoryMap(cats);
    r := Ok(QuestionsPayload(questions, |qs|, Some(categories), None));
  }

  /** `list_questions` answers 404 exactly when the page is empty while the
      table is not; otherwise it returns that page of the id-ordered table,
      the size of the whole table, every category and a null current category. */
  lemma ListQuestionsContract(qs: seq<Question>, cats: seq<Category>, page: int)
    requires page >= 1
    ensures var r := ListQuestionsResponse(qs, cats, page);
      && (r.status == 404 <==> 0 < |qs| <= (page - 1) * QuestionsPerPage)
      && (r.status == 404 ==> r == NotFound())
      && (r.status != 404 ==>
            && r.status == 200 && r.body.QuestionsPayload?
            && r.body.questions == qs[Min((page - 1) * QuestionsPerPage, |qs|)..Min(page * QuestionsPerPage, |qs|)]
            && (AscendingIds(qs) ==> AscendingIds(r.body.questions))
            && |r.body.questions| <= QuestionsPerPage
            && r.body.totalQuestions == |qs|
            && r.body.allCategories == Some(CategoryMapOf(cats))
            && r.body.currentCategory.None?)
  {
  }

  /** Page 1000 of a 24-question table does not exist. */
  lemma ListQuestionsBeyondEnd(qs: seq<Question>, cats: seq<Category>)
    requires |qs| == 24
    ensures ListQuestionsResponse(qs, cats, 1000) == NotFound()
  {
  }

  // ---------------------------------------------------------------- POST /search

  /** The JSON body of a search request. */
  datatype SearchBody = SearchBody(searchTerm: string)

  function KeepMatching(term: string): Question -> bool {
    (q: Question) => MatchesTerm(q.question, term)
  }

  /** The questions whose text contains `term`, ignoring case. */
  function Matching(qs: seq<Question>, term: string): (r: seq<Question>)
    ensures forall q :: q in r <==> q in qs && MatchesTerm(q.question, term)
  {
    Filter(qs, KeepMatching(term))
  }

  /** `search_question`. A missing body fails inside the `try`; so does the
      `abort(404)` for an empty page, and the `except` turns both into 400.
      `total_questions` is the size of the page, not the number of matches. */
  function SearchQuestions(qs: seq<Question>, body: Option<SearchBody>, page: int): (r: Response)
    ensures r.status == 200 || r == BadRequest()
    ensures body.None? ==> r == BadRequest()
    ensures r.status == 200 ==>
      r.body.QuestionsPayload? && r.body.totalQuestions == |r.body.questions| <= QuestionsPerPage
  {
    match body
    case None => BadRequest()
    case Some(b) =>
      var selection := Matching(qs, b.searchTerm);
      var questions := Paginate(selection, page);
      if |questions| == 0 && |selection| != 0 then BadRequest()
      else Ok(QuestionsPayload(questions, |questions|, None, None))
  }

  /** Search answers 200 or 400, and 400 exactly when the body is missing or
      the page is empty while some question matches. A 200 holds only
      matching questions of the table, in id order, and counts the page. */
  lemma SearchContract(qs: seq<Question>, body: Option<SearchBody>, page: int)
    ensures var r := SearchQuestions(qs, body, page);
      && (r.status == 200 || r == BadRequest())
      && (r.status == 400 <==>
            || body.None?
            || (Paginate(Matching(qs, body.value.searchTerm), page) == [] && Matching(qs, body.value.searchTerm) != []))
      && (r.status == 200 ==>
            && r.body.QuestionsPayload?
            && (forall q :: q in r.body.questions ==> q in qs && MatchesTerm(q.question, body.value.searchTerm))
            && (AscendingIds(qs) ==> AscendingIds(r.body.questions))
            && r.body.totalQuestions == |r.body.questions| <= QuestionsPerPage
            && r.body.allCategories.None? && r.body.currentCategory.None?)
  {
    if body.Some? {
      var selection := Matching(qs, body.value.searchTerm);
      PageFromSelection(selection, page);
      if AscendingIds(qs) {
        FilterAscending(qs, KeepMatching(body.value.searchTerm));
      }
    }
  }

  /** For a page numbered from 1, a successful search returns exactly that
      page of the matches; a term that matches nothing gives an empty 200. */
  lemma SearchPage(qs: seq<Question>, term: string, page: int)
    requires page >= 1
    ensures var r := SearchQuestions(qs, Some(SearchBody(term)), page);
            var matches := Matching(qs, term);
      && (r.status == 200 ==>
            r.body.questions == matches[Min((page - 1) * QuestionsPerPage, |matches|)..Min(page * QuestionsPerPage, |matches|)])
      && (matches == [] ==> r == Ok(QuestionsPayload([], 0, None, None)))
  {
  }

  /** Terms that differ only in letter case ("how" and "HOW") give the same
      response. */
  lemma SearchIgnoresCase(qs: seq<Question>, term1: string, term2: string, page: int)
    requires Fold(term1) == Fold(term2)
    ensures SearchQuestions(qs, Some(SearchBody(term1)), page) == SearchQuestions(qs, Some(SearchBody(term2)), page)
  {
    FilterAgree(qs, KeepMatching(term1), KeepMatching(term2));
  }

  /** Searching for "how" and for "HOW" gives the same response, for every
      table and page. */
  lemma SearchHowAndHOW(qs: seq<Question>, page: int)
    ensures SearchQuestions(qs, Some(SearchBody("how")), page) == SearchQuestions(qs, Some(SearchBody("HOW")), page)
  {
    HowIsHOW();
    SearchIgnoresCase(qs, "how", "HOW", page);
  }

  /** The empty term matches every question. */
  lemma SearchEmptyTerm(qs: seq<Question>)
    ensures Matching(qs, "") == qs
  {
    forall i | 0 <= i < |qs| ensures KeepMatching("")(qs[i]) {
      EmptyTermMatches(qs[i].question);
    }
    FilterKeepsAll(qs, KeepMatching(""));
  }

  // ---------------------------------------------------------------- GET /categories/<id>/questions

  /** `list_categories_questions`. Any failure in its `try`, including the
      attribute read on a missing category, becomes 404. */
  function CategoryQuestions(qs: seq<Question>, cats: seq<Category>, categoryId: int, page: int): (r: Response)
    ensures r.status == 200 || r == NotFound()
    ensures FindCategory(cats, categoryId).None? ==> r == NotFound()
    ensures r.status == 200 ==>
      r.body.QuestionsPayload? && r.body.totalQuestions == |InCategory(qs, categoryId)|
      && |r.body.questions| <= QuestionsPerPage
  {
    var selection := InCategory(qs, categoryId);
    var questions := Paginate(selection, page);
    if |questions| == 0 && |selection| != 0 then NotFound()
    else match FindCategory(cats, categoryId)
      case None => NotFound()
      case Some(c) => Ok(QuestionsPayload(questions, |selection|, None, Some(map[c.id := c.typeName])))
  }

  /** The category route answers 200 or 404, and 404 exactly when the category
      is missing or the page is empty while the category has questions. A 200
      holds only questions of that category, in id order, counts every
      question of the category and names the category with its type. */
  lemma CategoryQuestionsContract(qs: seq<Question>, cats: seq<Category>, categoryId: int, page: int)
    ensures var r := CategoryQuestions(qs, cats, categoryId, page);
            var selection := InCategory(qs, categoryId);
      && (r.status == 200 || r == NotFound())
      && (r.status == 404 <==>
            || (forall c :: c in cats ==> c.id != categoryId)
            || (Paginate(selection, page) == [] && selection != []))
      && (r.status == 200 ==>
            && r.body.QuestionsPayload?
            && (forall q :: q in r.body.questions ==> q in qs && q.category == categoryId)
            && (AscendingIds(qs) ==> AscendingIds(r.body.questions))
            && r.body.totalQuestions == |selection|
            && r.body.allCategories.None?
            && exists c :: c in cats && c.id == categoryId && r.body.currentCategory == Some(map[categoryId := c.typeName]))
  {
    var selection := InCategory(qs, categoryId);
    PageFromSelection(selection, page);
    if AscendingIds(qs) {
      FilterAscending(qs, KeepCategory(categoryId));
    }
  }

  /** For a page numbered from 1, a 200 from the category route is exactly
      that page of the category's questions. */
  lemma CategoryQuestionsPage(qs: seq<Question>, cats: seq<Category>, categoryId: int, page: int)
    requires page >= 1
    ensures var r := CategoryQuestions(qs, cats, categoryId, page);
            var selection := InCategory(qs, categoryId);
      r.status == 200 ==>
        r.body.questions == selection[Min((page - 1) * QuestionsPerPage, |selection|)..Min(page * QuestionsPerPage, |selection|)]
  {
  }

  // ---------------------------------------------------------------- POST /quizzes

  /** The `quiz_category` object; `id` is `None` when the key is absent. */
  datatype QuizCategory = QuizCategory(id: Option<int>)

  /** The JSON body of a quiz request; a field is `None` when absent. */
  datatype QuizRequest = QuizRequest(previousQuestions: Option<seq<int>>, quizCategory: Option<QuizCategory>)

  /** The questions the quiz draws from before exclusion: all of them for
      category 0, else those of the category. */
  function QuizPool(qs: seq<Question>, categoryId: int): (r: seq<Question>)
    ensures forall q :: q in r <==> q in qs && (categoryId == 0 || q.category == categoryId)
  {
    if categoryId == 0 then qs else InCategory(qs, categoryId)
  }

  function KeepUnseen(previous: seq<int>): Question -> bool {
    (q: Question) => q.id !in previous
  }

  /** The questions of the pool not asked before. */
  function QuizCandidates(qs: seq<Question>, categoryId: int, previous: seq<int>): (r: seq<Question>)
    ensures forall q :: q in r <==>
      q in qs && (categoryId == 0 || q.category == categoryId) && q.id !in previous
  {
    Filter(QuizPool(qs, categoryId), KeepUnseen(previous))
  }

  /** The responses `get_next_questions` may give: `random.choice` may pick
      any remaining candidate. A missing body, category object or category id
      fails at once; a missing `previous_questions` fails only when the loop
      tests a first question against it. */
  predicate QuizAnswers(qs: seq<Question>, body: Option<QuizRequest>, r: Response)
    ensures QuizAnswers(qs, body, r) ==> r.status == 200 || r == BadRequest()
    ensures QuizAnswers(qs, body, r) && r.status == 200 ==> r.body.QuizPayload?
  {
    match body
    case None => r == BadRequest()
    case Some(b) =>
      if b.quizCategory.None? || b.quizCategory.value.id.None? then r == BadRequest()
      else
        var categoryId := b.quizCategory.value.id.value;
        match b.previousQuestions
        case None => r == if QuizPool(qs, categoryId) == [] then Ok(QuizPayload(None)) else BadRequest()
        case Some(previous) =>
          var left := QuizCandidates(qs, categoryId, previous);
          if left == [] then r == Ok(QuizPayload(None))
          else r.status == 200 && r.body.QuizPayload? && r.body.question.Some? && r.body.question.value in left
  }

  /** `get_next_questions`: collect the unseen questions of the pool in a
      loop, then pick one of them. */
  method GetNextQuestion(qs: seq<Question>, body: Option<QuizRequest>) returns (r: Response)
    ensures QuizAnswers(qs, body, r)
  {
    if body.None? || body.value.quizCategory.None? || body.value.quizCategory.value.id.None? {
      return BadRequest();
    }
    var previous := body.value.previousQuestions;
    var categoryId := body.value.quizCategory.value.id.value;
    var pool := if categoryId == 0 then qs else InCategory(qs, categoryId);
    var left := [];
    for i := 0 to |pool|
      invariant previous.None? ==> i == 0
      invariant previous.Some? ==> left == Filter(pool[..i], KeepUnseen(previous.value))
    {
      if previous.None? {
        return BadRequest();
      }
      assert pool[..i + 1][..i] == pool[..i];
      if pool[i].id !in previous.value {
        left := left + [pool[i]];
      }
    }
    if previous.None? {
      return Ok(QuizPayload(None));
    }
    assert pool[..|pool|] == pool;
    if left != [] {
      assert left[0] in left;
      var next :| next in left;
      r := Ok(QuizPayload(Some(next)));
    } else {
      r := Ok(QuizPayload(None));
    }
  }

  /** With a well-formed body the quiz answers 200; the question it returns
      is one of the table's, was not asked before and belongs to the chosen
      category (any, for category 0); it returns null exactly when every
      question of the category has been asked. */
  lemma QuizContract(qs: seq<Question>, previous: seq<int>, categoryId: int, r: Response)
    requires QuizAnswers(qs, Some(QuizRequest(Some(previous), Some(QuizCategory(Some(categoryId))))), r)
    ensures r.status == 200 && r.body.QuizPayload?
    ensures r.body.question.None? <==>
      forall q :: q in qs && (categoryId == 0 || q.category == categoryId) ==> q.id in previous
    ensures r.body.question.Some? ==>
      && r.body.question.value in qs
      && r.body.question.value.id !in previous
      && (categoryId != 0 ==> r.body.question.value.category == categoryId)
  {
  }

  /** A quiz request answers 400 exactly when its body, category object or
      category id is missing, or when `previous_questions` is missing and the
      category has questions. */
  lemma QuizBadRequest(qs: seq<Question>, body: Option<QuizRequest>, r: Response)
    requires QuizAnswers(qs, body, r)
    ensures r.status == 200 || r == BadRequest()
    ensures r.status == 400 <==>
      || body.None?
      || body.value.quizCategory.None?
      || body.value.quizCategory.value.id.None?
      || (body.value.previousQuestions.None? && QuizPool(qs, body.value.quizCategory.value.id.value) != [])
  {
  }

  /** Each question the quiz asks and the client adds to `previous_questions`
      removes at least one candidate, so a quiz that keeps asking reaches a
      null question after at most as many rounds as the category has
      questions. */
  lemma QuizProgress(qs: seq<Question>, categoryId: int, previous: seq<int>, q: Question)
    requires q in QuizCandidates(qs, categoryId, previous)
    ensures |QuizCandidates(qs, categoryId, previous + [q.id])| < |QuizCandidates(qs, categoryId, previous)|
  {
    var pool := QuizPool(qs, categoryId);
    var i :| 0 <= i < |pool| && pool[i] == q;
    assert KeepUnseen(previous)(pool[i]) && !KeepUnseen(previous + [q.id])(pool[i]);
    FilterShrinks(pool, KeepUnseen(previous), KeepUnseen(previous + [q.id]));
  }

  /** Questions 20 to 24 in category 1 with 20, 21, 22 and 24 already asked:
      the only possible answer is question 23. */
  lemma QuizLastCandidate(qs: seq<Question>, r: Response)
    requires |qs| == 5
    requires forall i :: 0 <= i < 5 ==> qs[i].id == 20 + i && qs[i].category == 1
    requires QuizAnswers(qs, Some(QuizRequest(Some([20, 21, 22, 24]), Some(QuizCategory(Some(1))))), r)
    ensures r == Ok(QuizPayload(Some(qs[3])))
  {
    FilterKeepsAll(qs, KeepCategory(1));
    var left := QuizCandidates(qs, 1, [20, 21, 22, 24]);
    assert qs[3] in left;
    forall q | q in left ensures q == qs[3] {
      var i :| 0 <= i < 5 && qs[i] == q;
    }
  }
}
