/** The database the routes read and write, and the two routes that change
    it: `delete_question` and `create_question`. */
module Store {
  import opened Model
  import opened Responses
  import opened Routes

  /** The JSON body of a create request. Per-field presence is not modelled:
      a body is either absent or carries all four fields. */
  datatype NewQuestion = NewQuestion(question: string, answer: string, difficulty: int, category: int)

  class Database {
    /** The `questions` table, kept in ascending id order. */
    var questions: seq<Question>
    /** The `categories` table. */
    var categories: seq<Category>
    /** The next id the table's id sequence hands out. */
    var nextId: int

    /** Ids are unique and ascending, the id sequence is past every id in use,
        and category ids are unique. */
    ghost predicate Valid()
      reads this
    {
      && AscendingIds(questions)
      && (forall q :: q in questions ==> q.id < nextId)
      && DistinctCategoryIds(categories)
    }

    constructor (qs: seq<Question>, cats: seq<Category>, firstFreeId: int)
      requires AscendingIds(qs) && (forall q :: q in qs ==> q.id < firstFreeId)
      requires DistinctCategoryIds(cats)
      ensures Valid()
      ensures questions == qs && categories == cats && nextId == firstFreeId
    {
      questions, categories, nextId := qs, cats, firstFreeId;
    }

    /** `delete_question`: an id in the table is deleted and echoed back; any
        other id makes `None.delete()` fail, which answers 422. */
    method DeleteQuestion(questionId: int) returns (r: Response)
      requires Valid()
      modifies this
      ensures Valid()
      ensures categories == old(categories) && nextId == old(nextId)
      ensures HasId(old(questions), questionId) ==>
        && questions == Without(old(questions), questionId)
        && r == Ok(DeletedPayload(questionId))
      ensures !HasId(old(questions), questionId) ==>
        && questions == old(questions)
        && r == Unprocessable()
    {
      var found := FindQuestion(questions, questionId);
      match found
      case None =>
        r := Unprocessable();
      case Some(q) =>
        FilterAscending(questions, KeepOtherIds(questionId));
        questions := Without(questions, questionId);
        r := Ok(DeletedPayload(questionId));
    }

    /** `create_question`: with a body, a new question with the next id of
        the sequence is appended and its id returned; without one, `body.get`
        fails and the route answers 400 and stores nothing. */
    method CreateQuestion(body: Option<NewQuestion>) returns (r: Response)
      requires Valid()
      modifies this
      ensures Valid()
      ensures categories == old(categories)
      ensures body.None? ==> questions == old(questions) && nextId == old(nextId) && r == BadRequest()
      ensures body.Some? ==>
        && !HasId(old(questions), old(nextId))
        && questions == old(questions) +
             [Question(old(nextId), body.value.question, body.value.answer, body.value.category, body.value.difficulty)]
        && nextId == old(nextId) + 1
        && r == Ok(CreatedPayload(true, old(nextId)))
    {
      match body
      case None =>
        r := BadRequest();
      case Some(b) =>
        var created := Question(nextId, b.question, b.answer, b.category, b.difficulty);
        questions := questions + [created];
        nextId := nextId + 1;
        r := Ok(CreatedPayload(true, created.id));
    }
  }

  /** What the read routes give when they read a consistent database: pages
      in ascending id order, a category dictionary that maps every category id
      to its own type, and, from the category route, the category named with
      the type stored for it. */
  lemma ReadRoutesOnDatabase(db: Database, page: int, categoryId: int, term: string)
    requires db.Valid()
    ensures var r := ListQuestionsResponse(db.questions, db.categories, page);
      r.status == 200 ==>
        && AscendingIds(r.body.questions)
        && forall i :: 0 <= i < |db.categories| ==>
             r.body.allCategories.value[db.categories[i].id] == db.categories[i].typeName
    ensures var r := SearchQuestions(db.questions, Some(SearchBody(term)), page);
      r.status == 200 ==> AscendingIds(r.body.questions)
    ensures var r := CategoryQuestions(db.questions, db.categories, categoryId, page);
      r.status == 200 ==>
        && AscendingIds(r.body.questions)
        && forall i :: 0 <= i < |db.categories| && db.categories[i].id == categoryId ==>
             r.body.currentCategory == Some(map[categoryId := db.categories[i].typeName])
  {
    var qs, cats := db.questions, db.categories;
    PageFromSelection(qs, page);
    forall i | 0 <= i < |cats| ensures CategoryMapOf(cats)[cats[i].id] == cats[i].typeName {
      CategoryMapLookup(cats, i);
    }
    SearchContract(qs, Some(SearchBody(term)), page);
    CategoryQuestionsContract(qs, cats, categoryId, page);
  }

  /** Deleting the question at index `k` removes exactly that question, keeps
      every other one in order, and a later lookup of its id finds nothing. */
  lemma DeleteThenGet(qs: seq<Question>, k: int)
    requires AscendingIds(qs) && 0 <= k < |qs|
    ensures Without(qs, qs[k].id) == qs[..k] + qs[k + 1..]
    ensures |Without(qs, qs[k].id)| == |qs| - 1
    ensures FindQuestion(Without(qs, qs[k].id), qs[k].id) == None
  {
    WithoutRemovesOne(qs, k);
  }

  /** Creating then deleting a question gives back the table it started from. */
  lemma CreateThenDelete(qs: seq<Question>, q: Question)
    requires AscendingIds(qs) && forall p :: p in qs ==> p.id < q.id
    ensures AscendingIds(qs + [q])
    ensures Without(qs + [q], q.id) == qs
  {
    var t := qs + [q];
    assert AscendingIds(t) by {
      forall i, j | 0 <= i < j < |t| ensures t[i].id < t[j].id {
        if j == |qs| { assert t[i] in qs; }
      }
    }
    WithoutRemovesOne(t, |qs|);
    assert t[..|qs|] + t[|qs| + 1..] == qs;
  }
}
