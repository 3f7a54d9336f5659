/**
 * The request handlers of the trivia backend over an in-memory store. The
 * store is the object whose fields the handlers read and, for delete and
 * create, update in place; each handler returns the payload of its JSON
 * response or the status it aborts with.
 */
module App {
  import opened Wrappers
  import opened Errors
  import opened Queries

  /** The listing responses of GET /questions and GET /categories/<id>/questions. */
  datatype Listing = Listing(
    questions: seq<Question>,
    totalQuestions: nat,
    categories: map<int, string>,
    currentCategory: Option<int>)

  /** The response of DELETE /questions/<id>. */
  datatype Deletion = Deletion(deleted: int, questions: seq<Question>, totalQuestions: nat)

  /** The fields of a new question in a POST /questions body. */
  datatype NewQuestion = NewQuestion(question: string, answer: string, difficulty: int, category: int)

  /** A POST /questions body: a search when it carries `searchTerm`, a creation otherwise. */
  datatype PostBody = PostBody(searchTerm: Option<string>, fields: NewQuestion)

  /** The two responses of POST /questions (a search also sends `current_category: null`). */
  datatype Posted =
    | Created(questions: seq<Question>, totalQuestions: nat)
    | Searched(questions: seq<Question>, totalQuestions: nat)

  /**
   * The search branch of POST /questions: the requested page of the ILIKE
   * matches, whose `total_questions` is the length of that page, not the
   * number of matches.
   */
  function SearchResponse(qs: seq<Question>, term: string, page: int): (r: Posted)
    ensures r.Searched? && r.questions == Paginate(SearchMatches(qs, term), page)
    ensures r.totalQuestions == |r.questions| <= QuestionsPerPage
    ensures forall q :: q in r.questions ==> q in qs && Like(q.question, SearchPattern(term))
    ensures NoWildcards(term) ==>
      forall q :: q in r.questions ==> ContainsIgnoringCase(q.question, term)
  {
    var current := Paginate(SearchMatches(qs, term), page);
    assert NoWildcards(term) ==> forall q :: q in current ==> ContainsIgnoringCase(q.question, term) by {
      if NoWildcards(term) {
        forall q | q in current ensures ContainsIgnoringCase(q.question, term) {
          SearchIsSubstringMatch(q.question, term);
        }
      }
    }
    Searched(current, |current|)
  }

  /** The application over its store: the question table in id order, the category table, and the id sequence. */
  class TriviaApp {
    var questions: seq<Question>
    var categories: seq<Category>
    var nextId: int

    /** The store's invariant: ids ascend, the next id exceeds every id in use, category ids are a key. */
    ghost predicate Valid()
      reads this
    {
      && IdsAscending(questions)
      && (forall q :: q in questions ==> q.id < nextId)
      && DistinctCategoryIds(categories)
    }

    constructor (qs: seq<Question>, cats: seq<Category>, next: int)
      requires IdsAscending(qs)
      requires forall q :: q in qs ==> q.id < next
      requires DistinctCategoryIds(cats)
      ensures Valid()
      ensures questions == qs && categories == cats && nextId == next
    {
      questions, categories, nextId := qs, cats, next;
    }

    /** `question.insert()`: the store appends the row under the next id, unless it rejects it. */
    method Insert(fields: NewQuestion, accepted: bool) returns (ok: bool)
      requires Valid()
      modifies this
      ensures Valid() && categories == old(categories)
      ensures ok == accepted
      ensures ok ==>
        && nextId == old(nextId) + 1
        && questions == old(questions) + [Question(old(nextId), fields.question, fields.answer, fields.category, fields.difficulty)]
      ensures !ok ==> questions == old(questions) && nextId == old(nextId)
    {
      ok := accepted;
      if ok {
        var q := Question(nextId, fields.question, fields.answer, fields.category, fields.difficulty);
        assert forall p :: p in questions ==> p.id < q.id;
        AppendKeepsIdOrder(questions, q);
        questions := questions + [q];
        nextId := nextId + 1;
      }
    }

    /** `question.delete()` on a stored row: the store drops it, unless it rejects the write. */
    method Delete(id: int, accepted: bool) returns (ok: bool)
      requires Valid()
      requires HasId(questions, id)
      modifies this
      ensures Valid() && categories == old(categories) && nextId == old(nextId)
      ensures ok == accepted
      ensures ok ==> questions == RemoveId(old(questions), id)
      ensures ok ==> !HasId(questions, id) && |questions| == |old(questions)| - 1
      ensures ok ==> forall k :: 0 <= k < |old(questions)| && old(questions)[k].id == id ==>
        questions == old(questions)[..k] + old(questions)[k + 1..]
      ensures !ok ==> questions == old(questions)
    {
      ok := accepted;
      if ok {
        forall k | 0 <= k < |questions| && questions[k].id == id
          ensures RemoveId(questions, id) == questions[..k] + questions[k + 1..]
          ensures |RemoveId(questions, id)| == |questions| - 1
        {
          RemoveIdSplices(questions, k);
        }
        RemoveIdKeepsIdOrder(questions, id);
        questions := RemoveId(questions, id);
      }
    }

    /** GET /categories: the id -> type map of every category. */
    method Categories() returns (r: map<int, string>)
      ensures r == CategoryMap(categories)
      ensures r.Keys == CategoryIds(categories)
    {
      r := FormattedCategories(categories);
    }

    /**
     * GET /questions?page=N: the page of all questions in id order, or 404
     * when that page is empty, which for N >= 1 is exactly a page beyond
     * the last.
     */
    method RetrieveQuestions(page: int) returns (r: Result<Listing>)
      requires Valid()
      ensures r.Err? <==> Paginate(questions, page) == []
      ensures r.Err? ==> r.error == NotFound
      ensures page >= 1 ==> (r.Err? <==> page > PageCount(|questions|))
      ensures r.Ok? ==> r.value.questions == Paginate(questions, page) && IdsAscending(r.value.questions)
      ensures r.Ok? ==> r.value.totalQuestions == |questions|
      ensures r.Ok? ==> r.value.categories == CategoryMap(categories) && r.value.currentCategory == None
    {
      var current := Paginate(questions, page);
      var cats := FormattedCategories(categories);
      PaginateKeepsIdOrder(questions, page);
      if page >= 1 {
        PageEmptyIffBeyondLast(questions, page);
      }
      if current == [] {
        return Err(NotFound);
      }
      r := Ok(Listing(current, |questions|, cats, None));
    }

    /**
     * DELETE /questions/<id>: 404 for an unknown id, 422 when the store
     * rejects the delete; otherwise the row is gone and the response lists
     * the requested page of what remains.
     */
    method DeleteQuestion(questionId: nat, page: int, accepted: bool) returns (r: Result<Deletion>)
      requires Valid()
      modifies this
      ensures Valid() && categories == old(categories) && nextId == old(nextId)
      ensures !HasId(old(questions), questionId) ==> r == Err(NotFound) && questions == old(questions)
      ensures HasId(old(questions), questionId) && !accepted ==>
        r == Err(Unprocessable) && questions == old(questions)
      ensures HasId(old(questions), questionId) && accepted ==>
        && questions == RemoveId(old(questions), questionId)
        && !HasId(questions, questionId)
        && |questions| == |old(questions)| - 1
        && (forall k :: 0 <= k < |old(questions)| && old(questions)[k].id == questionId ==>
              questions == old(questions)[..k] + old(questions)[k + 1..])
        && r == Ok(Deletion(questionId, Paginate(questions, page), |questions|))
    {
      var found := FindById(questions, questionId);
      if found.None? {
        return Err(NotFound);
      }
      var ok := Delete(questionId, accepted);
      if !ok {
        return Err(Unprocessable);
      }
      r := Ok(Deletion(questionId, Paginate(questions, page), |questions|));
    }

    /**
     * POST /questions: with a `searchTerm` the store is left alone and the
     * search page is returned; without one a question is created (422 when
     * the store rejects it) and the requested page of all questions is
     * returned.
     */
    method PostQuestions(body: PostBody, page: int, accepted: bool) returns (r: Result<Posted>)
      requires Valid()
      modifies this
      ensures Valid() && categories == old(categories)
      ensures body.searchTerm.Some? ==>
        && questions == old(questions) && nextId == old(nextId)
        && r == Ok(SearchResponse(questions, body.searchTerm.value, page))
      ensures body.searchTerm.None? && !accepted ==>
        r == Err(Unprocessable) && questions == old(questions) && nextId == old(nextId)
      ensures body.searchTerm.None? && accepted ==>
        && nextId == old(nextId) + 1
        && questions == old(questions) + [Question(old(nextId), body.fields.question, body.fields.answer,
                                                    body.fields.category, body.fields.difficulty)]
        && r == Ok(Created(Paginate(questions, page), |questions|))
    {
      match body.searchTerm
      case None =>
        var ok := Insert(body.fields, accepted);
        if !ok {
          return Err(Unprocessable);
        }
        r := Ok(Created(Paginate(questions, page), |questions|));
      case Some(term) =>
        r := Ok(SearchResponse(questions, term, page));
    }

    /**
     * GET /categories/<id>/questions: the page of that category's questions
     * in id order, with the size of the whole category; 404 when the page is
     * empty, whether the category is unknown, empty or the page too far.
     */
    method QuestionsForCategory(categoryId: nat, page: int) returns (r: Result<Listing>)
      requires Valid()
      ensures r.Err? <==> Paginate(Filter(questions, CategoryIs(categoryId)), page) == []
      ensures r.Err? ==> r.error == NotFound
      ensures r.Ok? ==> forall q :: q in r.value.questions ==> q in questions && q.category == categoryId
      ensures r.Ok? ==> r.value.questions == Paginate(Filter(questions, CategoryIs(categoryId)), page)
      ensures r.Ok? ==> IdsAscending(r.value.questions)
      ensures r.Ok? ==> r.value.totalQuestions == |Filter(questions, CategoryIs(categoryId))|
      ensures r.Ok? ==> r.value.categories == CategoryMap(categories)
      ensures r.Ok? ==> r.value.currentCategory == Some(categoryId)
    {
      var selection := Filter(questions, CategoryIs(categoryId));
      var current := Paginate(selection, page);
      var cats := FormattedCategories(categories);
      FilterKeepsIdOrder(questions, CategoryIs(categoryId));
      PaginateKeepsIdOrder(selection, page);
      if current == [] {
        return Err(NotFound);
      }
      r := Ok(Listing(current, |selection|, cats, Some(categoryId)));
    }

    /**
     * POST /quizzes: some question of the requested category (every
     * category for 0) whose id has not been seen yet; 404 when none is left.
     * The random choice is any candidate id.
     */
    method QuizQuestion(quizCategory: Option<int>, previous: seq<int>) returns (r: Result<Question>)
      requires Valid()
      ensures r.Err? <==> QuizCandidates(questions, quizCategory, previous) == []
      ensures r.Err? ==> r.error == NotFound
      ensures r.Ok? ==> r.value in QuizCandidates(questions, quizCategory, previous)
      ensures r.Ok? ==> r.value in questions && r.value.id !in previous
      ensures r.Ok? && quizCategory != Some(0) ==> quizCategory == Some(r.value.category)
    {
      var candidates := QuizCandidates(questions, quizCategory, previous);
      var ids := IdsOf(candidates);
      if ids == [] {
        return Err(NotFound);
      }
      assert ids[0] in ids;
      var id :| id in ids;
      ghost var q :| q in candidates && q.id == id;
      FindByIdIsUnique(questions, q);
      var found := FindById(questions, id);
      r := Ok(found.value);
    }
  }

  /** Appending a row whose id exceeds every id keeps the id order. */
  lemma AppendKeepsIdOrder(qs: seq<Question>, q: Question)
    requires IdsAscending(qs)
    requires forall p :: p in qs ==> p.id < q.id
    ensures IdsAscending(qs + [q])
  {
  }
}
