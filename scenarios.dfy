/**
 * Client code that replays the situations of the backend's test suite on a
 * small store. The handlers' results follow from their contracts alone; the
 * expected rows are computed from the query functions.
 */
module Scenarios {
  import opened Wrappers
  import opened Errors
  import opened Queries
  import opened App

  function Sample(id: int, text: string, category: int): Question
  {
    Question(id, text, "answer", category, 1)
  }

  /** A known id is deleted once; asking again for the same id is a 404. */
  method DeleteTwice()
  {
    var qs := [Sample(1, "a", 1), Sample(2, "b", 1), Sample(3, "c", 2)];
    var app := new TriviaApp(qs, [Category(1, "Science"), Category(2, "Art")], 4);
    assert qs[1].id == 2;
    var first := app.DeleteQuestion(2, 1, true);
    assert first.Ok? && first.value.deleted == 2 && first.value.totalQuestions == 2;
    assert app.questions == [qs[0], qs[2]];
    var second := app.DeleteQuestion(2, 1, true);
    assert second == Err(NotFound);
    assert HandleError(second.error).message == "Resource was not found";
  }

  /** An id that was never stored is a 404 and leaves the store as it was. */
  method DeleteUnknown()
  {
    var qs := [Sample(1, "a", 1), Sample(2, "b", 1)];
    var app := new TriviaApp(qs, [], 3);
    assert !HasId(qs, 200);
    var r := app.DeleteQuestion(200, 1, true);
    assert r == Err(NotFound) && app.questions == qs;
  }

  /** A page past the last one is a 404 "Resource was not found". */
  method PageOutOfRange()
  {
    var app := new TriviaApp([Sample(1, "a", 1), Sample(2, "b", 1)], [], 3);
    var r := app.RetrieveQuestions(100);
    assert r == Err(NotFound);
    var first := app.RetrieveQuestions(1);
    assert first.Ok? && first.value.totalQuestions == 2;
  }

  /** A created question lands at the end, under a fresh id. */
  method CreateAppends()
  {
    var qs := [Sample(1, "a", 1)];
    var app := new TriviaApp(qs, [], 5);
    var body := PostBody(None, NewQuestion("Where is x", "it is in Y", 1, 2));
    var r := app.PostQuestions(body, 1, true);
    assert r.Ok? && r.value.totalQuestions == 2;
    assert app.questions[1].id == 5 && app.questions[1].category == 2;
    var rejected := app.PostQuestions(body, 1, false);
    assert rejected == Err(Unprocessable) && |app.questions| == 2;
  }

  /** Only questions of the requested category are listed; an unused category is a 404. */
  method CategoryListing()
  {
    var qs := [Sample(1, "a", 1), Sample(2, "b", 2), Sample(3, "c", 1)];
    var app := new TriviaApp(qs, [Category(1, "Science"), Category(2, "Art")], 4);
    var r := app.QuestionsForCategory(1, 1);
    assert Filter(qs, CategoryIs(1)) == [qs[0], qs[2]];
    assert r.Ok? && r.value.totalQuestions == 2 && r.value.currentCategory == Some(1);
    var unknown := app.QuestionsForCategory(100, 1);
    assert Filter(qs, CategoryIs(100)) == [];
    assert unknown == Err(NotFound);
  }

  /** With question 11 already seen, the only question left in category 6 is question 10. */
  method QuizSkipsPrevious()
  {
    var q10, q11 := Sample(10, "x", 6), Sample(11, "y", 6);
    var qs := [Sample(9, "w", 1), q10, q11];
    var app := new TriviaApp(qs, [], 12);
    assert q10 in QuizCandidates(qs, Some(6), [11]);
    var r := app.QuizQuestion(Some(6), [11]);
    assert r == Ok(q10);
  }

  /** A category with no questions, such as 300, gives a 404 quiz. */
  method QuizUnknownCategory()
  {
    var qs := [Sample(1, "a", 1), Sample(2, "b", 6)];
    var app := new TriviaApp(qs, [], 3);
    UnusedCategoryHasNoCandidates(qs, 300, []);
    var r := app.QuizQuestion(Some(300), []);
    assert r == Err(NotFound);
    assert ErrorResponse(404) == Some(ErrorBody(false, 404, "Resource was not found"));
  }

  /** "title" occurs, in some case, in the first two texts and not in the third. */
  lemma TitleOccurrences()
    ensures ContainsIgnoringCase("Title?", "title")
    ensures ContainsIgnoringCase("Entitled", "title")
    ensures !ContainsIgnoringCase("Who?", "title")
  {
    assert OccursAt("Title?", "title", 0);
    assert OccursAt("Entitled", "title", 2);
  }

  /** "title" has no ILIKE wildcard, so its search is the substring test. */
  lemma TitleSearchIsSubstring(q: Question)
    ensures Holds(QuestionIlike(SearchPattern("title")), q) <==> ContainsIgnoringCase(q.question, "title")
  {
    assert NoWildcards("title");
    SearchIsSubstringMatch(q.question, "title");
  }

  /** The ILIKE filter of the search for "title" holds of the first two texts only. */
  lemma TitleFilterHolds(a: Question, b: Question, c: Question)
    requires a.question == "Title?" && b.question == "Entitled" && c.question == "Who?"
    ensures Holds(QuestionIlike(SearchPattern("title")), a)
    ensures Holds(QuestionIlike(SearchPattern("title")), b)
    ensures !Holds(QuestionIlike(SearchPattern("title")), c)
  {
    TitleOccurrences();
    TitleSearchIsSubstring(a);
    TitleSearchIsSubstring(b);
    TitleSearchIsSubstring(c);
  }

  /** Of three such questions, the search for "title" keeps the first two, in order. */
  lemma TitleMatches(a: Question, b: Question, c: Question)
    requires a.question == "Title?" && b.question == "Entitled" && c.question == "Who?"
    ensures SearchMatches([a, b, c], "title") == [a, b]
  {
    var crit := QuestionIlike(SearchPattern("title"));
    TitleFilterHolds(a, b, c);
    assert [a, b] + [c] == [a, b, c];
    FilterAppend([a, b], [c], crit);
    FilterKeepsAll([a, b], crit);
    FilterRejectsAll([c], crit);
  }

  /** The search for "title" finds the two questions that contain it, in any case. */
  method SearchTitle(a: Question, b: Question, c: Question)
    requires a.question == "Title?" && b.question == "Entitled" && c.question == "Who?"
    requires a.id < b.id < c.id
  {
    var app := new TriviaApp([a, b, c], [], c.id + 1);
    TitleMatches(a, b, c);
    assert Paginate([a, b], 1) == [a, b];
    var r := app.PostQuestions(PostBody(Some("title"), NewQuestion("", "", 0, 0)), 1, true);
    assert r == Ok(Searched([a, b], 2));
  }
}
