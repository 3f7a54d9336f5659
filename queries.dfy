/**
 * The query and selection logic of the trivia backend, over an in-memory
 * store: pagination of an ordered selection (with Python's slice rules), the
 * row filters the handlers chain onto a query (category, id exclusion, id
 * lookup, ILIKE search), the quiz candidate set, and the category id -> type
 * map.
 */
module Queries {
  import opened Wrappers

  /** Questions shown per page. */
  const QuestionsPerPage: nat := 10

  /** A row of the question table; `format()` gives exactly these five fields. */
  datatype Question = Question(id: int, question: string, answer: string, category: int, difficulty: int)

  /** A row of the category table; `kind` is the column the source calls `type`. */
  datatype Category = Category(id: int, kind: string)

  function Min(a: int, b: int): int
  {
    if a <= b then a else b
  }

  function Max(a: int, b: int): int
  {
    if a >= b then a else b
  }

  /* ---------------- Pagination ---------------- */

  /**
   * Python's normalisation of a slice bound against a sequence of length n:
   * a negative bound counts from the end, and the result is clamped to [0, n].
   */
  function SliceBound(k: int, n: nat): (r: nat)
    ensures r <= n
  {
    if k < 0 then (if n + k < 0 then 0 else n + k)
    else if k > n then n
    else k
  }

  /**
   * Python's `s[i:j]`: the normalised window, empty when the bounds cross.
   * Bounds of one sign give the window they name, clipped to the sequence;
   * negative bounds count from the end.
   */
  function PySlice<T>(s: seq<T>, i: int, j: int): (r: seq<T>)
    ensures |r| <= |s|
    ensures forall x :: x in r ==> x in s
    ensures 0 <= i <= j ==> r == s[Min(i, |s|)..Min(j, |s|)]
    ensures i <= j < 0 ==> r == s[Max(0, |s| + i)..Max(0, |s| + j)]
    ensures (0 <= j <= i || j <= i < 0) ==> r == []
    ensures i < 0 <= j ==> r == s[Max(0, |s| + i)..Max(Max(0, |s| + i), Min(j, |s|))]
    ensures j < 0 <= i ==> r == s[Min(i, |s|)..Max(Min(i, |s|), Max(0, |s| + j))]
  {
    var lo, hi := SliceBound(i, |s|), SliceBound(j, |s|);
    if lo < hi then s[lo..hi] else []
  }

  /** The index of the first item on a page. */
  function PageStart(page: int): int
  {
    QuestionsPerPage * (page - 1)
  }

  /**
   * `pagination_questions`: the items `[start:start + 10]` of the selection,
   * with `start = 10 * (page - 1)`. For page >= 1 this is exactly the window
   * starting at `start`, clipped to the selection; page 0 ends at index 0 and
   * is empty; a negative page counts both bounds from the end.
   */
  function Paginate<T>(items: seq<T>, page: int): (r: seq<T>)
    ensures |r| <= QuestionsPerPage
    ensures forall x :: x in r ==> x in items
    ensures page >= 1 ==>
      r == items[Min(PageStart(page), |items|)..Min(PageStart(page) + QuestionsPerPage, |items|)]
    ensures page == 0 ==> r == []
    ensures page <= -1 ==>
      r == items[Max(0, |items| + PageStart(page))..Max(0, |items| + PageStart(page) + QuestionsPerPage)]
  {
    var start := PageStart(page);
    PySlice(items, start, start + QuestionsPerPage)
  }

  /** The number of non-empty pages, ceil(N / 10). */
  function PageCount(n: nat): nat
  {
    (n + QuestionsPerPage - 1) / QuestionsPerPage
  }

  /** A page (numbered from 1) is empty exactly when it lies beyond the last one. */
  lemma PageEmptyIffBeyondLast<T>(items: seq<T>, page: int)
    requires page >= 1
    ensures Paginate(items, page) == [] <==> page > PageCount(|items|)
  {
  }

  /** Page 0 and the negative pages follow Python's negative slice indices instead. */
  lemma NonPositivePages<T>(items: seq<T>)
    ensures Paginate(items, 0) == []
    ensures |items| >= 20 ==> Paginate(items, -1) == items[|items| - 20..|items| - 10]
    ensures |items| < 10 ==> Paginate(items, -1) == []
  {
  }

  /** Any window of an id-ordered selection is id-ordered, so every page keeps `order_by(Question.id)`. */
  lemma PaginateKeepsIdOrder(items: seq<Question>, page: int)
    requires IdsAscending(items)
    ensures IdsAscending(Paginate(items, page))
  {
  }

  /** The first k pages, read one after the other. */
  function FirstPages<T>(items: seq<T>, k: nat): seq<T>
  {
    if k == 0 then [] else FirstPages(items, k - 1) + Paginate(items, k)
  }

  /** Reading pages 1..k in order gives the selection's first 10k items, each once. */
  lemma {:induction false} FirstPagesArePrefix<T>(items: seq<T>, k: nat)
    ensures FirstPages(items, k) == items[..Min(QuestionsPerPage * k, |items|)]
  {
    if k > 0 {
      FirstPagesArePrefix(items, k - 1);
      var a, b := Min(QuestionsPerPage * (k - 1), |items|), Min(QuestionsPerPage * k, |items|);
      assert Paginate(items, k) == items[a..b];
      assert items[..a] + items[a..b] == items[..b];
    }
  }

  /** The pages 1..PageCount(N) together hold the whole selection, in order. */
  lemma AllPagesCoverSelection<T>(items: seq<T>)
    ensures FirstPages(items, PageCount(|items|)) == items
  {
    FirstPagesArePrefix(items, PageCount(|items|));
    assert QuestionsPerPage * PageCount(|items|) >= |items|;
  }

  /* ---------------- Row filters ---------------- */

  /** The filter expressions the handlers put on `Question.query`. */
  datatype Criterion =
    | CategoryIs(category: int)         // Question.category == c
    | CategoryIsNull                    // Question.category == None, i.e. IS NULL
    | IdNotIn(ids: seq<int>)            // Question.id.notin_(ids)
    | IdIs(id: int)                     // Question.id == id
    | IdIsNot(id: int)                  // every row but the one with this id
    | QuestionIlike(pattern: string)    // Question.question.ilike(pattern)

  /** Whether a row satisfies a filter expression. */
  predicate Holds(c: Criterion, q: Question)
  {
    match c
    case CategoryIs(cat) => q.category == cat
    case CategoryIsNull => false  // stored rows have no NULL column
    case IdNotIn(ids) => q.id !in ids
    case IdIs(id) => q.id == id
    case IdIsNot(id) => q.id != id
    case QuestionIlike(pattern) => Like(q.question, pattern)
  }

  /**
   * `.filter(c)`: the rows of the query that satisfy c. On a query ordered
   * by id the result is still ordered by id (FilterKeepsIdOrder).
   */
  function Filter(qs: seq<Question>, c: Criterion): (r: seq<Question>)
    ensures |r| <= |qs|
    ensures forall q :: q in r <==> q in qs && Holds(c, q)
  {
    if qs == [] then []
    else (if Holds(c, qs[0]) then [qs[0]] else []) + Filter(qs[1..], c)
  }

  /** The store's order: ids strictly ascending, hence unique. */
  ghost predicate IdsAscending(qs: seq<Question>)
  {
    forall i, j :: 0 <= i < j < |qs| ==> qs[i].id < qs[j].id
  }

  /** A filter keeps the id order of the query it filters (`order_by(Question.id)` survives). */
  lemma {:induction false} FilterKeepsIdOrder(qs: seq<Question>, c: Criterion)
    requires IdsAscending(qs)
    ensures IdsAscending(Filter(qs, c))
  {
    if qs != [] {
      var tail := qs[1..];
      assert IdsAscending(tail) by {
        forall i, j | 0 <= i < j < |tail| ensures tail[i].id < tail[j].id {
          assert tail[i] == qs[i + 1] && tail[j] == qs[j + 1];
        }
      }
      FilterKeepsIdOrder(tail, c);
      var rest := Filter(tail, c);
      if Holds(c, qs[0]) {
        forall q | q in rest
          ensures qs[0].id < q.id
        {
          var k :| 0 <= k < |tail| && tail[k] == q;
          assert qs[k + 1] == q;
        }
        PrependKeepsIdOrder(qs[0], rest);
      }
    }
  }

  /** A row with a smaller id than every row of an id-ordered sequence can go in front. */
  lemma PrependKeepsIdOrder(x: Question, rest: seq<Question>)
    requires IdsAscending(rest)
    requires forall q :: q in rest ==> x.id < q.id
    ensures IdsAscending([x] + rest)
  {
  }

  /** Filtering distributes over concatenation. */
  lemma {:induction false} FilterAppend(a: seq<Question>, b: seq<Question>, c: Criterion)
    ensures Filter(a + b, c) == Filter(a, c) + Filter(b, c)
  {
    if a != [] {
      assert (a + b)[1..] == a[1..] + b;
      FilterAppend(a[1..], b, c);
    } else {
      assert a + b == b;
    }
  }

  /** A filter every row satisfies returns the rows unchanged. */
  lemma {:induction false} FilterKeepsAll(qs: seq<Question>, c: Criterion)
    requires forall i :: 0 <= i < |qs| ==> Holds(c, qs[i])
    ensures Filter(qs, c) == qs
  {
    if qs != [] {
      assert forall i :: 0 <= i < |qs[1..]| ==> qs[1..][i] == qs[i + 1];
      FilterKeepsAll(qs[1..], c);
    }
  }

  /** A filter no row satisfies returns nothing. */
  lemma {:induction false} FilterRejectsAll(qs: seq<Question>, c: Criterion)
    requires forall i :: 0 <= i < |qs| ==> !Holds(c, qs[i])
    ensures Filter(qs, c) == []
  {
    if qs != [] {
      assert forall i :: 0 <= i < |qs[1..]| ==> qs[1..][i] == qs[i + 1];
      FilterRejectsAll(qs[1..], c);
    }
  }

  /* ---------------- Lookup and removal by id ---------------- */

  predicate HasId(qs: seq<Question>, id: int)
  {
    exists k :: 0 <= k < |qs| && qs[k].id == id
  }

  /** `filter(Question.id == id).one_or_none()`; ids are unique in the store, so at most one row matches. */
  function FindById(qs: seq<Question>, id: int): (r: Option<Question>)
    ensures r.Some? <==> HasId(qs, id)
    ensures r.Some? ==> r.value in qs && r.value.id == id
  {
    if qs == [] then None
    else if qs[0].id == id then Some(qs[0])
    else
      var r := FindById(qs[1..], id);
      assert HasId(qs, id) ==> HasId(qs[1..], id) by {
        if HasId(qs, id) {
          var k :| 0 <= k < |qs| && qs[k].id == id;
          assert qs[1..][k - 1].id == id;
        }
      }
      assert r.Some? ==> HasId(qs, id) by {
        if r.Some? {
          var k :| 0 <= k < |qs[1..]| && qs[1..][k].id == id;
          assert qs[k + 1].id == id;
        }
      }
      r
  }

  /** In a store with unique ids the row found by id is the only one with that id. */
  lemma FindByIdIsUnique(qs: seq<Question>, q: Question)
    requires IdsAscending(qs)
    requires q in qs
    ensures FindById(qs, q.id) == Some(q)
  {
  }

  /** The store after `question.delete()`: every row except the one with that id. */
  function RemoveId(qs: seq<Question>, id: int): (r: seq<Question>)
    ensures !HasId(r, id)
    ensures forall q :: q in r <==> q in qs && q.id != id
  {
    var r := Filter(qs, IdIsNot(id));
    assert forall k :: 0 <= k < |r| ==> r[k] in r;
    r
  }

  /**
   * Deleting the k-th row of an id-ordered store removes exactly that row:
   * the other rows stay, in their order, and the store shrinks by one.
   */
  lemma RemoveIdSplices(qs: seq<Question>, k: int)
    requires IdsAscending(qs)
    requires 0 <= k < |qs|
    ensures RemoveId(qs, qs[k].id) == qs[..k] + qs[k + 1..]
    ensures |RemoveId(qs, qs[k].id)| == |qs| - 1
  {
    var c := IdIsNot(qs[k].id);
    var pre, post := qs[..k], qs[k + 1..];
    assert qs == (pre + [qs[k]]) + post;
    FilterAppend(pre + [qs[k]], post, c);
    FilterAppend(pre, [qs[k]], c);
    assert Filter([qs[k]], c) == [] by {
      assert [qs[k]][1..] == [];
    }
    assert forall i :: 0 <= i < |pre| ==> Holds(c, pre[i]) by {
      forall i | 0 <= i < |pre| ensures Holds(c, pre[i]) {
        assert pre[i] == qs[i];
      }
    }
    FilterKeepsAll(pre, c);
    assert forall i :: 0 <= i < |post| ==> Holds(c, post[i]) by {
      forall i | 0 <= i < |post| ensures Holds(c, post[i]) {
        assert post[i] == qs[k + 1 + i];
      }
    }
    FilterKeepsAll(post, c);
    calc {
      RemoveId(qs, qs[k].id);
      Filter((pre + [qs[k]]) + post, c);
      Filter(pre + [qs[k]], c) + Filter(post, c);
      (Filter(pre, c) + Filter([qs[k]], c)) + Filter(post, c);
      (pre + []) + post;
      { assert pre + [] == pre; }
      pre + post;
    }
  }

  /** Removal keeps the store's id order. */
  lemma RemoveIdKeepsIdOrder(qs: seq<Question>, id: int)
    requires IdsAscending(qs)
    ensures IdsAscending(RemoveId(qs, id))
  {
    FilterKeepsIdOrder(qs, IdIsNot(id));
  }

  /* ---------------- Search ---------------- */

  /** ASCII case folding, the part of ILIKE's case-insensitivity this model covers. */
  function Fold(c: char): char
  {
    if 'A' <= c <= 'Z' then (c as int + 32) as char else c
  }

  /**
   * SQL `ILIKE` with PostgreSQL's default escape character: `%` matches any
   * run of characters, `_` any one character, a backslash makes the next
   * character literal, and letters compare without regard to case. A lone
   * trailing backslash, which PostgreSQL rejects, is read as a literal here;
   * SearchPattern never produces one.
   */
  predicate Like(text: string, pattern: string)
    decreases |text| + |pattern|
  {
    if pattern == [] then text == []
    else if pattern[0] == '%' then
      Like(text, pattern[1..]) || (text != [] && Like(text[1..], pattern))
    else if pattern[0] == '_' then
      text != [] && Like(text[1..], pattern[1..])
    else if pattern[0] == '\\' && |pattern| > 1 then
      text != [] && Fold(text[0]) == Fold(pattern[1]) && Like(text[1..], pattern[2..])
    else
      text != [] && Fold(text[0]) == Fold(pattern[0]) && Like(text[1..], pattern[1..])
  }

  /** The pattern the search branch builds, `f'%{search_term}%'`. */
  function SearchPattern(term: string): string
  {
    "%" + term + "%"
  }

  /** Characters that ILIKE does not read literally. */
  predicate IsWildcard(c: char)
  {
    c == '%' || c == '_' || c == '\\'
  }

  predicate NoWildcards(s: string)
  {
    forall k :: 0 <= k < |s| ==> !IsWildcard(s[k])
  }

  predicate EqualIgnoringCase(a: string, b: string)
  {
    |a| == |b| && forall k :: 0 <= k < |a| ==> Fold(a[k]) == Fold(b[k])
  }

  /** term occurs in text at position i, ignoring case. */
  predicate OccursAt(text: string, term: string, i: int)
  {
    0 <= i && i + |term| <= |text| && EqualIgnoringCase(text[i..i + |term|], term)
  }

  /** The reference meaning of the search: term is a substring of text, ignoring case. */
  predicate ContainsIgnoringCase(text: string, term: string)
  {
    exists i :: 0 <= i <= |text| && OccursAt(text, term, i)
  }

  /** A trailing `%` matches any rest of the text. */
  lemma {:induction false} LikePercent(text: string)
    ensures Like(text, "%")
  {
    if text != [] {
      LikePercent(text[1..]);
    }
  }

  /** Text matches `w%` for a literal w exactly when it starts with w, ignoring case. */
  lemma {:induction false} LikePrefix(text: string, w: string)
    requires NoWildcards(w)
    ensures Like(text, w + "%") <==> |w| <= |text| && EqualIgnoringCase(text[..|w|], w)
  {
    if w == [] {
      assert w + "%" == "%";
      LikePercent(text);
    } else {
      var p := w + "%";
      assert p[0] == w[0] && !IsWildcard(w[0]);
      assert p[1..] == w[1..] + "%";
      assert NoWildcards(w[1..]) by {
        forall k | 0 <= k < |w[1..]| ensures !IsWildcard(w[1..][k]) {
          assert w[1..][k] == w[k + 1];
        }
      }
      if text != [] {
        LikePrefix(text[1..], w[1..]);
        if |w| <= |text| {
          var a, a' := text[..|w|], text[1..][..|w| - 1];
          assert forall k :: 0 < k < |w| ==> a[k] == a'[k - 1] && w[k] == w[1..][k - 1];
          if EqualIgnoringCase(a, w) {
            assert Fold(a[0]) == Fold(w[0]);
            assert EqualIgnoringCase(a', w[1..]) by {
              forall k | 0 <= k < |a'| ensures Fold(a'[k]) == Fold(w[1..][k]) {
                assert a'[k] == a[k + 1];
              }
            }
          }
        }
      }
    }
  }

  /** Text matches `%q` exactly when q matches some suffix of it. */
  lemma {:induction false} LikeLeadingPercent(text: string, q: string)
    ensures Like(text, "%" + q) <==> exists i :: 0 <= i <= |text| && Like(text[i..], q)
  {
    var p := "%" + q;
    assert p[0] == '%' && p[1..] == q;
    assert text[0..] == text;
    if text != [] {
      LikeLeadingPercent(text[1..], q);
      if Like(text[1..], p) {
        var j :| 0 <= j <= |text[1..]| && Like(text[1..][j..], q);
        assert text[1..][j..] == text[j + 1..];
      }
      if i :| 0 < i <= |text| && Like(text[i..], q) {
        assert text[1..][i - 1..] == text[i..];
      }
    }
  }

  /** A literal term followed by `%` matches the suffix from i exactly when the term occurs at i. */
  lemma SuffixMatchIsOccurrence(text: string, term: string, i: int)
    requires NoWildcards(term)
    requires 0 <= i <= |text|
    ensures Like(text[i..], term + "%") <==> OccursAt(text, term, i)
  {
    LikePrefix(text[i..], term);
    if |term| <= |text[i..]| {
      assert text[i..][..|term|] == text[i..i + |term|];
    }
  }

  /** For a term without wildcards, the ILIKE search is the case-insensitive substring test. */
  lemma SearchIsSubstringMatch(text: string, term: string)
    requires NoWildcards(term)
    ensures Like(text, SearchPattern(term)) <==> ContainsIgnoringCase(text, term)
  {
    assert SearchPattern(term) == "%" + (term + "%");
    LikeLeadingPercent(text, term + "%");
    if Like(text, SearchPattern(term)) {
      var i :| 0 <= i <= |text| && Like(text[i..], term + "%");
      SuffixMatchIsOccurrence(text, term, i);
    }
    if ContainsIgnoringCase(text, term) {
      var i :| 0 <= i <= |text| && OccursAt(text, term, i);
      SuffixMatchIsOccurrence(text, term, i);
    }
  }

  /** The term is spliced into the pattern unescaped: a term of `%` matches every question. */
  lemma PercentTermMatchesAnyText(text: string)
    ensures Like(text, SearchPattern("%"))
  {
    assert SearchPattern("%") == "%" + "%%";
    LikeLeadingPercent(text, "%%");
    assert text[|text|..] == [];
    assert Like([], "%%") by {
      assert "%%"[1..] == "%";
      LikePercent([]);
    }
  }

  /** ... although no question text without a `%` contains the term `%`. */
  lemma PercentTermIsNotASubstring(text: string)
    requires forall k :: 0 <= k < |text| ==> text[k] != '%'
    ensures !ContainsIgnoringCase(text, "%")
  {
    if i :| OccursAt(text, "%", i) {
      assert Fold(text[i..i + 1][0]) == Fold('%');
    }
  }

  /** The rows the search branch selects. */
  function SearchMatches(qs: seq<Question>, term: string): (r: seq<Question>)
    ensures forall q :: q in r <==> q in qs && Like(q.question, SearchPattern(term))
  {
    Filter(qs, QuestionIlike(SearchPattern(term)))
  }

  /**
   * For a term without wildcards, the search keeps exactly the questions
   * whose text contains the term, ignoring case.
   */
  lemma SearchFindsSubstrings(qs: seq<Question>, term: string, q: Question)
    requires NoWildcards(term)
    ensures q in SearchMatches(qs, term) <==> q in qs && ContainsIgnoringCase(q.question, term)
  {
    SearchIsSubstringMatch(q.question, term);
  }

  /* ---------------- Quiz candidates ---------------- */

  /** The category filter of the quiz: the id sent, where an absent id compares with NULL. */
  function CategoryCriterion(quizCategory: Option<int>): Criterion
  {
    match quizCategory
    case Some(c) => CategoryIs(c)
    case None => CategoryIsNull
  }

  /**
   * The quiz's `possible_questions`: category 0 means every question,
   * otherwise only that category's; either way without the previous ids.
   */
  function QuizCandidates(qs: seq<Question>, quizCategory: Option<int>, previous: seq<int>): (r: seq<Question>)
    ensures forall q :: q in r <==>
      q in qs && q.id !in previous && (quizCategory == Some(0) || quizCategory == Some(q.category))
  {
    if quizCategory == Some(0) then Filter(qs, IdNotIn(previous))
    else Filter(Filter(qs, CategoryCriterion(quizCategory)), IdNotIn(previous))
  }

  /**
   * The candidates' ids, `[x.id for x in possible_questions.all()]`: empty
   * exactly when there are no candidates, and listing exactly their ids.
   */
  function IdsOf(qs: seq<Question>): (r: seq<int>)
    ensures r == [] <==> qs == []
    ensures forall id :: id in r <==> exists q :: q in qs && q.id == id
  {
    var r := seq(|qs|, k requires 0 <= k < |qs| => qs[k].id);
    assert forall k :: 0 <= k < |qs| ==> r[k] == qs[k].id && qs[k] in qs && r[k] in r;
    r
  }

  /** A category nothing is filed under (such as 300) leaves no candidates, whatever was seen. */
  lemma UnusedCategoryHasNoCandidates(qs: seq<Question>, c: int, previous: seq<int>)
    requires c != 0
    requires forall q :: q in qs ==> q.category != c
    ensures QuizCandidates(qs, Some(c), previous) == []
  {
  }

  /** Once every id has been seen, no candidates are left in any category. */
  lemma AllSeenHasNoCandidates(qs: seq<Question>, quizCategory: Option<int>, previous: seq<int>)
    requires forall q :: q in qs ==> q.id in previous
    ensures QuizCandidates(qs, quizCategory, previous) == []
  {
    var seen := IdNotIn(previous);
    var pool := if quizCategory == Some(0) then qs else Filter(qs, CategoryCriterion(quizCategory));
    forall i | 0 <= i < |pool| ensures !Holds(seen, pool[i]) {
      assert pool[i] in pool;
    }
    FilterRejectsAll(pool, seen);
  }

  /* ---------------- Category map ---------------- */

  /** The dict `formatted_categories` builds: one entry per row, a later row overwriting an earlier one. */
  function CategoryMap(cats: seq<Category>): map<int, string>
  {
    if cats == [] then map[]
    else CategoryMap(cats[..|cats| - 1])[cats[|cats| - 1].id := cats[|cats| - 1].kind]
  }

  /** Category ids are the table's primary key. */
  ghost predicate DistinctCategoryIds(cats: seq<Category>)
  {
    forall i, j :: 0 <= i < j < |cats| ==> cats[i].id != cats[j].id
  }

  function CategoryIds(cats: seq<Category>): set<int>
  {
    set k | 0 <= k < |cats| :: cats[k].id
  }

  /** The map's domain is exactly the set of category ids. */
  lemma {:induction false} CategoryMapDomain(cats: seq<Category>)
    ensures CategoryMap(cats).Keys == CategoryIds(cats)
  {
    if cats != [] {
      var init := cats[..|cats| - 1];
      CategoryMapDomain(init);
      assert CategoryIds(cats) == CategoryIds(init) + {cats[|cats| - 1].id} by {
        forall x | x in CategoryIds(cats) ensures x in CategoryIds(init) + {cats[|cats| - 1].id} {
          var k :| 0 <= k < |cats| && cats[k].id == x;
          if k < |cats| - 1 {
            assert init[k].id == x;
          }
        }
        forall x | x in CategoryIds(init) ensures x in CategoryIds(cats) {
          var k :| 0 <= k < |init| && init[k].id == x;
          assert cats[k].id == x;
        }
      }
    }
  }

  /** With distinct ids, each category id maps to that category's type. */
  lemma {:induction false} CategoryMapValue(cats: seq<Category>, k: int)
    requires DistinctCategoryIds(cats)
    requires 0 <= k < |cats|
    ensures cats[k].id in CategoryMap(cats)
    ensures CategoryMap(cats)[cats[k].id] == cats[k].kind
  {
    if k < |cats| - 1 {
      var init := cats[..|cats| - 1];
      assert DistinctCategoryIds(init) by {
        forall i, j | 0 <= i < j < |init| ensures init[i].id != init[j].id {
          assert init[i] == cats[i] && init[j] == cats[j];
        }
      }
      CategoryMapValue(init, k);
      assert init[k] == cats[k];
      assert cats[k].id != cats[|cats| - 1].id;
    }
  }

  /** `formatted_categories`: fills the dict row by row. */
  method FormattedCategories(cats: seq<Category>) returns (m: map<int, string>)
    ensures m == CategoryMap(cats)
    ensures m.Keys == CategoryIds(cats)
    ensures DistinctCategoryIds(cats) ==>
      forall k :: 0 <= k < |cats| ==> cats[k].id in m && m[cats[k].id] == cats[k].kind
  {
    m := map[];
    for i := 0 to |cats|
      invariant m == CategoryMap(cats[..i])
    {
      assert cats[..i + 1][..i] == cats[..i];
      m := m[cats[i].id := cats[i].kind];
    }
    assert cats[..|cats|] == cats;
    CategoryMapDomain(cats);
    if DistinctCategoryIds(cats) {
      forall k | 0 <= k < |cats|
        ensures cats[k].id in m && m[cats[k].id] == cats[k].kind
      {
        CategoryMapValue(cats, k);
      }
    }
  }
}
