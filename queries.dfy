/**
 * The read-only handlers: the category listing, the paginated question
 * listing, the search and the by-category listing. Each reads the two
 * tables and answers; none changes them, so each is a function of the
 * tables' contents.
 */
module Queries {
  import opened Wrappers
  import opened Records
  import opened Responses
  import opened Pagination
  import Json
  import Numerals

  // ---------------------------------------------------------------- categories

  /** No later category in the sequence has the same id as category `i`. */
  predicate LastWithId(cats: seq<Category>, i: int)
    requires 0 <= i < |cats|
  {
    forall j :: i < j < |cats| ==> cats[j].id != cats[i].id
  }

  /**
   * The dictionary comprehension `{c.id: c.type for c in categories}`:
   * one key per id, and for a repeated id the last row wins.
   */
  function CategoryMap(cats: seq<Category>): (m: map<int, string>)
    ensures m.Keys == set c | c in cats :: c.id
    ensures forall i :: 0 <= i < |cats| && LastWithId(cats, i) ==> m[cats[i].id] == cats[i].typeName
  {
    if cats == [] then map[]
    else
      var init := cats[..|cats| - 1];
      var last := cats[|cats| - 1];
      assert cats == init + [last];
      CategoryMap(init)[last.id := last.typeName]
  }

  /** With distinct ids (the table's primary key) the dictionary has one entry per category, each with its type. */
  lemma {:induction false} CategoryMapOfDistinct(cats: seq<Category>)
    ensures DistinctCategoryIds(cats) ==>
              |CategoryMap(cats)| == |cats| &&
              forall c :: c in cats ==> c.id in CategoryMap(cats) && CategoryMap(cats)[c.id] == c.typeName
  {
    if cats != [] && DistinctCategoryIds(cats) {
      var init := cats[..|cats| - 1];
      var last := cats[|cats| - 1];
      assert DistinctCategoryIds(init);
      CategoryMapOfDistinct(init);
      assert last.id !in CategoryMap(init);
      forall c | c in cats
        ensures c.id in CategoryMap(cats) && CategoryMap(cats)[c.id] == c.typeName
      {
        var i :| 0 <= i < |cats| && cats[i] == c;
        assert LastWithId(cats, i);
      }
    }
  }

  /** GET /categories: every category as a map from id to type; this route has no failure path. */
  function GetCategories(cats: seq<Category>): (r: Response)
    ensures r.Ok? && r.body.CategoryListing?
    ensures r.body.categories.Keys == set c | c in cats :: c.id
    ensures DistinctCategoryIds(cats) ==>
              |r.body.categories| == |cats| &&
              forall c :: c in cats ==> r.body.categories[c.id] == c.typeName
  {
    CategoryMapOfDistinct(cats);
    Ok(CategoryListing(CategoryMap(cats)))
  }

  // ---------------------------------------------------------------- listing

  /**
   * GET /questions: not found exactly when the requested page is empty;
   * otherwise the page, the size of the whole table and every category.
   */
  function RetrieveQuestions(qs: seq<Question>, cats: seq<Category>, pageArg: Option<int>): (r: Response)
    ensures var w := PageWindow(qs, PageNumber(pageArg));
            (r.Abort? <==> w == []) &&
            (r.Abort? ==> r.code == NotFound) &&
            (r.Ok? ==> r.body.QuestionPage? && r.body.questions == w &&
                       0 < |r.body.questions| <= QuestionsPerPage &&
                       r.body.totalQuestions == |qs| &&
                       r.body.categories == CategoryMap(cats))
  {
    var current := PageWindow(qs, PageNumber(pageArg));
    if current == [] then Abort(NotFound)
    else Ok(QuestionPage(current, |qs|, CategoryMap(cats)))
  }

  /** Without a page argument the first page is served: the first ten questions when there are ten. */
  lemma FirstPageByDefault(qs: seq<Question>, cats: seq<Category>)
    requires |qs| >= QuestionsPerPage
    ensures var r := RetrieveQuestions(qs, cats, None);
            r.Ok? && r.body.questions == qs[..QuestionsPerPage] && r.body.totalQuestions == |qs|
  {
    PageWindowOfPositivePage(qs, 1);
  }

  /** A page from 1 on that starts past the last question is not found; so is every page of an empty table. */
  lemma PageBeyondTableNotFound(qs: seq<Question>, cats: seq<Category>, page: int)
    requires page >= 1 && |qs| <= PageStart(page)
    ensures RetrieveQuestions(qs, cats, Some(page)) == Abort(NotFound)
  {
    PageWindowEmptyIff(qs, page);
  }

  // ---------------------------------------------------------------- filtering

  /** The rows of `s` that `keep` accepts, in their table order (a filtered query). */
  function Filter(s: seq<Question>, keep: Question -> bool): (r: seq<Question>)
    ensures |r| <= |s|
    ensures forall x :: x in r <==> x in s && keep(x)
    ensures forall x :: multiset(r)[x] == if keep(x) then multiset(s)[x] else 0
  {
    if s == [] then []
    else
      assert s == [s[0]] + s[1..];
      (if keep(s[0]) then [s[0]] else []) + Filter(s[1..], keep)
  }

  /** `Question.query.filter(Question.category == key).all()`: the questions of one category. */
  function WithCategory(qs: seq<Question>, key: string): (r: seq<Question>)
    ensures forall q :: q in r <==> q in qs && q.category == key
    ensures forall q :: multiset(r)[q] == if q.category == key then multiset(qs)[q] else 0
  {
    Filter(qs, (q: Question) => q.category == key)
  }

  // ---------------------------------------------------------------- search

  /** ASCII lower case; other characters are left as they are. */
  function LowerChar(c: char): (l: char) {
    if 'A' <= c <= 'Z' then ((c as int) + 32) as char else c
  }

  function LowerAscii(s: string): (r: string)
    ensures |r| == |s| && forall i :: 0 <= i < |s| ==> r[i] == LowerChar(s[i])
    ensures forall i :: 0 <= i < |r| ==> !('A' <= r[i] <= 'Z') && LowerChar(r[i]) == r[i]
    ensures forall i :: 0 <= i < |s| && !('A' <= s[i] <= 'Z') ==> r[i] == s[i]
  {
    seq(|s|, i requires 0 <= i < |s| => LowerChar(s[i]))
  }

  /** `p` occurs in `s`: it is a prefix of `s` or occurs in the rest of `s`. */
  predicate IsSubstring(p: string, s: string)
    decreases |s|
  {
    p <= s || (s != [] && IsSubstring(p, s[1..]))
  }

  /** `p` occurs in `s` at position `i`. */
  predicate OccursAt(p: string, s: string, i: int) {
    0 <= i && i + |p| <= |s| && s[i..i + |p|] == p
  }

  /** The recursive test agrees with the positional definition of an occurrence. */
  lemma {:induction false} IsSubstringIff(p: string, s: string)
    ensures IsSubstring(p, s) <==> exists i :: OccursAt(p, s, i)
    decreases |s|
  {
    if p <= s {
      assert OccursAt(p, s, 0);
    } else if s == [] {
      assert forall i :: !OccursAt(p, s, i);
    } else {
      IsSubstringIff(p, s[1..]);
      if IsSubstring(p, s[1..]) {
        var i :| OccursAt(p, s[1..], i);
        assert s[1..][i..i + |p|] == s[i + 1..i + 1 + |p|];
        assert OccursAt(p, s, i + 1);
      }
      if exists i :: OccursAt(p, s, i) {
        var i :| OccursAt(p, s, i);
        assert i != 0;
        assert s[1..][i - 1..i - 1 + |p|] == s[i..i + |p|];
        assert OccursAt(p, s[1..], i - 1);
      }
    }
  }

  /**
   * `question ILIKE '%term%'`, read as an ASCII case-insensitive
   * substring test (the term's `%` and `_` are taken literally here).
   */
  predicate MatchesTerm(text: string, term: string)
    ensures MatchesTerm(text, term) <==> exists i :: OccursAt(LowerAscii(term), LowerAscii(text), i)
    ensures term == "" ==> MatchesTerm(text, term)
    ensures MatchesTerm(text, term) ==> |term| <= |text|
  {
    IsSubstringIff(LowerAscii(term), LowerAscii(text));
    assert term == "" ==> OccursAt(LowerAscii(term), LowerAscii(text), 0);
    IsSubstring(LowerAscii(term), LowerAscii(text))
  }

  /**
   * POST /questions/search. An absent or non-string `searchTerm` fails
   * when it is concatenated into the pattern (500); the empty string is
   * not found; otherwise the questions whose text contains the term,
   * ignoring case, or not found when there are none.
   */
  function SearchQuestions(qs: seq<Question>, body: map<string, Json.Value>): (r: Response)
    ensures "searchTerm" !in body ==> r == Abort(InternalError)
    ensures "searchTerm" in body && !body["searchTerm"].Str? ==> r == Abort(InternalError)
    ensures "searchTerm" in body && body["searchTerm"] == Json.Str("") ==> r == Abort(NotFound)
    ensures "searchTerm" in body && body["searchTerm"].Str? && body["searchTerm"].s != "" ==>
              var term := body["searchTerm"].s;
              (r.Ok? <==> exists q :: q in qs && MatchesTerm(q.question, term)) &&
              (r.Abort? ==> r.code == NotFound) &&
              (r.Ok? ==> r.body.SearchResults? &&
                         r.body.totalQuestions == |r.body.questions| &&
                         (forall q :: q in r.body.questions <==> q in qs && MatchesTerm(q.question, term)) &&
                         forall q :: multiset(r.body.questions)[q] ==
                                      if MatchesTerm(q.question, term) then multiset(qs)[q] else 0)
  {
    var term := Json.Get(body, "searchTerm");
    if term == Json.Str("") then Abort(NotFound)
    else if !term.Str? then Abort(InternalError)
    else
      var found := Filter(qs, (q: Question) => MatchesTerm(q.question, term.s));
      assert |found| != 0 ==> found[0] in found;
      if |found| != 0 then Ok(SearchResults(found, |found|)) else Abort(NotFound)
  }

  /** Matching ignores case on both sides: lower-casing the text or the term changes nothing. */
  lemma MatchesTermIgnoresCase(text: string, term: string)
    ensures MatchesTerm(text, term) <==> MatchesTerm(LowerAscii(text), term)
    ensures MatchesTerm(text, term) <==> MatchesTerm(text, LowerAscii(term))
  {
    assert LowerAscii(LowerAscii(text)) == LowerAscii(text);
    assert LowerAscii(LowerAscii(term)) == LowerAscii(term);
  }

  // ---------------------------------------------------------------- by category

  /**
   * GET /categories/<id>/questions: the questions whose category is
   * `str(id)`, with their count; no such question still succeeds, with
   * the placeholder text and a count of 0.
   */
  function QuestionsByCategory(qs: seq<Question>, categoryId: nat): (r: Response)
    ensures r.Ok? && r.body.CategoryQuestions? && r.body.currentCategory == categoryId
    ensures var key := Numerals.IntToDecimal(categoryId);
            var b := r.body;
            (b.totalQuestions == 0 <==> forall q :: q in qs ==> q.category != key) &&
            (b.totalQuestions == 0 ==> b.listing == Placeholder(NoQuestionsText)) &&
            (b.totalQuestions > 0 ==> b.listing.Rows? && |b.listing.rows| == b.totalQuestions &&
                                      (forall q :: q in b.listing.rows <==> q in qs && q.category == key) &&
                                      forall q :: multiset(b.listing.rows)[q] ==
                                                   if q.category == key then multiset(qs)[q] else 0)
  {
    var key := Numerals.IntToDecimal(categoryId);
    var found := WithCategory(qs, key);
    assert |found| != 0 ==> found[0] in found;
    if |found| == 0 then Ok(CategoryQuestions(Placeholder(NoQuestionsText), |found|, categoryId))
    else Ok(CategoryQuestions(Rows(found), |found|, categoryId))
  }
}
