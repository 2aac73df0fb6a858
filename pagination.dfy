/**
 * `paginate_questions`: the page of ten formatted questions picked out of
 * the whole table with a Python slice, including what Python's slice rules
 * make of page numbers below 1.
 */
module Pagination {
  import opened Wrappers
  import opened Records

  const QuestionsPerPage := 10

  /** Python's normalisation of one slice bound against a sequence of length `n`. */
  function SliceBound(i: int, n: nat): (k: nat)
    ensures k <= n
  {
    if i < 0 then (if i + n < 0 then 0 else i + n)
    else if i > n then n
    else i
  }

  /** Python's `s[start:stop]` with step 1: negative bounds count from the end, all bounds are clamped. */
  function PySlice<T>(s: seq<T>, start: int, stop: int): (r: seq<T>)
    ensures |r| <= |s|
  {
    var lo := SliceBound(start, |s|);
    var hi := SliceBound(stop, |s|);
    if lo < hi then s[lo..hi] else []
  }

  /** `request.args.get('page', 1, type=int)`: None stands for an absent or non-integer argument. */
  function PageNumber(arg: Option<int>): (page: int) {
    arg.GetOr(1)
  }

  /** First slice bound of a page: `(page - 1) * 10`. */
  function PageStart(page: int): (start: int) {
    (page - 1) * QuestionsPerPage
  }

  /** `paginate_questions`: `questions[start:start + 10]` over the whole table. */
  function PageWindow(qs: seq<Question>, page: int): (w: seq<Question>)
    ensures |w| <= QuestionsPerPage
    ensures forall q :: q in w ==> q in qs
  {
    PySlice(qs, PageStart(page), PageStart(page) + QuestionsPerPage)
  }

  /** With non-negative bounds, a Python slice is the ordinary sub-sequence, clamped at the end. */
  lemma PySliceNonNegative<T>(s: seq<T>, start: int, stop: int)
    requires 0 <= start <= stop
    ensures start <= |s| ==> PySlice(s, start, stop) == s[start..if stop <= |s| then stop else |s|]
    ensures start >= |s| ==> PySlice(s, start, stop) == []
  {
  }

  /**
   * A page numbered 1 or more holds the questions from position
   * `(page - 1) * 10` on, in table order: ten of them, or what remains.
   */
  lemma PageWindowOfPositivePage(qs: seq<Question>, page: int)
    requires page >= 1
    ensures var start := PageStart(page);
            var w := PageWindow(qs, page);
            |w| == (if |qs| <= start then 0 else if |qs| - start < QuestionsPerPage then |qs| - start else QuestionsPerPage)
            && forall k :: 0 <= k < |w| ==> w[k] == qs[start + k]
  {
    var start := PageStart(page);
    PySliceNonNegative(qs, start, start + QuestionsPerPage);
  }

  /** For pages from 1 on, the page is empty exactly when it starts past the last question. */
  lemma PageWindowEmptyIff(qs: seq<Question>, page: int)
    requires page >= 1
    ensures PageWindow(qs, page) == [] <==> |qs| <= PageStart(page)
  {
    PageWindowOfPositivePage(qs, page);
  }

  /** Question `i` of the table is entry `i % 10` of page `i / 10 + 1`: every question is on a page. */
  lemma EveryQuestionOnItsPage(qs: seq<Question>, i: nat)
    requires i < |qs|
    ensures var w := PageWindow(qs, i / QuestionsPerPage + 1);
            i % QuestionsPerPage < |w| && w[i % QuestionsPerPage] == qs[i]
  {
    var page := i / QuestionsPerPage + 1;
    PageWindowOfPositivePage(qs, page);
    assert PageStart(page) + i % QuestionsPerPage == i;
  }

  /** Page 0 asks for `[-10:0]`, which is always empty. */
  lemma PageZeroIsEmpty(qs: seq<Question>)
    ensures PageWindow(qs, 0) == []
  {
  }

  /** Page -1 asks for `[-20:-10]`: with more than ten questions it is not empty but counts from the end. */
  lemma PageMinusOneCountsFromEnd(qs: seq<Question>)
    requires |qs| > QuestionsPerPage
    ensures PageWindow(qs, -1) == qs[if |qs| < 20 then 0 else |qs| - 20..|qs| - 10]
    ensures PageWindow(qs, -1) != []
  {
  }
}
