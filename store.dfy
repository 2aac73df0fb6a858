/**
 * The question and category tables as one store object, with the two
 * handlers that change the question table in place: DELETE
 * /questions/<id> and POST /questions. Ids come from a counter standing
 * for the table's auto-increment sequence.
 */
module Store {
  import opened Wrappers
  import opened Records
  import opened Responses
  import Json
  import Numerals
  import Pagination

  /** `Question.query.filter(Question.id == id).first()`: the position of the first row with that id. */
  function FindById(qs: seq<Question>, id: int): (r: Option<nat>)
    ensures r.Some? ==> r.value < |qs| && qs[r.value].id == id &&
                        forall j :: 0 <= j < r.value ==> qs[j].id != id
    ensures r.None? ==> forall q :: q in qs ==> q.id != id
  {
    if qs == [] then None
    else if qs[0].id == id then Some(0)
    else
      match FindById(qs[1..], id)
      case None => None
      case Some(k) => Some(k + 1)
  }

  /**
   * The row a DELETE for the URL text `idText` reaches: the text must read
   * as an integer for the database, and a row must carry that id.
   */
  function LookupByText(qs: seq<Question>, idText: string): (r: Option<nat>)
    ensures r.Some? <==> Numerals.ParseInt32(idText).Some? &&
                         exists q :: q in qs && q.id == Numerals.ParseInt32(idText).value
    ensures r.Some? ==> r.value < |qs| && Some(qs[r.value].id) == Numerals.ParseInt32(idText)
  {
    match Numerals.ParseInt32(idText)
    case None => None
    case Some(id) =>
      var r := FindById(qs, id);
      assert r.Some? ==> qs[r.value] in qs;
      r
  }

  /** The table without the row at position `i`. */
  function RemoveAt(qs: seq<Question>, i: nat): (rest: seq<Question>)
    requires i < |qs|
  {
    qs[..i] + qs[i + 1..]
  }

  /**
   * Removing one row of a table with distinct ids removes exactly the
   * rows with that id: one fewer row, every other row kept, and the id no
   * longer found.
   */
  lemma RemoveAtKeepsOthers(qs: seq<Question>, i: nat)
    requires i < |qs| && DistinctQuestionIds(qs)
    ensures |RemoveAt(qs, i)| == |qs| - 1
    ensures DistinctQuestionIds(RemoveAt(qs, i))
    ensures forall q :: q in RemoveAt(qs, i) <==> q in qs && q.id != qs[i].id
    ensures FindById(RemoveAt(qs, i), qs[i].id) == None
  {
    var rest := RemoveAt(qs, i);
    assert forall k :: 0 <= k < |rest| ==> rest[k] == qs[if k < i then k else k + 1];
    forall q | q in qs && q.id != qs[i].id
      ensures q in rest
    {
      var k :| 0 <= k < |qs| && qs[k] == q;
      assert k != i;
      assert rest[if k < i then k else k - 1] == q;
    }
  }

  lemma SubsetCardinality(a: set<string>, b: set<string>)
    requires a <= b
    ensures |a| <= |b|
  {
    assert b == a + (b - a);
  }

  /** The JSON body carries the four keys an added question needs. */
  predicate HasAllFields(body: map<string, Json.Value>)
    ensures HasAllFields(body) <==> "question" in body && "answer" in body &&
                                    "difficulty" in body && "category" in body
    ensures HasAllFields(body) ==> |body| >= 4
  {
    var required := {"question", "answer", "difficulty", "category"};
    assert |required| == 4;
    if required <= body.Keys then SubsetCardinality(required, body.Keys); true else false
  }

  /**
   * The row POST /questions inserts under id `id`, or None when a key is
   * missing or the database refuses one of the values for its column.
   */
  function NewQuestion(body: map<string, Json.Value>, id: int): (r: Option<Question>)
    ensures !HasAllFields(body) ==> r.None?
    ensures r.Some? <==> HasAllFields(body) &&
                         Json.AsText(body["question"]).Some? && Json.AsText(body["answer"]).Some? &&
                         Json.AsText(body["category"]).Some? && Json.AsInteger(body["difficulty"]).Some?
    ensures r.Some? ==> r.value.id == id &&
                        Json.AsText(body["question"]) == Some(r.value.question) &&
                        Json.AsText(body["answer"]) == Some(r.value.answer) &&
                        Json.AsText(body["category"]) == Some(r.value.category) &&
                        Json.AsInteger(body["difficulty"]) == Some(r.value.difficulty)
  {
    if !HasAllFields(body) then None
    else
      match (Json.AsText(body["question"]), Json.AsText(body["answer"]),
             Json.AsText(body["category"]), Json.AsInteger(body["difficulty"]))
      case (Some(text), Some(answer), Some(category), Some(difficulty)) =>
        Some(Question(id, text, answer, category, difficulty))
      case _ => None
  }

  class TriviaStore {
    var questions: seq<Question>
    var categories: seq<Category>
    /** The next value of the question id sequence. */
    var nextId: int

    /** Primary keys hold, and every question id was handed out by the sequence. */
    ghost predicate Valid()
      reads this
    {
      1 <= nextId &&
      DistinctQuestionIds(questions) &&
      DistinctCategoryIds(categories) &&
      forall i :: 0 <= i < |questions| ==> 1 <= questions[i].id < nextId
    }

    /** A store holding the given (seeded) tables. */
    constructor (qs: seq<Question>, cats: seq<Category>, next: int)
      requires 1 <= next && DistinctQuestionIds(qs) && DistinctCategoryIds(cats)
      requires forall i :: 0 <= i < |qs| ==> 1 <= qs[i].id < next
      ensures Valid()
      ensures questions == qs && categories == cats && nextId == next
    {
      questions := qs;
      categories := cats;
      nextId := next;
    }

    /**
     * DELETE /questions/<question_id>: succeeds exactly when the text
     * names an existing row; that row alone goes and the text is echoed.
     * A missing row or a non-integer text is 422 and changes nothing.
     */
    method DeleteQuestion(questionId: string) returns (r: Response)
      requires Valid()
      modifies this
      ensures Valid()
      ensures categories == old(categories) && nextId == old(nextId)
      ensures var found := LookupByText(old(questions), questionId);
              (found.None? ==> r == Abort(Unprocessable) && questions == old(questions)) &&
              (found.Some? ==> r == Ok(Deleted(questionId)) && questions == RemoveAt(old(questions), found.value))
      ensures r.Ok? <==> Numerals.ParseInt32(questionId).Some? &&
                         exists q :: q in old(questions) && q.id == Numerals.ParseInt32(questionId).value
      ensures r.Ok? ==> |questions| == |old(questions)| - 1 &&
                        forall q :: q in questions <==> q in old(questions) && q.id != Numerals.ParseInt32(questionId).value
    {
      var found := LookupByText(questions, questionId);
      if found.None? {
        // `None.delete()` or the database's type error; both are caught as 422
        return Abort(Unprocessable);
      }
      RemoveAtKeepsOthers(questions, found.value);
      questions := RemoveAt(questions, found.value);
      r := Ok(Deleted(questionId));
    }

    /**
     * POST /questions: with all four keys present and values the columns
     * accept, appends exactly one row carrying them under a fresh id and
     * answers that id with the new row count; otherwise 422 and nothing
     * changes.
     */
    method AddQuestion(body: map<string, Json.Value>) returns (r: Response)
      requires Valid()
      modifies this
      ensures Valid()
      ensures categories == old(categories)
      ensures var row := NewQuestion(body, old(nextId));
              (row.None? ==> r == Abort(Unprocessable) && questions == old(questions) && nextId == old(nextId)) &&
              (row.Some? ==> r == Ok(Created(old(nextId), |old(questions)| + 1)) &&
                             questions == old(questions) + [row.value] && nextId == old(nextId) + 1)
      ensures !HasAllFields(body) ==> r == Abort(Unprocessable) && questions == old(questions)
      ensures r.Ok? ==> r.body.Created? && forall q :: q in old(questions) ==> q.id != r.body.created
    {
      if !HasAllFields(body) {
        return Abort(Unprocessable);
      }
      var row := NewQuestion(body, nextId);
      if row.None? {
        // the database refuses a value: the insert fails and is caught as 422
        return Abort(Unprocessable);
      }
      questions := questions + [row.value];
      nextId := nextId + 1;
      r := Ok(Created(row.value.id, |questions|));
    }
  }

  /** A second DELETE of the same id text finds nothing, so it is answered 422. */
  lemma DeletedIdGone(qs: seq<Question>, idText: string)
    requires DistinctQuestionIds(qs) && LookupByText(qs, idText).Some?
    ensures LookupByText(RemoveAt(qs, LookupByText(qs, idText).value), idText) == None
  {
    RemoveAtKeepsOthers(qs, LookupByText(qs, idText).value);
  }

  /** A question appended to the table shows up on the last page of the listing. */
  lemma AddedQuestionOnLastPage(qs: seq<Question>, q: Question)
    ensures var w := Pagination.PageWindow(qs + [q], |qs| / Pagination.QuestionsPerPage + 1);
            |w| == |qs| % Pagination.QuestionsPerPage + 1 && w[|w| - 1] == q
  {
    Pagination.PageWindowOfPositivePage(qs + [q], |qs| / Pagination.QuestionsPerPage + 1);
  }
}
