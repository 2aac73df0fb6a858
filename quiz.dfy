/**
 * POST /quizzes: a random question of the chosen category that was not
 * asked before. The random number generator is an oracle: `draws` lists
 * the successive results of `randint`, each taken modulo the number of
 * questions in the category (a draw already in range is itself). The
 * handler's `while True` loop stops only on a question that is not in
 * `previous_questions`; when the oracle runs out first, the round is
 * `StillDrawing`: the handler has not answered yet.
 */
module Quiz {
  import opened Wrappers
  import opened Records
  import opened Responses
  import Json
  import Queries

  /**
   * Python's `in` accepts a question on its left only when the right side
   * is a list or a dict; None (an absent key), numbers, booleans and
   * strings raise TypeError.
   */
  predicate SupportsMembership(prev: Json.Value)
    ensures SupportsMembership(prev) ==> prev != Json.Null && !prev.Str? && !prev.Int? && !prev.Bool?
    ensures prev == Json.Array([]) ==> SupportsMembership(prev)
  {
    prev.Array? || prev.Object?
  }

  /**
   * `q in previous_questions`: some list element, or some dict key,
   * equals `q`, where `eq` stands for the equality of the question class
   * (defined outside this model; Python's default never equates a
   * question with a JSON value).
   */
  predicate AlreadyAsked(prev: Json.Value, eq: (Question, Json.Value) -> bool, q: Question)
    ensures AlreadyAsked(prev, eq, q) ==> SupportsMembership(prev)
    ensures prev == Json.Array([]) || prev == Json.Object(map[]) ==> !AlreadyAsked(prev, eq, q)
    ensures (forall v :: !eq(q, v)) ==> !AlreadyAsked(prev, eq, q)
    ensures prev.Array? && (exists i :: 0 <= i < |prev.items| && eq(q, prev.items[i])) ==> AlreadyAsked(prev, eq, q)
  {
    match prev
    case Array(items) => exists i :: 0 <= i < |items| && eq(q, items[i])
    case Object(fields) => exists k :: k in fields && eq(q, Json.Str(k))
    case _ => false
  }

  /**
   * `Question.query.filter_by(category=quiz_category['id']).all()`, or None
   * when that line raises: `quiz_category` is not a dict, has no `id`, or
   * its id cannot be compared with the text column.
   */
  function CategoryPool(qs: seq<Question>, quizCategory: Json.Value): (pool: Option<seq<Question>>)
    ensures pool.Some? <==> quizCategory.Object? && "id" in quizCategory.fields &&
                            Json.AsText(quizCategory.fields["id"]).Some?
    ensures pool.Some? ==> forall q :: q in pool.value <==>
                             q in qs && Some(q.category) == Json.AsText(quizCategory.fields["id"])
    ensures pool.Some? ==> pool.value == Queries.WithCategory(qs, Json.AsText(quizCategory.fields["id"]).value)
  {
    match quizCategory
    case Object(fields) =>
      if "id" !in fields then None
      else (
        match Json.AsText(fields["id"])
        case None => None
        case Some(key) => Some(Queries.WithCategory(qs, key)))
    case _ => None
  }

  /** What the handler has done after the oracle's draws: answered, or still looping. */
  datatype Round = Answered(response: Response) | StillDrawing

  /** The position of the first draw, from `from` on, that lands on a question not asked before. */
  function FirstFreshDraw(pool: seq<Question>, draws: seq<nat>, from: nat,
                          prev: Json.Value, eq: (Question, Json.Value) -> bool): (k: Option<nat>)
    requires |pool| > 0 && from <= |draws|
    ensures k.Some? ==> from <= k.value < |draws| &&
                        !AlreadyAsked(prev, eq, pool[draws[k.value] % |pool|]) &&
                        forall j :: from <= j < k.value ==> AlreadyAsked(prev, eq, pool[draws[j] % |pool|])
    ensures k.None? ==> forall j :: from <= j < |draws| ==> AlreadyAsked(prev, eq, pool[draws[j] % |pool|])
    decreases |draws| - from
  {
    if from == |draws| then None
    else if !AlreadyAsked(prev, eq, pool[draws[from] % |pool|]) then Some(from)
    else FirstFreshDraw(pool, draws, from + 1, prev, eq)
  }

  /**
   * The quiz round as a function of the table, the body and the draws:
   * 422 exactly when `quiz_category` is absent or falsy; 500 when the
   * category lookup raises, the category is empty (`randint(0, -1)`) or
   * `previous_questions` does not support `in`; otherwise the first drawn
   * question not asked before.
   */
  function QuizRound(qs: seq<Question>, body: map<string, Json.Value>, draws: seq<nat>,
                     eq: (Question, Json.Value) -> bool): (r: Round)
    ensures r == Answered(Abort(Unprocessable)) <==> !Json.Truthy(Json.Get(body, "quiz_category"))
    ensures r.Answered? && r.response.Abort? ==> r.response.code == Unprocessable || r.response.code == InternalError
    ensures r.Answered? && r.response.Ok? ==>
              r.response.body.QuizQuestion? &&
              var quizCategory := Json.Get(body, "quiz_category");
              var q := r.response.body.question;
              q in qs &&
              quizCategory.Object? && "id" in quizCategory.fields &&
              Some(q.category) == Json.AsText(quizCategory.fields["id"]) &&
              !AlreadyAsked(Json.Get(body, "previous_questions"), eq, q)
    ensures var pool := CategoryPool(qs, Json.Get(body, "quiz_category"));
            var prev := Json.Get(body, "previous_questions");
            Json.Truthy(Json.Get(body, "quiz_category")) ==>
              ((pool.None? || pool.value == [] || !SupportsMembership(prev)) <==> r == Answered(Abort(InternalError)))
    ensures var pool := CategoryPool(qs, Json.Get(body, "quiz_category"));
            var prev := Json.Get(body, "previous_questions");
            Json.Truthy(Json.Get(body, "quiz_category")) && pool.Some? && pool.value != [] && SupportsMembership(prev) ==>
              match FirstFreshDraw(pool.value, draws, 0, prev, eq)
              case Some(k) => r == Answered(Ok(QuizQuestion(pool.value[draws[k] % |pool.value|])))
              case None => r == StillDrawing
  {
    var quizCategory := Json.Get(body, "quiz_category");
    if !Json.Truthy(quizCategory) then Answered(Abort(Unprocessable))
    else
      match CategoryPool(qs, quizCategory)
      case None => Answered(Abort(InternalError))
      case Some(pool) =>
        if |pool| == 0 then Answered(Abort(InternalError))
        else
          var prev := Json.Get(body, "previous_questions");
          if !SupportsMembership(prev) then Answered(Abort(InternalError))
          else
            match FirstFreshDraw(pool, draws, 0, prev, eq)
            case None => StillDrawing
            case Some(k) =>
              assert pool[draws[k] % |pool|] in pool;
              Answered(Ok(QuizQuestion(pool[draws[k] % |pool|])))
  }

  /** `play_quiz_question`: the handler's draw-and-retry loop, run against the oracle. */
  method PlayQuiz(qs: seq<Question>, body: map<string, Json.Value>, draws: seq<nat>,
                  eq: (Question, Json.Value) -> bool) returns (round: Round)
    ensures round == QuizRound(qs, body, draws, eq)
  {
    var quizCategory := Json.Get(body, "quiz_category");
    if !Json.Truthy(quizCategory) {
      return Answered(Abort(Unprocessable));
    }
    var pool := CategoryPool(qs, quizCategory);
    if pool.None? || |pool.value| == 0 {
      // the lookup raised, or randint(0, -1) raised ValueError
      return Answered(Abort(InternalError));
    }
    var questions := pool.value;
    var prev := Json.Get(body, "previous_questions");
    if !SupportsMembership(prev) {
      return Answered(Abort(InternalError));
    }
    if |draws| == 0 {
      return StillDrawing;
    }
    var k := 0;
    var current := questions[draws[0] % |questions|];
    while true
      invariant k < |draws|
      invariant current == questions[draws[k] % |questions|]
      invariant FirstFreshDraw(questions, draws, k, prev, eq) == FirstFreshDraw(questions, draws, 0, prev, eq)
      decreases |draws| - k
    {
      if AlreadyAsked(prev, eq, current) {
        k := k + 1;
        if k == |draws| {
          return StillDrawing;
        }
        current := questions[draws[k] % |questions|];
      } else {
        break;
      }
    }
    round := Answered(Ok(QuizQuestion(current)));
  }

  /**
   * When every question of the category was asked before, no sequence of
   * draws ever ends the loop: the handler never answers.
   */
  lemma ExhaustedCategoryNeverAnswers(qs: seq<Question>, body: map<string, Json.Value>, draws: seq<nat>,
                                      eq: (Question, Json.Value) -> bool)
    requires Json.Truthy(Json.Get(body, "quiz_category"))
    requires CategoryPool(qs, Json.Get(body, "quiz_category")).Some?
    requires CategoryPool(qs, Json.Get(body, "quiz_category")).value != []
    requires SupportsMembership(Json.Get(body, "previous_questions"))
    requires forall q :: q in CategoryPool(qs, Json.Get(body, "quiz_category")).value ==>
                           AlreadyAsked(Json.Get(body, "previous_questions"), eq, q)
    ensures QuizRound(qs, body, draws, eq) == StillDrawing
  {
  }

  /**
   * With no previous questions (the empty list), the first draw is the
   * answer, whatever the question class's equality is.
   */
  lemma EmptyHistoryTakesFirstDraw(qs: seq<Question>, body: map<string, Json.Value>, draws: seq<nat>,
                                   eq: (Question, Json.Value) -> bool)
    requires Json.Truthy(Json.Get(body, "quiz_category"))
    requires CategoryPool(qs, Json.Get(body, "quiz_category")).Some?
    requires CategoryPool(qs, Json.Get(body, "quiz_category")).value != []
    requires Json.Get(body, "previous_questions") == Json.Array([])
    requires draws != []
    ensures var pool := CategoryPool(qs, Json.Get(body, "quiz_category")).value;
            QuizRound(qs, body, draws, eq) == Answered(Ok(QuizQuestion(pool[draws[0] % |pool|])))
  {
  }

  /**
   * Under Python's default equality (a question equals no JSON value)
   * `previous_questions` never excludes anything: the first draw is the
   * answer even if that question was already asked.
   */
  lemma DefaultEqualityIgnoresHistory(qs: seq<Question>, body: map<string, Json.Value>, draws: seq<nat>,
                                      eq: (Question, Json.Value) -> bool)
    requires forall q, v :: !eq(q, v)
    requires Json.Truthy(Json.Get(body, "quiz_category"))
    requires CategoryPool(qs, Json.Get(body, "quiz_category")).Some?
    requires CategoryPool(qs, Json.Get(body, "quiz_category")).value != []
    requires SupportsMembership(Json.Get(body, "previous_questions"))
    requires draws != []
    ensures var pool := CategoryPool(qs, Json.Get(body, "quiz_category")).value;
            QuizRound(qs, body, draws, eq) == Answered(Ok(QuizQuestion(pool[draws[0] % |pool|])))
  {
    var pool := CategoryPool(qs, Json.Get(body, "quiz_category")).value;
    assert !AlreadyAsked(Json.Get(body, "previous_questions"), eq, pool[draws[0] % |pool|]);
  }

  /**
   * A category given as `{"id": 0}` is a non-empty dict, so it is not
   * rejected with 422 (only a missing or empty `quiz_category` is).
   */
  lemma CategoryIdZeroAccepted(qs: seq<Question>, body: map<string, Json.Value>, draws: seq<nat>,
                               eq: (Question, Json.Value) -> bool)
    requires "quiz_category" in body && body["quiz_category"] == Json.Object(map["id" := Json.Int(0)])
    ensures QuizRound(qs, body, draws, eq) != Answered(Abort(Unprocessable))
  {
    assert Json.Truthy(body["quiz_category"]);
  }

  /**
   * For a category id sent as a number, the quiz draws from exactly the
   * questions that GET /categories/<id>/questions lists.
   */
  lemma PoolIsCategoryListing(qs: seq<Question>, categoryId: nat)
    ensures var pool := CategoryPool(qs, Json.Object(map["id" := Json.Int(categoryId)]));
            var listing := Queries.QuestionsByCategory(qs, categoryId).body.listing;
            pool.Some? &&
            (pool.value == [] <==> listing.Placeholder?) &&
            (pool.value != [] ==> listing == Rows(pool.value))
  {
  }
}
