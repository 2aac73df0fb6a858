/**
 * The two tables of the trivia service. A formatted question (the
 * dictionary a handler returns) carries exactly these five fields, so the
 * model uses the record itself as its formatted form.
 */
module Records {

  /** A row of the `questions` table; `category` is the text form of a category id. */
  datatype Question = Question(id: int, question: string, answer: string, category: string, difficulty: int)

  /** A row of the `categories` table; the column `type` is called `typeName` here. */
  datatype Category = Category(id: int, typeName: string)

  /** The primary key of the question table: no two rows share an id. */
  predicate DistinctQuestionIds(qs: seq<Question>) {
    forall i, j :: 0 <= i < j < |qs| ==> qs[i].id != qs[j].id
  }

  /** The primary key of the category table: no two rows share an id. */
  predicate DistinctCategoryIds(cats: seq<Category>) {
    forall i, j :: 0 <= i < j < |cats| ==> cats[i].id != cats[j].id
  }
}
