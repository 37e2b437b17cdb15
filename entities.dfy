/** The rows of the trivia store's two tables and the JSON-shaped record a
    question row is formatted to before it is returned. */
module Entities {

  datatype Option<T> = None | Some(value: T)

  /** A row of the question table; `question` holds the prompt text. */
  datatype Question = Question(id: int, question: string, answer: string, category: int, difficulty: int)

  /** A row of the category table; `kind` is the column named `type`. */
  datatype Category = Category(id: int, kind: string)

  /** What `Question.format()` returns: one entry per column. */
  datatype Record = Record(id: int, question: string, answer: string, category: int, difficulty: int)

  function Format(q: Question): Record {
    Record(q.id, q.question, q.answer, q.category, q.difficulty)
  }

  /** `[question.format() for question in selection]` */
  function FormatAll(selection: seq<Question>): (r: seq<Record>)
    ensures |r| == |selection|
    ensures forall i :: 0 <= i < |selection| ==> r[i].id == selection[i].id && r[i].category == selection[i].category
  {
    seq(|selection|, i requires 0 <= i < |selection| => Format(selection[i]))
  }

  /** Rows in strictly increasing id order, as `order_by(Question.id)` yields
      them over a primary key; in particular no two rows share an id. */
  predicate IdOrdered(s: seq<Question>) {
    forall i, j :: 0 <= i < j < |s| ==> s[i].id < s[j].id
  }

  predicate RecordsIdOrdered(s: seq<Record>) {
    forall i, j :: 0 <= i < j < |s| ==> s[i].id < s[j].id
  }

  /** The category table's primary key: no two rows share an id. */
  predicate DistinctCategoryIds(cats: seq<Category>) {
    forall i, j :: 0 <= i < j < |cats| ==> cats[i].id != cats[j].id
  }

  /** Formatting commutes with slicing. */
  lemma FormatAllSlice(s: seq<Question>, a: nat, b: nat)
    requires a <= b <= |s|
    ensures FormatAll(s)[a..b] == FormatAll(s[a..b])
  {
  }

  /** Formatting keeps the id order of the rows. */
  lemma FormatAllOrdered(s: seq<Question>)
    requires IdOrdered(s)
    ensures RecordsIdOrdered(FormatAll(s))
  {
  }

  /** Every formatted record is the format of one of the rows. */
  lemma FormatAllFrom(s: seq<Question>, x: Record)
    requires x in FormatAll(s)
    ensures exists q :: q in s && Format(q) == x
  {
    var i :| 0 <= i < |s| && FormatAll(s)[i] == x;
    assert s[i] in s;
  }

  /** A sequence of rows with no member is empty. */
  lemma NoRowsIsEmpty(s: seq<Question>)
    ensures (forall q :: q !in s) ==> s == []
  {
    if s != [] {
      assert s[0] in s;
    }
  }
}
