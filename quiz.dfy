/** The question table shared by the two loaders and the quiz session: a
    pandas frame with the six required columns, modelled as one record per
    row that keeps the row's index label next to its cells. */
module Quiz {
  /** The outcome of an operation that the source can abandon by raising. */
  datatype Result<T> = Ok(value: T) | Err(message: string)

  /** A value that may be Python's `None`. */
  datatype Option<T> = None | Some(value: T)

  /** The columns every quiz table must have, in the order the loaders use. */
  const RequiredColumns: seq<string> :=
    ["question", "option1", "option2", "option3", "option4", "correct_answer"]

  /** A parsed CSV file: header names and the cells of each data row. */
  datatype Table = Table(columns: seq<string>, rows: seq<seq<string>>)

  /** One row of the quiz frame. `rowLabel` is the frame's index label, which
      the scorer uses as the answer key; the display uses the position. */
  datatype QuizRow = QuizRow(
    rowLabel: int,
    question: string,
    option1: string,
    option2: string,
    option3: string,
    option4: string,
    correctAnswer: string)

  /** `[row['option1'], row['option2'], row['option3'], row['option4']]` */
  function Options(row: QuizRow): seq<string> {
    [row.option1, row.option2, row.option3, row.option4]
  }

  /** Every label equals its row's position, as in a freshly built frame. */
  predicate PositionalLabels(rows: seq<QuizRow>) {
    forall i :: 0 <= i < |rows| ==> rows[i].rowLabel == i
  }

  predicate HasRequiredColumns(columns: seq<string>) {
    forall c :: c in RequiredColumns ==> c in columns
  }

  /** `xs.index(x)`: the first position holding `x`. A column is looked up
      by name this way, and `options.index` finds a stored answer. */
  function IndexOf(xs: seq<string>, x: string): (i: nat)
    requires x in xs
    ensures i < |xs| && xs[i] == x
    ensures forall k :: 0 <= k < i ==> xs[k] != x
  {
    if xs[0] == x then 0 else 1 + IndexOf(xs[1..], x)
  }

  /** The cell at position `j` of a row; a short row reads as empty. */
  function CellAt(cells: seq<string>, j: nat): string {
    if j < |cells| then cells[j] else ""
  }

  /** `row[name]`: the cell under the first column called `name`. */
  function CellOf(columns: seq<string>, cells: seq<string>, name: string): string
    requires name in columns
  {
    CellAt(cells, IndexOf(columns, name))
  }

  /** The quiz frame read from a table: one row per table row, in order,
      labelled by position as `pd.read_csv` does. */
  function FromTable(t: Table): (rows: seq<QuizRow>)
    requires HasRequiredColumns(t.columns)
    ensures |rows| == |t.rows| && PositionalLabels(rows)
    ensures forall i :: 0 <= i < |rows| ==>
      rows[i].question == CellOf(t.columns, t.rows[i], "question") &&
      rows[i].option1 == CellOf(t.columns, t.rows[i], "option1") &&
      rows[i].option2 == CellOf(t.columns, t.rows[i], "option2") &&
      rows[i].option3 == CellOf(t.columns, t.rows[i], "option3") &&
      rows[i].option4 == CellOf(t.columns, t.rows[i], "option4") &&
      rows[i].correctAnswer == CellOf(t.columns, t.rows[i], "correct_answer")
  {
    assert "question" in RequiredColumns && "option1" in RequiredColumns;
    assert "option2" in RequiredColumns && "option3" in RequiredColumns;
    assert "option4" in RequiredColumns && "correct_answer" in RequiredColumns;
    seq(|t.rows|, i requires 0 <= i < |t.rows| =>
      var cells := t.rows[i];
      QuizRow(i,
        CellOf(t.columns, cells, "question"),
        CellOf(t.columns, cells, "option1"),
        CellOf(t.columns, cells, "option2"),
        CellOf(t.columns, cells, "option3"),
        CellOf(t.columns, cells, "option4"),
        CellOf(t.columns, cells, "correct_answer")))
  }
}
