/** `load_quiz_from_csv`: from a parsed CSV table to the quiz table, after
    trimming the header names, checking the required columns and rewriting
    the substrings `none` and `NONE` in the answer columns. */
module CsvToQuiz {
  import opened Text
  import opened Quiz

  const NoneOfThese: string := "None of these"

  /** The columns whose cells get the `none` rewrite. */
  const OptionColumns: seq<string> :=
    ["option1", "option2", "option3", "option4", "correct_answer"]

  const ErrorPrefix: string := "Error loading CSV: "
  const MissingColumnsMessage: string := "The uploaded CSV is missing required columns."

  /* ---------------------------------------------------------------------
     The `none` rewrite of one cell
     --------------------------------------------------------------------- */

  /** Two strings that differ at a position both have are not compatible. */
  lemma Mismatch(a: string, q: string, m: nat)
    requires m < |a| && m < |q| && a[m] != q[m]
    ensures !Compatible(a, q)
  {
  }

  /** `None of these` holds no start of `none`: only its `ne` could begin one. */
  lemma ReplacementHoldsNoLowerStart()
    ensures NoPartial(NoneOfThese, "none")
  {
    forall i | 0 <= i < |NoneOfThese| ensures !Compatible(NoneOfThese[i..], "none") {
      Mismatch(NoneOfThese[i..], "none", if i == 2 then 1 else 0);
    }
  }

  /** `None of these` holds no start of `NONE`: its `No` stops at the `o`. */
  lemma ReplacementHoldsNoUpperStart()
    ensures NoPartial(NoneOfThese, "NONE")
  {
    forall i | 0 <= i < |NoneOfThese| ensures !Compatible(NoneOfThese[i..], "NONE") {
      Mismatch(NoneOfThese[i..], "NONE", if i == 0 then 1 else 0);
    }
  }

  /** No tail of either pattern is completed by `None of these`. */
  lemma ReplacementCompletesNoTail()
    ensures NoPartial("one", NoneOfThese) && NoPartial("ONE", NoneOfThese)
  {
    forall i | 0 <= i < 3 ensures !Compatible("one"[i..], NoneOfThese) {
      Mismatch("one"[i..], NoneOfThese, 0);
    }
    forall i | 0 <= i < 3 ensures !Compatible("ONE"[i..], NoneOfThese) {
      Mismatch("ONE"[i..], NoneOfThese, if i == 1 then 1 else 0);
    }
  }

  lemma ReplacementCannotFormPatterns()
    ensures NoPartial(NoneOfThese, "none") && NoPartial(NoneOfThese, "NONE")
    ensures NoPartial("one", NoneOfThese) && NoPartial("ONE", NoneOfThese)
  {
    ReplacementHoldsNoLowerStart();
    ReplacementHoldsNoUpperStart();
    ReplacementCompletesNoTail();
  }

  /** `Series.replace({'none': 'None of these', 'NONE': 'None of these'},
      regex=True)` on one string cell: each pattern in turn, as a substring,
      case-sensitively. Each pass is `'None of these'.join(cell.split(pattern))`,
      and the result contains neither pattern. */
  function RewriteNone(s: string): (r: string)
    ensures r == Join(Split(Join(Split(s, "none"), NoneOfThese), "NONE"), NoneOfThese)
    ensures Free(r, "none") && Free(r, "NONE")
  {
    ReplaceAllIsJoinOfSplit(s, "none", NoneOfThese);
    ReplaceAllIsJoinOfSplit(ReplaceAll(s, "none", NoneOfThese), "NONE", NoneOfThese);
    ReplacementCannotFormPatterns();
    var once := ReplaceAll(s, "none", NoneOfThese);
    assert "none"[1..] == "one" && "NONE"[1..] == "ONE";
    ReplaceAllKeepsFree(s, "none", "none", NoneOfThese);
    ReplaceAllKeepsFree(once, "NONE", "NONE", NoneOfThese);
    ReplaceAllKeepsFree(once, "NONE", "none", NoneOfThese);
    ReplaceAll(once, "NONE", NoneOfThese)
  }

  /** Text that contains neither pattern is not touched, so `None`, `NoNe`
      or any other spelling stays as it is. */
  lemma RewriteNoneKeepsOtherText(s: string)
    requires Free(s, "none") && Free(s, "NONE")
    ensures RewriteNone(s) == s
  {
    ReplaceAllFree(s, "none", NoneOfThese);
    ReplaceAllFree(s, "NONE", NoneOfThese);
  }

  /** Rewriting twice is rewriting once. */
  lemma RewriteNoneIdempotent(s: string)
    ensures RewriteNone(RewriteNone(s)) == RewriteNone(s)
  {
    RewriteNoneKeepsOtherText(RewriteNone(s));
  }

  /** `q` does not start at `k` in `t` because of the mismatch at `k + m`. */
  lemma NotAt(t: string, q: string, k: nat, m: nat)
    requires k + m < |t| && m < |q| && t[k + m] != q[m]
    ensures !Occurs(t, q, k)
  {
  }

  /** The replacement is left alone by both passes. */
  lemma ReplacementIsStable()
    ensures ReplaceAll(NoneOfThese, "none", NoneOfThese) == NoneOfThese
    ensures ReplaceAll(NoneOfThese, "NONE", NoneOfThese) == NoneOfThese
  {
    ReplacementHoldsNoLowerStart();
    ReplacementHoldsNoUpperStart();
    assert NoneOfThese + [] == NoneOfThese;
    FreeAppend(NoneOfThese, [], "none");
    FreeAppend(NoneOfThese, [], "NONE");
    ReplaceAllFree(NoneOfThese, "none", NoneOfThese);
    ReplaceAllFree(NoneOfThese, "NONE", NoneOfThese);
  }

  /** The lower-case word becomes the replacement. */
  lemma RewriteNoneOfLowerWord()
    ensures RewriteNone("none") == NoneOfThese
  {
    var w := "none";
    assert w[..|w|] == w && w[|w|..] == [];
    assert ReplaceAll(w, w, NoneOfThese) == NoneOfThese;
    ReplacementIsStable();
  }

  /** The upper-case word becomes the replacement. */
  lemma RewriteNoneOfUpperWord()
    ensures RewriteNone("NONE") == NoneOfThese
  {
    var w := "NONE";
    assert Free(w, "none") by { NotAt(w, "none", 0, 0); }
    assert w[..|w|] == w && w[|w|..] == [];
    assert ReplaceAll(w, w, NoneOfThese) == NoneOfThese;
    ReplaceAllFree(w, "none", NoneOfThese);
  }

  /** An occurrence inside a longer cell is replaced in place and the rest of
      the cell is kept. */
  lemma RewriteNoneInsideCell()
    ensures RewriteNone("xnone") == "x" + NoneOfThese
  {
    var s := "xnone";
    assert ReplaceAll(s, "none", NoneOfThese) == "x" + NoneOfThese by {
      NotAt(s, "none", 0, 0);
      ReplaceAllCopies(s, "none", NoneOfThese);
      assert s[1..][0..4] == "none" && s[1..][4..] == [];
      ReplaceAllReplaces(s[1..], "none", NoneOfThese);
    }
    assert Free("x" + NoneOfThese, "NONE") by {
      ReplacementHoldsNoUpperStart();
      assert NoneOfThese + [] == NoneOfThese;
      FreeAppend(NoneOfThese, [], "NONE");
      NotAt("x" + NoneOfThese, "NONE", 0, 0);
      FreeCons('x', NoneOfThese, "NONE");
    }
    ReplaceAllFree("x" + NoneOfThese, "NONE", NoneOfThese);
  }

  /** Mixed-case spellings are not matched. */
  lemma RewriteNoneOfMixedCase()
    ensures RewriteNone("None") == "None"
    ensures RewriteNone("NoNe") == "NoNe"
  {
    NotAt("None", "none", 0, 0);
    NotAt("None", "NONE", 0, 1);
    NotAt("NoNe", "none", 0, 0);
    NotAt("NoNe", "NONE", 0, 1);
    RewriteNoneKeepsOtherText("None");
    RewriteNoneKeepsOtherText("NoNe");
  }

  /* ---------------------------------------------------------------------
     The table
     --------------------------------------------------------------------- */

  /** `df.columns.str.strip()` */
  function TrimColumns(columns: seq<string>): (r: seq<string>)
    ensures |r| == |columns|
    ensures forall j :: 0 <= j < |r| ==> r[j] == StripSpace(columns[j])
    ensures forall j :: 0 <= j < |r| ==> r[j] == [] || (!IsSpace(r[j][0]) && !IsSpace(r[j][|r[j]| - 1]))
  {
    forall j | 0 <= j < |columns| {
      StripIsTrimmed(columns[j], IsSpace);
    }
    seq(|columns|, j requires 0 <= j < |columns| => StripSpace(columns[j]))
  }

  /** A cell after the rewrite of the columns called by one of `names`. */
  function RewriteCell(columns: seq<string>, names: seq<string>, j: nat, cell: string): string {
    if j < |columns| && columns[j] in names then RewriteNone(cell) else cell
  }

  /** The rows after `df[col] = df[col].replace(...)` for each `col` in `names`
      (every column carrying that name is replaced). */
  function RewriteRows(columns: seq<string>, rows: seq<seq<string>>, names: seq<string>): (r: seq<seq<string>>)
    ensures |r| == |rows|
    ensures forall i :: 0 <= i < |rows| ==> |r[i]| == |rows[i]|
    ensures forall i, j :: 0 <= i < |rows| && 0 <= j < |rows[i]| ==>
      r[i][j] == RewriteCell(columns, names, j, rows[i][j])
  {
    seq(|rows|, i requires 0 <= i < |rows| =>
      seq(|rows[i]|, j requires 0 <= j < |rows[i]| => RewriteCell(columns, names, j, rows[i][j])))
  }

  lemma RewriteRowsNothing(columns: seq<string>, rows: seq<seq<string>>)
    ensures RewriteRows(columns, rows, []) == rows
  {
    var r := RewriteRows(columns, rows, []);
    forall i | 0 <= i < |rows| ensures r[i] == rows[i] { }
  }

  /** Replacing one more column `name` extends the set of rewritten columns. */
  lemma RewriteRowsStep(columns: seq<string>, rows: seq<seq<string>>, names: seq<string>, name: string)
    requires name !in names
    ensures RewriteRows(columns, RewriteRows(columns, rows, names), [name]) == RewriteRows(columns, rows, names + [name])
  {
    var a := RewriteRows(columns, RewriteRows(columns, rows, names), [name]);
    var b := RewriteRows(columns, rows, names + [name]);
    forall i | 0 <= i < |rows| ensures a[i] == b[i] {
      forall j | 0 <= j < |rows[i]| ensures a[i][j] == b[i][j] {
        if j < |columns| && columns[j] == name {
          assert columns[j] !in names;
        }
      }
    }
  }

  /** `load_quiz_from_csv` after `pd.read_csv`. `parsed` is what the reader
      produced, or the message of the exception it raised. Every failure comes
      back as one error whose message starts with `Error loading CSV: `; on
      success the header is trimmed and exactly the five answer columns are
      rewritten. */
  method LoadQuizFromCsv(parsed: Result<Table>) returns (r: Result<Table>)
    ensures r.Err? <==> parsed.Err? || !HasRequiredColumns(TrimColumns(parsed.value.columns))
    ensures parsed.Err? ==> r == Err(ErrorPrefix + parsed.message)
    ensures parsed.Ok? && r.Err? ==> r.message == ErrorPrefix + MissingColumnsMessage
    ensures r.Ok? ==> r.value.columns == TrimColumns(parsed.value.columns)
    ensures r.Ok? ==> r.value.rows == RewriteRows(r.value.columns, parsed.value.rows, OptionColumns)
  {
    if parsed.Err? {
      return Err(ErrorPrefix + parsed.message);
    }
    var columns := TrimColumns(parsed.value.columns);
    if !HasRequiredColumns(columns) {
      return Err(ErrorPrefix + MissingColumnsMessage);
    }
    var rows := parsed.value.rows;
    RewriteRowsNothing(columns, rows);
    var k := 0;
    while k < |OptionColumns|
      invariant 0 <= k <= |OptionColumns|
      invariant rows == RewriteRows(columns, parsed.value.rows, OptionColumns[..k])
    {
      RewriteRowsStep(columns, parsed.value.rows, OptionColumns[..k], OptionColumns[k]);
      assert OptionColumns[..k + 1] == OptionColumns[..k] + [OptionColumns[k]];
      rows := RewriteRows(columns, rows, [OptionColumns[k]]);
      k := k + 1;
    }
    assert OptionColumns[..k] == OptionColumns;
    return Ok(Table(columns, rows));
  }

  /** What the loader promises about the rows it returns: same count and
      order, the question column and any extra column untouched, and no
      answer cell left holding either pattern. */
  lemma LoadedRowsShape(columns: seq<string>, rows: seq<seq<string>>, i: nat, j: nat)
    requires i < |rows| && j < |rows[i]|
    ensures |RewriteRows(columns, rows, OptionColumns)| == |rows|
    ensures |RewriteRows(columns, rows, OptionColumns)[i]| == |rows[i]|
    ensures j < |columns| && columns[j] in OptionColumns ==>
      var cell := RewriteRows(columns, rows, OptionColumns)[i][j];
      Free(cell, "none") && Free(cell, "NONE")
    ensures (j >= |columns| || columns[j] !in OptionColumns) ==>
      RewriteRows(columns, rows, OptionColumns)[i][j] == rows[i][j]
  {
  }

  /** Loading an already loaded table again changes nothing. */
  lemma RewriteRowsIdempotent(columns: seq<string>, rows: seq<seq<string>>)
    ensures RewriteRows(columns, RewriteRows(columns, rows, OptionColumns), OptionColumns)
         == RewriteRows(columns, rows, OptionColumns)
  {
    var once := RewriteRows(columns, rows, OptionColumns);
    var twice := RewriteRows(columns, once, OptionColumns);
    forall i | 0 <= i < |rows| ensures twice[i] == once[i] {
      forall j | 0 <= j < |rows[i]| ensures twice[i][j] == once[i][j] {
        RewriteNoneIdempotent(rows[i][j]);
      }
    }
  }

  /** A header name padded with spaces still satisfies the column check. */
  lemma PaddedHeaderAccepted()
    ensures StripSpace(" question ") == "question"
  {
    var padded, word := " question ", "question";
    assert padded[1..] == word + " " && padded[0] == ' ';
    assert LStrip(padded, IsSpace) == LStrip(word + " ", IsSpace) == word + " ";
    assert (word + " ")[..|word|] == word;
    assert RStrip(word + " ", IsSpace) == RStrip(word, IsSpace) == word;
  }
}
