/** The tolerant parser behind `generate_quiz_from_doc`: it turns the text
    returned by the question generator into quiz rows, one per line that
    splits into exactly six quoted fields, and warns about every other line.
    The generator call itself is outside the model; its answer is the
    optional string `response`. */
module DocToQuiz {
  import opened Text
  import opened Quiz

  const Delimiter: string := "\",\""
  const NoneMessage: string := "Gemini API returned None."
  const EmptyMessage: string := "Gemini API returned an empty response."
  const NoQuestionsMessage: string :=
    "No valid quiz questions were extracted. Check API response formatting."
  const MalformedPrefix: string := "Skipping malformed line: "

  /* ---------------------------------------------------------------------
     clean_question
     --------------------------------------------------------------------- */

  predicate IsOrdinalMark(c: char) {
    c == '.' || c == ')'
  }

  predicate All(s: string, p: char -> bool) {
    forall i :: 0 <= i < |s| ==> p(s[i])
  }

  /** `p` is cut at `a` and `b` into digits, at most one mark, and spaces. */
  predicate OrdinalParts(p: string, a: nat, b: nat) {
    0 < a <= b <= |p| && b <= a + 1 &&
    All(p[..a], IsDigit) && All(p[a..b], IsOrdinalMark) && All(p[b..], IsSpace)
  }

  /** `p` matches the regular expression `\d+[.)]?\s*` as a whole. */
  ghost predicate IsOrdinalPrefix(p: string) {
    exists a: nat, b: nat :: OrdinalParts(p, a, b)
  }

  /** Number of leading characters satisfying `f`. */
  function Run(t: string, f: char -> bool): (n: nat)
    ensures n <= |t| && All(t[..n], f) && (n == |t| || !f(t[n]))
  {
    var rest := LStrip(t, f);
    LStripRemovesPrefix(t, f);
    assert t[|t| - |rest|..] == rest;
    |t| - |rest|
  }

  /** A cut whose digit part stops early puts a digit among the marks or spaces. */
  lemma ShortDigitsFail(p: string, a: nat, a': nat, b': nat)
    requires a <= |p| && All(p[..a], IsDigit) && a' < a && a' <= b' <= a' + 1
    ensures !OrdinalParts(p, a', b')
  {
    assert IsDigit(p[a']) by { assert p[..a][a'] == p[a']; }
    if b' > a' {
      if b' <= |p| { assert p[a'..b'][0] == p[a']; }
    } else {
      assert p[b'..][0] == p[a'];
    }
  }

  /** A cut whose digit part runs past the digits holds a non-digit. */
  lemma LongDigitsFail(p: string, a: nat, a': nat, b': nat)
    requires a < a' <= |p| && !IsDigit(p[a])
    ensures !OrdinalParts(p, a', b')
  {
    assert p[..a'][a] == p[a];
  }

  /** The space part must stop at the first non-space after the mark. */
  lemma SpacesFail(p: string, b: nat, k: nat, b': nat)
    requires b' <= b <= k < |p| && !IsSpace(p[k])
    ensures !All(p[b'..], IsSpace)
  {
    assert p[b'..][k - b'] == p[k];
  }

  /** No prefix of `p` is cut as digits, marks and spaces past the first
      `k` characters, where the digits of `p` end at `a`, its mark (if any)
      at `b`, and `p[k]` is not a space. */
  lemma OrdinalPrefixLongest(p: string, a: nat, b: nat, k: nat)
    requires 0 < a <= b <= k < |p| && All(p[..a], IsDigit) && !IsDigit(p[a])
    requires b == (if IsOrdinalMark(p[a]) then a + 1 else a)
    requires !IsSpace(p[k])
    ensures !IsOrdinalPrefix(p)
  {
    forall a': nat, b': nat ensures !OrdinalParts(p, a', b') {
      if 0 < a' <= b' <= |p| && b' <= a' + 1 {
        if a' < a {
          ShortDigitsFail(p, a, a', b');
        } else if a' > a {
          LongDigitsFail(p, a, a', b');
        } else if b' == b {
          SpacesFail(p, b, k, b');
        } else if b' == a + 1 {
          assert p[a'..b'][0] == p[a];
        } else {
          assert p[b'..][0] == p[a];
        }
      }
    }
  }

  /** The digits up to `a`, the mark up to `b` and the spaces up to `k`
      form a match of the pattern. */
  lemma OrdinalPrefixFound(t: string, a: nat, b: nat, k: nat)
    requires 0 < a <= b <= k <= |t| && b <= a + 1
    requires All(t[..a], IsDigit) && All(t[a..b], IsOrdinalMark) && All(t[b..][..k - b], IsSpace)
    ensures OrdinalParts(t[..k], a, b)
  {
    var p := t[..k];
    assert p[..a] == t[..a];
    assert p[a..b] == t[a..b];
    assert p[b..] == t[b..][..k - b];
  }

  /** Every prefix longer than the greedy match fails to match. */
  lemma OrdinalPrefixMaximal(t: string, a: nat, b: nat, k: nat)
    requires 0 < a <= b <= k <= |t|
    requires All(t[..a], IsDigit) && (a == |t| || !IsDigit(t[a]))
    requires b == (if a < |t| && IsOrdinalMark(t[a]) then a + 1 else a)
    requires k == |t| || !IsSpace(t[k])
    ensures forall m :: k < m <= |t| ==> !IsOrdinalPrefix(t[..m])
  {
    forall m | k < m <= |t| ensures !IsOrdinalPrefix(t[..m]) {
      var q := t[..m];
      assert q[..a] == t[..a];
      OrdinalPrefixLongest(q, a, b, k);
    }
  }

  /** Length of the text removed by `re.sub(r'^\d+[\.\)]?\s*', '', t)`:
      nothing when `t` does not start with a digit, otherwise the longest
      prefix matching the pattern. */
  function OrdinalPrefixLength(t: string): (k: nat)
    ensures k <= |t|
    ensures k == 0 <==> (t == [] || !IsDigit(t[0]))
    ensures k > 0 ==> IsOrdinalPrefix(t[..k])
    ensures k > 0 ==> forall m :: k < m <= |t| ==> !IsOrdinalPrefix(t[..m])
  {
    var a := Run(t, IsDigit);
    if a == 0 then 0
    else
      var b := if a < |t| && IsOrdinalMark(t[a]) then a + 1 else a;
      var n := Run(t[b..], IsSpace);
      var k := b + n;
      assert k == |t| || !IsSpace(t[k]) by {
        if k < |t| { assert t[b..][n] == t[k]; }
      }
      OrdinalPrefixFound(t, a, b, k);
      OrdinalPrefixMaximal(t, a, b, k);
      k
  }

  /** `clean_question`: strip every surrounding `"`, then drop one leading
      ordinal such as `1. `, `2) ` or `3 `. The result is a suffix of the
      quote-stripped text; text not starting with a digit comes back whole,
      and otherwise exactly the longest ordinal prefix is dropped. */
  function CleanQuestion(text: string): (r: string)
    ensures var t := StripQuotes(text);
      |r| <= |t| && r == t[|t| - |r|..] &&
      ((t == [] || !IsDigit(t[0])) <==> r == t) &&
      (r != t ==> IsOrdinalPrefix(t[..|t| - |r|]) &&
                  forall m :: |t| - |r| < m <= |t| ==> !IsOrdinalPrefix(t[..m]))
  {
    var t := StripQuotes(text);
    t[OrdinalPrefixLength(t)..]
  }

  /* ---------------------------------------------------------------------
     The line parser
     --------------------------------------------------------------------- */

  /** `[col.strip().strip('"') for col in line.split('","')]` */
  function Fields(line: string): (r: seq<string>)
    ensures |r| == |Split(line, Delimiter)| >= 1
    ensures forall i :: 0 <= i < |r| ==> r[i] == StripQuotes(StripSpace(Split(line, Delimiter)[i]))
    ensures forall i :: 0 <= i < |r| ==> r[i] == [] || (!IsQuote(r[i][0]) && !IsQuote(r[i][|r[i]| - 1]))
  {
    var pieces := Split(line, Delimiter);
    forall i | 0 <= i < |pieces| {
      StripIsTrimmed(StripSpace(pieces[i]), IsQuote);
    }
    seq(|pieces|, i requires 0 <= i < |pieces| => StripQuotes(StripSpace(pieces[i])))
  }

  predicate WellFormed(line: string) {
    |Fields(line)| == 6
  }

  /** The row kept for a well-formed line: its fields with the first cleaned. */
  function AcceptRow(line: string): (row: seq<string>)
    requires WellFormed(line)
    ensures |row| == 6 && row[1..] == Fields(line)[1..]
    ensures row[0] == CleanQuestion(Fields(line)[0])
  {
    var columns := Fields(line);
    columns[0 := CleanQuestion(columns[0])]
  }

  /** What one line adds to `quiz_data`. */
  function Kept(line: string): (rows: seq<seq<string>>)
    ensures |rows| <= 1 && forall i :: 0 <= i < |rows| ==> |rows[i]| == 6
    ensures |rows| == 1 <==> WellFormed(line)
    ensures |rows| == 1 ==> rows[0][0] == CleanQuestion(Fields(line)[0]) && rows[0][1..] == Fields(line)[1..]
  {
    if WellFormed(line) then [AcceptRow(line)] else []
  }

  /** What one line adds to the warnings. */
  function Warned(line: string): (ws: seq<string>)
    ensures |ws| <= 1 && (|ws| == 1 <==> !WellFormed(line))
  {
    if WellFormed(line) then [] else [MalformedPrefix + line]
  }

  /** The concatenation of `f(line)` over `lines`, in order. */
  function Collect<T>(lines: seq<string>, f: string -> seq<T>): seq<T> {
    if lines == [] then [] else Collect(lines[..|lines| - 1], f) + f(lines[|lines| - 1])
  }

  lemma {:induction false} CollectConcat<T>(xs: seq<string>, ys: seq<string>, f: string -> seq<T>)
    ensures Collect(xs + ys, f) == Collect(xs, f) + Collect(ys, f)
    decreases |ys|
  {
    if ys == [] {
      assert xs + ys == xs;
    } else {
      var zs, init := xs + ys, ys[..|ys| - 1];
      assert zs[..|zs| - 1] == xs + init && zs[|zs| - 1] == ys[|ys| - 1];
      CollectConcat(xs, init, f);
    }
  }

  lemma CollectSnoc<T>(lines: seq<string>, i: nat, f: string -> seq<T>)
    requires i < |lines|
    ensures Collect(lines[..i + 1], f) == Collect(lines[..i], f) + f(lines[i])
  {
    assert lines[..i + 1][..i] == lines[..i];
  }

  lemma {:induction false} CollectKeptShape(lines: seq<string>)
    ensures |Collect(lines, Kept)| <= |lines|
    ensures forall i :: 0 <= i < |Collect(lines, Kept)| ==> |Collect(lines, Kept)[i]| == 6
  {
    if lines != [] {
      CollectKeptShape(lines[..|lines| - 1]);
    }
  }

  /** `quiz_data` after the loop over `lines`: the kept rows, in line order. */
  function AcceptedRows(lines: seq<string>): seq<seq<string>> {
    Collect(lines, Kept)
  }

  /** The warnings issued by the loop over `lines`, one per rejected line. */
  function Warnings(lines: seq<string>): seq<string> {
    Collect(lines, Warned)
  }

  /** Every line is either kept or warned about, never both. */
  lemma {:induction false} EveryLineKeptOrWarned(lines: seq<string>)
    ensures |AcceptedRows(lines)| + |Warnings(lines)| == |lines|
  {
    if lines != [] {
      EveryLineKeptOrWarned(lines[..|lines| - 1]);
    }
  }

  /** The parser works line by line: parsing two blocks of lines one after
      the other keeps the first block's rows and warnings first. */
  lemma ParseConcatenation(xs: seq<string>, ys: seq<string>)
    ensures AcceptedRows(xs + ys) == AcceptedRows(xs) + AcceptedRows(ys)
    ensures Warnings(xs + ys) == Warnings(xs) + Warnings(ys)
  {
    CollectConcat(xs, ys, Kept);
    CollectConcat(xs, ys, Warned);
  }

  /** A single line is kept, cleaned, exactly when it has six fields, and
      warned about exactly when it has not. */
  lemma OneLine(line: string)
    ensures AcceptedRows([line]) == (if WellFormed(line) then [AcceptRow(line)] else [])
    ensures Warnings([line]) == (if WellFormed(line) then [] else [MalformedPrefix + line])
  {
    assert [line][..0] == [];
    assert Collect([line], Kept) == Collect([], Kept) + Kept(line);
    assert Collect([line], Warned) == Collect([], Warned) + Warned(line);
  }

  /** `pd.DataFrame(quiz_data, columns=[...])`: rows labelled by position. */
  function ToQuizRows(rows: seq<seq<string>>): (df: seq<QuizRow>)
    ensures |df| == |rows| && PositionalLabels(df)
    ensures forall i :: 0 <= i < |rows| && |rows[i]| == 6 ==>
      rows[i] == [df[i].question, df[i].option1, df[i].option2, df[i].option3, df[i].option4, df[i].correctAnswer]
  {
    seq(|rows|, i requires 0 <= i < |rows| =>
      var row := rows[i];
      QuizRow(i, CellAt(row, 0), CellAt(row, 1), CellAt(row, 2), CellAt(row, 3), CellAt(row, 4), CellAt(row, 5)))
  }

  /** `df[df['question'] != 'question']`: drop header echoes, keeping the
      order and the index labels of the remaining rows. */
  function DropHeaderEcho(df: seq<QuizRow>): (r: seq<QuizRow>)
    ensures |r| <= |df|
    ensures forall row :: row in r <==> row in df && row.question != "question"
  {
    if df == [] then []
    else if df[0].question == "question" then DropHeaderEcho(df[1..])
    else [df[0]] + DropHeaderEcho(df[1..])
  }

  /** The header filter works row by row: filtering two blocks of rows
      keeps the first block's survivors first, in their order. */
  lemma {:induction false} DropHeaderEchoConcat(a: seq<QuizRow>, b: seq<QuizRow>)
    ensures DropHeaderEcho(a + b) == DropHeaderEcho(a) + DropHeaderEcho(b)
  {
    if a != [] {
      assert (a + b)[0] == a[0] && (a + b)[1..] == a[1..] + b;
      DropHeaderEchoConcat(a[1..], b);
    } else {
      assert a + b == b;
    }
  }

  /** One row is dropped exactly when its question is `question`. */
  lemma DropHeaderEchoOne(row: QuizRow)
    ensures DropHeaderEcho([row]) == (if row.question == "question" then [] else [row])
  {
    assert [row][1..] == [];
  }

  /** Each row kept by the header filter keeps the label it had, which is
      at least its new position when the labels started at `offset`. */
  lemma {:induction false} DropHeaderEchoLabels(df: seq<QuizRow>, offset: int)
    requires forall i :: 0 <= i < |df| ==> df[i].rowLabel == offset + i
    ensures forall j :: 0 <= j < |DropHeaderEcho(df)| ==>
      offset + j <= DropHeaderEcho(df)[j].rowLabel < offset + |df|
  {
    if df != [] {
      var tail := df[1..];
      DropHeaderEchoLabels(tail, offset + 1);
      var r, rt := DropHeaderEcho(df), DropHeaderEcho(tail);
      if df[0].question != "question" {
        assert r == [df[0]] + rt;
        forall j | 0 < j < |r| ensures offset + j <= r[j].rowLabel < offset + |df| {
          assert r[j] == rt[j - 1];
        }
      }
    }
  }

  /** The frame `generate_quiz_from_doc` returns as written: the header
      echoes dropped, the remaining rows keeping their labels, so that the
      row at position `j` is labelled `j` or more. */
  function FrameAsWritten(quizData: seq<seq<string>>): (df: seq<QuizRow>)
    ensures |df| <= |quizData|
    ensures forall j :: 0 <= j < |df| ==> j <= df[j].rowLabel < |quizData| && df[j].question != "question"
  {
    var rows := ToQuizRows(quizData);
    DropHeaderEchoLabels(rows, 0);
    var df := DropHeaderEcho(rows);
    assert forall j :: 0 <= j < |df| ==> df[j] in df;
    df
  }

  /** `df.reset_index(drop=True)`: the same rows labelled by position. */
  function ResetIndex(df: seq<QuizRow>): (r: seq<QuizRow>)
    ensures |r| == |df| && PositionalLabels(r)
    ensures forall i :: 0 <= i < |df| ==> r[i] == df[i].(rowLabel := i)
  {
    seq(|df|, i requires 0 <= i < |df| => df[i].(rowLabel := i))
  }

  /** One pass of the loop body: split the line into fields; keep it, with
      its question cleaned, when there are six, and warn about it otherwise. */
  method ParseLine(line: string) returns (kept: seq<seq<string>>, warned: seq<string>)
    ensures kept == Kept(line) && warned == Warned(line)
  {
    var columns := Fields(line);
    if |columns| == 6 {
      columns := columns[0 := CleanQuestion(columns[0])];
      kept, warned := [columns], [];
    } else {
      kept, warned := [], [MalformedPrefix + line];
    }
  }

  /** The loop of `generate_quiz_from_doc` over the lines of the answer. */
  method ParseLines(lines: seq<string>) returns (quizData: seq<seq<string>>, warnings: seq<string>)
    ensures quizData == AcceptedRows(lines)
    ensures warnings == Warnings(lines)
  {
    quizData, warnings := [], [];
    var i := 0;
    while i < |lines|
      invariant 0 <= i <= |lines|
      invariant quizData == AcceptedRows(lines[..i])
      invariant warnings == Warnings(lines[..i])
    {
      var kept, warned := ParseLine(lines[i]);
      quizData, warnings := quizData + kept, warnings + warned;
      CollectSnoc(lines, i, Kept);
      CollectSnoc(lines, i, Warned);
      i := i + 1;
    }
    assert lines[..i] == lines;
  }

  /** `generate_quiz_from_doc` from the generator's answer on. `errors` and
      `warnings` are the messages shown to the user. A missing or empty
      answer, or one without a single well-formed line, gives the empty
      table and one error. Otherwise the header echoes are dropped after
      that test, so an answer holding only the header line gives the empty
      table without an error. The rows left keep the labels they had before
      the header echoes were dropped. */
  method GenerateQuizFromDoc(response: Option<string>)
    returns (df: seq<QuizRow>, warnings: seq<string>, errors: seq<string>)
    ensures response.None? ==> df == [] && warnings == [] && errors == [NoneMessage]
    ensures response == Some("") ==> df == [] && warnings == [] && errors == [EmptyMessage]
    ensures response.Some? && response.value != "" ==>
      var lines := Split(StripSpace(response.value), "\n");
      warnings == Warnings(lines) &&
      (AcceptedRows(lines) == [] <==> errors == [NoQuestionsMessage]) &&
      (AcceptedRows(lines) == [] ==> df == []) &&
      (AcceptedRows(lines) != [] ==>
         (errors == [] && df == FrameAsWritten(AcceptedRows(lines))))
  {
    df, warnings, errors := [], [], [];
    if response.None? {
      errors := [NoneMessage];
      return;
    }
    if response.value == "" {
      errors := [EmptyMessage];
      return;
    }
    var responseText := StripSpace(response.value);
    var quizData;
    quizData, warnings := ParseLines(Split(responseText, "\n"));
    if quizData == [] {
      errors := [NoQuestionsMessage];
      return;
    }
    df := FrameAsWritten(quizData);
  }

  /** `generate_quiz_from_doc` followed by `reset_index(drop=True)`, the
      evidently intended frame: the same rows and messages, each row labelled
      by its position, so the scorer reads the answer the display stored. */
  method GenerateQuizRelabelled(response: Option<string>)
    returns (df: seq<QuizRow>, warnings: seq<string>, errors: seq<string>)
    ensures PositionalLabels(df)
    ensures response.None? ==> df == [] && warnings == [] && errors == [NoneMessage]
    ensures response == Some("") ==> df == [] && warnings == [] && errors == [EmptyMessage]
    ensures response.Some? && response.value != "" ==>
      var lines := Split(StripSpace(response.value), "\n");
      warnings == Warnings(lines) &&
      (AcceptedRows(lines) == [] <==> errors == [NoQuestionsMessage]) &&
      (AcceptedRows(lines) == [] ==> df == []) &&
      (AcceptedRows(lines) != [] ==>
         (errors == [] && df == ResetIndex(FrameAsWritten(AcceptedRows(lines)))))
  {
    var frame;
    frame, warnings, errors := GenerateQuizFromDoc(response);
    df := ResetIndex(frame);
  }

  /** The header filter empties the frame exactly when every row is a
      header echo; so an answer whose only well-formed line is the header
      yields an empty table (and, by the loop's contract, no error). */
  lemma {:induction false} DropHeaderEchoEmpty(df: seq<QuizRow>)
    ensures DropHeaderEcho(df) == [] <==> forall i :: 0 <= i < |df| ==> df[i].question == "question"
  {
    if df != [] {
      DropHeaderEchoEmpty(df[1..]);
      if df[0].question == "question" {
        forall i | 0 < i < |df| ensures df[i].question == df[1..][i - 1].question { }
      }
    }
  }
}
