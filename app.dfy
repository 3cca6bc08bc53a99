/** The quiz session of the Streamlit page: the values kept in
    `st.session_state` between reruns, the events that change them (the
    sidebar selector, the source pages, the Start, Previous, Next, Submit
    and Take Another Quiz buttons, the timer, the progress bar, the question
    display) and the scorer of the results page. A rerun of the script is a
    sequence of method calls on the session, one per step it takes: the
    sidebar selector at the top of every rerun, then a source page, or the
    timer, the progress bar, the display and a button, or the results page;
    widgets, the clock and the shuffle are parameters. */
module App {
  import opened Text
  import opened Quiz
  import DocToQuiz

  datatype QuizState = NotStarted | InProgress | Completed

  /** One row of the results table. `verdict` is "Correct" or "Incorrect". */
  datatype Feedback = Feedback(question: string, yourAnswer: string, correctAnswer: string, verdict: string)

  /** How a run of the quiz page ends: the question is shown, or
      `st.progress` rejects its fraction (`StreamlitAPIException`), or
      `iloc` raises `IndexError`, or `options.index` raises `ValueError`. */
  datatype Display = Shown | ProgressError | IndexError | ValueError

  /** The pages that load a quiz: the lower-cased selector entries other
      than "Home". */
  const SourcePages: set<string> := {"topic", "document", "q&a csv"}

  /* ---------------------------------------------------------------------
     Scoring
     --------------------------------------------------------------------- */

  /** `user_answers.get(label, "")` */
  function AnswerFor(answers: map<int, string>, key: int): string {
    if key in answers then answers[key] else ""
  }

  /** `str(x).strip().lower()` on a string cell: no longer than the cell,
      no capital letter left and no white space at either end. */
  function Normalize(s: string): (r: string)
    ensures |r| <= |s|
    ensures forall i :: 0 <= i < |r| ==> !('A' <= r[i] <= 'Z')
    ensures r == [] || (!IsSpace(r[0]) && !IsSpace(r[|r| - 1]))
  {
    var t := StripSpace(s);
    StripIsTrimmed(s, IsSpace);
    LowerMapsEachChar(t);
    Lower(t)
  }

  /** Normalizing twice changes nothing more. */
  lemma NormalizeIdempotent(s: string)
    ensures Normalize(Normalize(s)) == Normalize(s)
  {
    var r := Normalize(s);
    assert LStrip(r, IsSpace) == r;
    assert RStrip(r, IsSpace) == r;
    LowerIs(r, r);
  }

  /** The answer stored under the row's label matches its correct answer,
      ignoring surrounding white space and ASCII case: the exact text of the
      correct answer always scores, and a question left unanswered scores
      only when its correct answer is blank. */
  predicate IsCorrect(row: QuizRow, answers: map<int, string>)
    ensures AnswerFor(answers, row.rowLabel) == row.correctAnswer ==> IsCorrect(row, answers)
    ensures row.rowLabel !in answers ==> (IsCorrect(row, answers) <==> Normalize(row.correctAnswer) == [])
  {
    assert Normalize("") == [];
    Normalize(AnswerFor(answers, row.rowLabel)) == Normalize(row.correctAnswer)
  }

  function FeedbackFor(row: QuizRow, answers: map<int, string>): Feedback {
    Feedback(row.question, AnswerFor(answers, row.rowLabel), row.correctAnswer,
      if IsCorrect(row, answers) then "Correct" else "Incorrect")
  }

  /** The number of rows of `df` answered correctly. */
  function CountCorrect(df: seq<QuizRow>, answers: map<int, string>): nat {
    if df == [] then 0
    else CountCorrect(df[..|df| - 1], answers) + (if IsCorrect(df[|df| - 1], answers) then 1 else 0)
  }

  /** The number of rows of a results table marked "Correct". */
  function CountVerdicts(feedback: seq<Feedback>): nat {
    if feedback == [] then 0
    else CountVerdicts(feedback[..|feedback| - 1]) + (if feedback[|feedback| - 1].verdict == "Correct" then 1 else 0)
  }

  /** The feedback table of `df`: one row per frame row, in frame order. */
  function FeedbackRows(df: seq<QuizRow>, answers: map<int, string>): seq<Feedback> {
    if df == [] then []
    else FeedbackRows(df[..|df| - 1], answers) + [FeedbackFor(df[|df| - 1], answers)]
  }

  lemma CountCorrectSnoc(df: seq<QuizRow>, i: nat, answers: map<int, string>)
    requires i < |df|
    ensures CountCorrect(df[..i + 1], answers) ==
      CountCorrect(df[..i], answers) + if IsCorrect(df[i], answers) then 1 else 0
  {
    assert df[..i + 1][..i] == df[..i];
  }

  lemma FeedbackRowsSnoc(df: seq<QuizRow>, i: nat, answers: map<int, string>)
    requires i < |df|
    ensures FeedbackRows(df[..i + 1], answers) == FeedbackRows(df[..i], answers) + [FeedbackFor(df[i], answers)]
  {
    assert df[..i + 1][..i] == df[..i];
  }

  /** One pass of the results loop: the point and the feedback row of `row`. */
  method ScoreRow(row: QuizRow, answers: map<int, string>) returns (point: nat, entry: Feedback)
    ensures point == (if IsCorrect(row, answers) then 1 else 0)
    ensures entry == FeedbackFor(row, answers)
  {
    var correctOption := Normalize(row.correctAnswer);
    var userAnswer := Normalize(AnswerFor(answers, row.rowLabel));
    var isCorrect := userAnswer == correctOption;
    point := if isCorrect then 1 else 0;
    entry := Feedback(row.question, AnswerFor(answers, row.rowLabel), row.correctAnswer,
      if isCorrect then "Correct" else "Incorrect");
  }

  /** The loop of the results page: one point and one feedback row per row
      of the frame, in frame order, answers looked up by row label. */
  method ScoreQuiz(df: seq<QuizRow>, answers: map<int, string>) returns (score: nat, feedback: seq<Feedback>)
    ensures score == CountCorrect(df, answers)
    ensures feedback == FeedbackRows(df, answers)
  {
    score, feedback := 0, [];
    var i := 0;
    while i < |df|
      invariant 0 <= i <= |df|
      invariant score == CountCorrect(df[..i], answers)
      invariant feedback == FeedbackRows(df[..i], answers)
    {
      var point, entry := ScoreRow(df[i], answers);
      score, feedback := score + point, feedback + [entry];
      CountCorrectSnoc(df, i, answers);
      FeedbackRowsSnoc(df, i, answers);
      i := i + 1;
    }
    assert df[..i] == df;
  }

  /** The feedback table has a row for each question, describing it. */
  lemma {:induction false} FeedbackRowsAt(df: seq<QuizRow>, answers: map<int, string>)
    ensures |FeedbackRows(df, answers)| == |df|
    ensures forall i :: 0 <= i < |df| ==> FeedbackRows(df, answers)[i] == FeedbackFor(df[i], answers)
    ensures forall i :: 0 <= i < |df| ==>
      FeedbackRows(df, answers)[i].question == df[i].question &&
      FeedbackRows(df, answers)[i].yourAnswer == AnswerFor(answers, df[i].rowLabel) &&
      (FeedbackRows(df, answers)[i].verdict == "Correct" <==> IsCorrect(df[i], answers))
  {
    if df != [] {
      var init := df[..|df| - 1];
      FeedbackRowsAt(init, answers);
      var rows := FeedbackRows(df, answers);
      assert rows == FeedbackRows(init, answers) + [FeedbackFor(df[|df| - 1], answers)];
      forall i | 0 <= i < |df| ensures rows[i] == FeedbackFor(df[i], answers) {
        if i < |init| {
          assert rows[i] == FeedbackRows(init, answers)[i];
          assert init[i] == df[i];
        } else {
          assert rows[i] == FeedbackFor(df[|df| - 1], answers);
        }
      }
    }
  }

  /** The score never exceeds the number of questions. */
  lemma {:induction false} ScoreAtMostQuestions(df: seq<QuizRow>, answers: map<int, string>)
    ensures CountCorrect(df, answers) <= |df|
  {
    if df != [] {
      ScoreAtMostQuestions(df[..|df| - 1], answers);
    }
  }

  /** Full marks exactly when every row is answered correctly. */
  lemma {:induction false} FullScoreIff(df: seq<QuizRow>, answers: map<int, string>)
    ensures CountCorrect(df, answers) == |df| <==> forall i :: 0 <= i < |df| ==> IsCorrect(df[i], answers)
  {
    if df != [] {
      var init := df[..|df| - 1];
      FullScoreIff(init, answers);
      ScoreAtMostQuestions(init, answers);
      assert forall i :: 0 <= i < |init| ==> init[i] == df[i];
    }
  }

  /** The score shown is the number of "Correct" rows of the feedback table. */
  lemma {:induction false} ScoreMatchesFeedback(df: seq<QuizRow>, answers: map<int, string>)
    ensures CountVerdicts(FeedbackRows(df, answers)) == CountCorrect(df, answers)
  {
    if df != [] {
      var init := df[..|df| - 1];
      ScoreMatchesFeedback(init, answers);
      var rows := FeedbackRows(df, answers);
      assert rows[..|rows| - 1] == FeedbackRows(init, answers);
    }
  }

  /** With rows labelled by position, answering every displayed question
      with its correct answer gives full marks. */
  lemma FullMarksWhenEveryPositionAnswered(df: seq<QuizRow>, answers: map<int, string>)
    requires PositionalLabels(df)
    requires forall i :: 0 <= i < |df| ==> i in answers && Normalize(answers[i]) == Normalize(df[i].correctAnswer)
    ensures CountCorrect(df, answers) == |df|
  {
    forall i | 0 <= i < |df| ensures IsCorrect(df[i], answers) {
      assert df[i].rowLabel == i;
    }
    FullScoreIff(df, answers);
  }

  /** A quiz loaded from a CSV file is labelled by position, so it is
      scored as it is displayed: answering every shown question with its
      correct answer gives full marks. */
  lemma CsvQuizFullMarks(t: Table, answers: map<int, string>)
    requires HasRequiredColumns(t.columns)
    requires forall i :: 0 <= i < |t.rows| ==>
      i in answers && Normalize(answers[i]) == Normalize(FromTable(t)[i].correctAnswer)
    ensures CountCorrect(FromTable(t), answers) == |t.rows|
  {
    FullMarksWhenEveryPositionAnswered(FromTable(t), answers);
  }

  /** A generator answer whose first line echoes the header and whose second
      line is one question, as the frame `generate_quiz_from_doc` returns it. */
  const EchoedRows: seq<seq<string>> :=
    [["question", "option1", "option2", "option3", "option4", "correct_answer"],
     ["Q", "a", "b", "c", "d", "b"]]

  /** With the header echo dropped but the labels kept, the only question is
      displayed at position 0 but scored under label 1: answering it
      correctly scores 0, where the relabelled frame scores 1. */
  lemma HeaderEchoShiftsScoring()
    ensures var frame := DocToQuiz.FrameAsWritten(EchoedRows);
      |frame| == 1 && frame[0].correctAnswer == "b" &&
      CountCorrect(frame, map[0 := "b"]) == 0 &&
      CountCorrect(DocToQuiz.ResetIndex(frame), map[0 := "b"]) == 1
  {
    var frame := DocToQuiz.FrameAsWritten(EchoedRows);
    var rows := DocToQuiz.ToQuizRows(EchoedRows);
    assert rows[0].question == "question";
    assert rows[1] == QuizRow(1, "Q", "a", "b", "c", "d", "b");
    assert frame == [rows[1]];
    assert frame[..0] == [];
    assert AnswerFor(map[0 := "b"], 1) == "";
    assert Normalize("") == "";
    assert Normalize("b") == "b" by {
      assert StripSpace("b") == "b";
    }
    var fixed := DocToQuiz.ResetIndex(frame);
    assert fixed == [QuizRow(0, "Q", "a", "b", "c", "d", "b")];
    assert fixed[..0] == [];
  }

  /** `divmod` of the duration in whole seconds, as lines 155-156 print it. */
  function SplitDuration(duration: int): (r: (int, int))
    ensures r.0 * 60 + r.1 == duration && 0 <= r.1 < 60
  {
    (duration / 60, duration % 60)
  }

  /* ---------------------------------------------------------------------
     The session
     --------------------------------------------------------------------- */

  /** `st.session_state` of one browser session. */
  class Session {
    var page: string
    var quizState: QuizState
    var currentQuestion: nat
    var userAnswers: map<int, string>
    var shuffledOptions: map<int, seq<string>>
    var questionFeedback: seq<Feedback>
    var quizDuration: int
    var finalScore: nat
    var quizSource: Option<string>
    var quizDf: Option<seq<QuizRow>>
    var generating: bool
    var startTime: int

    /** The values the initialisation block stores. */
    predicate Initial()
      reads this
    {
      page == "home" && quizState == NotStarted && currentQuestion == 0 &&
      userAnswers == map[] && shuffledOptions == map[] && questionFeedback == [] &&
      quizDuration == 0 && finalScore == 0 && quizSource == None && quizDf == None &&
      !generating && startTime == 0
    }

    /** What every event keeps: a started quiz has a non-empty frame, and
        every memoised shuffle is a permutation of its row's four options. */
    predicate Consistent()
      reads this
    {
      ConsistentState(quizState, quizDf, shuffledOptions)
    }

    /** In addition, nothing is left over from an earlier quiz. */
    predicate Valid()
      reads this
    {
      ValidState(quizState, quizDf, currentQuestion, userAnswers, shuffledOptions, startTime)
    }

    /** The initialisation block of the first run. */
    constructor()
      ensures Initial() && Valid()
    {
      page, quizState, currentQuestion := "home", NotStarted, 0;
      userAnswers, shuffledOptions, questionFeedback := map[], map[], [];
      quizDuration, finalScore, quizSource, quizDf := 0, 0, None, None;
      generating, startTime := false, 0;
      InitialStateValid();
    }

    /** The sidebar selector as written: a new selection opens its page
        with no quiz and no memoised shuffles, but keeps the position, the
        answers and the start time of the quiz that was left. */
    method SwitchSourceAsWritten(selection: string) returns (switched: bool)
      requires Consistent()
      modifies this
      ensures switched <==> old(quizSource) != Some(selection)
      ensures switched ==>
        quizSource == Some(selection) && page == Lower(selection) && quizDf == None &&
        quizState == NotStarted && shuffledOptions == map[] &&
        currentQuestion == old(currentQuestion) && userAnswers == old(userAnswers) &&
        startTime == old(startTime) && questionFeedback == old(questionFeedback) &&
        quizDuration == old(quizDuration) && finalScore == old(finalScore) &&
        generating == old(generating)
      ensures !switched ==> unchanged(this)
      ensures Consistent()
    {
      switched := quizSource != Some(selection);
      if switched {
        quizSource := Some(selection);
        page := Lower(selection);
        quizDf := None;
        quizState := NotStarted;
        shuffledOptions := map[];
      }
    }

    /** The sidebar selector, also clearing the position, the answers and
        the start time, so the next quiz starts afresh. */
    method SwitchSource(selection: string) returns (switched: bool)
      requires Consistent()
      modifies this
      ensures switched <==> old(quizSource) != Some(selection)
      ensures switched ==>
        quizSource == Some(selection) && page == Lower(selection) && quizDf == None &&
        quizState == NotStarted && shuffledOptions == map[] &&
        currentQuestion == 0 && userAnswers == map[] && startTime == 0 &&
        questionFeedback == old(questionFeedback) && quizDuration == old(quizDuration) &&
        finalScore == old(finalScore) && generating == old(generating)
      ensures !switched ==> unchanged(this)
      ensures switched ==> Valid()
      ensures Consistent() && (old(Valid()) ==> Valid())
    {
      switched := quizSource != Some(selection);
      if switched {
        quizSource := Some(selection);
        page := Lower(selection);
        quizDf := None;
        quizState := NotStarted;
        shuffledOptions := map[];
        currentQuestion := 0;
        userAnswers := map[];
        startTime := 0;
      }
    }

    /** A run on a source page before the quiz starts: the page's loader
        produced `loaded` (nothing when no file was given or loading
        failed); a non-empty frame becomes the quiz, and the memoised
        shuffles are cleared. On the home page, or once a quiz has
        started, nothing changes. */
    method ShowSourcePage(loaded: Option<seq<QuizRow>>)
      requires Consistent()
      modifies this
      ensures old(quizState == NotStarted && page in SourcePages) ==>
        quizDf == (if loaded.Some? && |loaded.value| > 0 then loaded else old(quizDf)) &&
        shuffledOptions == map[] &&
        page == old(page) && quizState == old(quizState) && currentQuestion == old(currentQuestion) &&
        userAnswers == old(userAnswers) && questionFeedback == old(questionFeedback) &&
        quizDuration == old(quizDuration) && finalScore == old(finalScore) &&
        quizSource == old(quizSource) && generating == old(generating) && startTime == old(startTime)
      ensures old(quizState != NotStarted || page !in SourcePages) ==> unchanged(this)
      ensures Consistent() && (old(Valid()) ==> Valid())
    {
      if quizState == NotStarted && page in SourcePages {
        if loaded.Some? && |loaded.value| > 0 {
          quizDf := loaded;
        }
        shuffledOptions := map[];
      }
    }

    /** The Start Quiz button, shown once a source page holds a quiz. */
    method StartQuiz()
      requires Consistent() && quizState == NotStarted && page in SourcePages && quizDf.Some?
      modifies this
      ensures quizState == InProgress
      ensures page == old(page) && currentQuestion == old(currentQuestion) &&
        userAnswers == old(userAnswers) && shuffledOptions == old(shuffledOptions) &&
        questionFeedback == old(questionFeedback) && quizDuration == old(quizDuration) &&
        finalScore == old(finalScore) && quizSource == old(quizSource) && quizDf == old(quizDf) &&
        generating == old(generating) && startTime == old(startTime)
      ensures Consistent() && (old(Valid()) ==> Valid())
    {
      quizState := InProgress;
    }

    /** The clock starts at the first run of a quiz in progress. */
    method TickTimer(now: int)
      requires Consistent() && quizState == InProgress
      modifies this
      ensures startTime == (if old(startTime) == 0 then now else old(startTime))
      ensures page == old(page) && quizState == old(quizState) && currentQuestion == old(currentQuestion) &&
        userAnswers == old(userAnswers) && shuffledOptions == old(shuffledOptions) &&
        questionFeedback == old(questionFeedback) && quizDuration == old(quizDuration) &&
        finalScore == old(finalScore) && quizSource == old(quizSource) && quizDf == old(quizDf) &&
        generating == old(generating)
      ensures Consistent() && (old(Valid()) ==> Valid())
    {
      if startTime == 0 {
        startTime := now;
      }
    }

    /** The first half of `display_question`: the current row's options
        are shuffled (into `shuffle`) on its first display only. */
    method ShuffleOnce(shuffle: seq<string>)
      requires Consistent() && quizState == InProgress && currentQuestion < |quizDf.value|
      requires multiset(shuffle) == multiset(Options(quizDf.value[currentQuestion]))
      modifies this
      ensures shuffledOptions == Memoise(old(shuffledOptions), currentQuestion, shuffle)
      ensures |shuffledOptions[currentQuestion]| == 4
      ensures page == old(page) && quizState == old(quizState) && currentQuestion == old(currentQuestion) &&
        userAnswers == old(userAnswers) && questionFeedback == old(questionFeedback) &&
        quizDuration == old(quizDuration) && finalScore == old(finalScore) &&
        quizSource == old(quizSource) && quizDf == old(quizDf) &&
        generating == old(generating) && startTime == old(startTime)
      ensures Consistent() && (old(Valid()) ==> Valid())
    {
      MemoiseFits(quizDf.value, userAnswers, shuffledOptions, currentQuestion, shuffle);
      if currentQuestion !in shuffledOptions {
        shuffledOptions := shuffledOptions[currentQuestion := shuffle];
      }
    }

    /** The second half of `display_question`: the radio button starts on
        the stored answer (or the first option) and its value is recorded.
        A stored answer that is not among the options raises `ValueError`. */
    method RecordAnswer(pick: Option<nat>) returns (outcome: Display)
      requires Consistent() && quizState == InProgress
      requires currentQuestion in shuffledOptions && |shuffledOptions[currentQuestion]| == 4
      requires pick.Some? ==> pick.value < 4
      modifies this
      ensures page == old(page) && quizState == old(quizState) && currentQuestion == old(currentQuestion) &&
        shuffledOptions == old(shuffledOptions) && questionFeedback == old(questionFeedback) &&
        quizDuration == old(quizDuration) && finalScore == old(finalScore) &&
        quizSource == old(quizSource) && quizDf == old(quizDf) &&
        generating == old(generating) && startTime == old(startTime)
      ensures outcome == Shown || outcome == ValueError
      ensures outcome == ValueError <==>
        currentQuestion in old(userAnswers) && old(userAnswers)[currentQuestion] !in shuffledOptions[currentQuestion]
      ensures outcome == ValueError ==> userAnswers == old(userAnswers)
      ensures outcome == Shown ==>
        userAnswers == old(userAnswers)[currentQuestion :=
          RadioValue(shuffledOptions[currentQuestion], pick, old(userAnswers), currentQuestion)]
      ensures Consistent() && (old(Valid()) ==> outcome == Shown && Valid())
    {
      var idx := currentQuestion;
      var options := shuffledOptions[idx];
      var index := 0;
      if idx in userAnswers {
        if userAnswers[idx] !in options {
          return ValueError;
        }
        index := IndexOf(options, userAnswers[idx]);
      }
      var answer := if pick.Some? then options[pick.value] else options[index];
      assert answer in options;
      RecordFits(userAnswers, shuffledOptions, idx, answer);
      userAnswers := userAnswers[idx := answer];
      outcome := Shown;
    }

    /** The progress bar of the quiz page: `st.progress((current_q + 1) / total_q)`.
        Streamlit accepts a fraction only within [0.0, 1.0], so the page fails
        here exactly when the position is past the frame, before
        `display_question` runs. */
    method ShowProgress() returns (outcome: Display)
      requires Consistent() && quizState == InProgress
      ensures outcome == Shown || outcome == ProgressError
      ensures outcome == ProgressError <==> currentQuestion >= |quizDf.value|
      ensures Valid() ==> outcome == Shown
    {
      var total := |quizDf.value| as real;
      var fraction := (currentQuestion + 1) as real / total;
      assert fraction * total == (currentQuestion + 1) as real;
      if 0.0 <= fraction <= 1.0 {
        outcome := Shown;
      } else {
        outcome := ProgressError;
      }
    }

    /** `display_question`: a position past the frame raises `IndexError`;
        otherwise the options are shuffled once and the answer recorded.
        Neither error can happen in a valid session. */
    method DisplayQuestion(shuffle: seq<string>, pick: Option<nat>) returns (outcome: Display)
      requires Consistent() && quizState == InProgress
      requires currentQuestion < |quizDf.value| ==>
        multiset(shuffle) == multiset(Options(quizDf.value[currentQuestion]))
      requires pick.Some? ==> pick.value < 4
      modifies this
      ensures old(currentQuestion >= |quizDf.value|) ==> outcome == IndexError && unchanged(this)
      ensures old(currentQuestion < |quizDf.value|) ==>
        shuffledOptions == Memoise(old(shuffledOptions), currentQuestion, shuffle) &&
        |shuffledOptions[currentQuestion]| == 4 &&
        (outcome == ValueError <==>
          currentQuestion in old(userAnswers) && old(userAnswers)[currentQuestion] !in shuffledOptions[currentQuestion]) &&
        (outcome == ValueError ==> userAnswers == old(userAnswers)) &&
        (outcome != ValueError ==>
          (outcome == Shown &&
           userAnswers == old(userAnswers)[currentQuestion :=
             RadioValue(shuffledOptions[currentQuestion], pick, old(userAnswers), currentQuestion)]))
      ensures page == old(page) && quizState == old(quizState) && currentQuestion == old(currentQuestion) &&
        questionFeedback == old(questionFeedback) && quizDuration == old(quizDuration) &&
        finalScore == old(finalScore) && quizSource == old(quizSource) && quizDf == old(quizDf) &&
        generating == old(generating) && startTime == old(startTime)
      ensures Consistent()
      ensures old(Valid()) ==> outcome == Shown && Valid()
    {
      if currentQuestion >= |quizDf.value| {
        return IndexError;
      }
      ShuffleOnce(shuffle);
      outcome := RecordAnswer(pick);
    }

    /** The Previous button, shown past the first question. */
    method Previous()
      requires Consistent() && quizState == InProgress && currentQuestion > 0
      modifies this
      ensures currentQuestion == old(currentQuestion) - 1
      ensures page == old(page) && quizState == old(quizState) &&
        userAnswers == old(userAnswers) && shuffledOptions == old(shuffledOptions) &&
        questionFeedback == old(questionFeedback) && quizDuration == old(quizDuration) &&
        finalScore == old(finalScore) && quizSource == old(quizSource) && quizDf == old(quizDf) &&
        generating == old(generating) && startTime == old(startTime)
      ensures Consistent() && (old(Valid()) ==> Valid())
    {
      currentQuestion := currentQuestion - 1;
    }

    /** The Next button, shown before the last question. */
    method Next()
      requires Consistent() && quizState == InProgress && currentQuestion + 1 < |quizDf.value|
      modifies this
      ensures quizDf.Some? && currentQuestion == old(currentQuestion) + 1 && currentQuestion < |quizDf.value|
      ensures page == old(page) && quizState == old(quizState) &&
        userAnswers == old(userAnswers) && shuffledOptions == old(shuffledOptions) &&
        questionFeedback == old(questionFeedback) && quizDuration == old(quizDuration) &&
        finalScore == old(finalScore) && quizSource == old(quizSource) && quizDf == old(quizDf) &&
        generating == old(generating) && startTime == old(startTime)
      ensures Consistent() && (old(Valid()) ==> Valid())
    {
      currentQuestion := currentQuestion + 1;
    }

    /** The Submit button, shown in place of Next on the last question:
        the time since the first display is recorded and the quiz ends. */
    method Submit(now: int)
      requires Consistent() && quizState == InProgress && currentQuestion + 1 >= |quizDf.value|
      modifies this
      ensures quizState == Completed && quizDuration == now - old(startTime)
      ensures page == old(page) && currentQuestion == old(currentQuestion) &&
        userAnswers == old(userAnswers) && shuffledOptions == old(shuffledOptions) &&
        questionFeedback == old(questionFeedback) && finalScore == old(finalScore) &&
        quizSource == old(quizSource) && quizDf == old(quizDf) &&
        generating == old(generating) && startTime == old(startTime)
      ensures Consistent() && (old(Valid()) ==> Valid())
    {
      quizDuration := now - startTime;
      quizState := Completed;
    }

    /** A run of the results page: the score and the feedback table are
        computed from the frame and the answers and stored. */
    method RenderResults()
      requires Consistent() && quizState == Completed
      modifies this
      ensures quizDf.Some? && finalScore == CountCorrect(quizDf.value, userAnswers) && finalScore <= |quizDf.value|
      ensures questionFeedback == FeedbackRows(quizDf.value, userAnswers)
      ensures CountVerdicts(questionFeedback) == finalScore
      ensures page == old(page) && quizState == old(quizState) && currentQuestion == old(currentQuestion) &&
        userAnswers == old(userAnswers) && shuffledOptions == old(shuffledOptions) &&
        quizDuration == old(quizDuration) && quizSource == old(quizSource) && quizDf == old(quizDf) &&
        generating == old(generating) && startTime == old(startTime)
      ensures Consistent() && (old(Valid()) ==> Valid())
    {
      var score, feedback := ScoreQuiz(quizDf.value, userAnswers);
      ScoreAtMostQuestions(quizDf.value, userAnswers);
      ScoreMatchesFeedback(quizDf.value, userAnswers);
      finalScore := score;
      questionFeedback := feedback;
    }

    /** The Take Another Quiz button: the quiz keys are deleted, so the
        next run's initialisation block restores every default. */
    method TakeAnotherQuiz()
      requires quizState == Completed
      modifies this
      ensures Initial() && Valid()
    {
      page, quizState, currentQuestion := "home", NotStarted, 0;
      userAnswers, shuffledOptions, questionFeedback := map[], map[], [];
      quizDuration, finalScore, quizSource, quizDf := 0, 0, None, None;
      generating, startTime := false, 0;
      InitialStateValid();
    }
  }

  /** The initial values form a valid session. */
  lemma InitialStateValid()
    ensures ValidState(NotStarted, None, 0, map[], map[], 0)
  {
  }

  /** Every memoised shuffle belongs to a row of the frame and is a
      permutation of that row's four options. */
  predicate ShufflesFit(df: Option<seq<QuizRow>>, shuffled: map<int, seq<string>>) {
    forall k :: k in shuffled ==>
      df.Some? && 0 <= k < |df.value| && multiset(shuffled[k]) == multiset(Options(df.value[k]))
  }

  /** Every recorded answer is one of the options shown for its question. */
  predicate AnswersFit(answers: map<int, string>, shuffled: map<int, seq<string>>) {
    forall k :: k in answers ==> k in shuffled && answers[k] in shuffled[k]
  }

  predicate ConsistentState(state: QuizState, df: Option<seq<QuizRow>>, shuffled: map<int, seq<string>>) {
    (state != NotStarted ==> df.Some?) &&
    (df.Some? ==> |df.value| > 0) &&
    (state == NotStarted ==> shuffled == map[]) &&
    ShufflesFit(df, shuffled)
  }

  /** A quiz not yet started has no position, answers or start time, the
      position is within the frame, and every answer is one of the options
      of its question. */
  predicate ValidState(state: QuizState, df: Option<seq<QuizRow>>, current: nat,
                       answers: map<int, string>, shuffled: map<int, seq<string>>, startTime: int) {
    ConsistentState(state, df, shuffled) &&
    (state == NotStarted ==> current == 0 && answers == map[] && startTime == 0) &&
    (df.Some? ==> current < |df.value|) &&
    AnswersFit(answers, shuffled)
  }

  /** `shuffled_options` after the display of question `idx`. */
  function Memoise(shuffled: map<int, seq<string>>, idx: int, shuffle: seq<string>): (m: map<int, seq<string>>)
    ensures idx in m && m[idx] == (if idx in shuffled then shuffled[idx] else shuffle)
    ensures forall k :: k != idx ==> (k in m <==> k in shuffled)
    ensures forall k :: k != idx && k in shuffled ==> m[k] == shuffled[k]
  {
    if idx in shuffled then shuffled else shuffled[idx := shuffle]
  }

  /** Memoising a permutation of the current row's options keeps the
      shuffles and the answers fitting. */
  lemma MemoiseFits(df: seq<QuizRow>, answers: map<int, string>, shuffled: map<int, seq<string>>,
                    idx: nat, shuffle: seq<string>)
    requires ShufflesFit(Some(df), shuffled) && idx < |df|
    requires multiset(shuffle) == multiset(Options(df[idx]))
    ensures ShufflesFit(Some(df), Memoise(shuffled, idx, shuffle))
    ensures AnswersFit(answers, shuffled) ==> AnswersFit(answers, Memoise(shuffled, idx, shuffle))
    ensures |Memoise(shuffled, idx, shuffle)[idx]| == 4
  {
    var m := Memoise(shuffled, idx, shuffle);
    forall k | k in m
      ensures 0 <= k < |df| && multiset(m[k]) == multiset(Options(df[k]))
    {
      if k != idx {
        assert m[k] == shuffled[k];
      }
    }
    assert |multiset(m[idx])| == |multiset(Options(df[idx]))|;
  }

  /** Recording one of the shown options keeps the answers fitting. */
  lemma RecordFits(answers: map<int, string>, shuffled: map<int, seq<string>>, idx: int, answer: string)
    requires idx in shuffled && answer in shuffled[idx]
    ensures AnswersFit(answers, shuffled) ==> AnswersFit(answers[idx := answer], shuffled)
  {
  }

  /** The value the radio button reports: the option the user picked, or
      else the stored answer it starts on, or else the first option. */
  function RadioValue(options: seq<string>, pick: Option<nat>, answers: map<int, string>, idx: int): string
    requires |options| > 0 && (pick.Some? ==> pick.value < |options|)
  {
    if pick.Some? then options[pick.value]
    else if idx in answers then answers[idx]
    else options[0]
  }

  lemma LowerIs(s: string, t: string)
    requires |s| == |t| && forall i :: 0 <= i < |s| ==> LowerChar(s[i]) == t[i]
    ensures Lower(s) == t
  {
    LowerMapsEachChar(s);
  }

  /** A capitalised answer typed with spaces around it still scores. */
  lemma PaddedUpperCaseAnswerIsCorrect()
    ensures IsCorrect(CapitalQuiz[0], map[0 := " PARIS "])
  {
    assert StripSpace(" PARIS ") == "PARIS" by {
      assert LStrip(" PARIS ", IsSpace) == LStrip("PARIS ", IsSpace) == "PARIS ";
      assert RStrip("PARIS ", IsSpace) == RStrip("PARIS", IsSpace) == "PARIS";
    }
    assert StripSpace("Paris") == "Paris";
    LowerIs("PARIS", "paris");
    LowerIs("Paris", "paris");
  }

  /** The pages two of the selector entries open. */
  lemma SelectorPages()
    ensures Lower("Document") == "document" && Lower("Q&A CSV") == "q&a csv"
  {
    LowerIs("Document", "document");
    LowerIs("Q&A CSV", "q&a csv");
  }

  /* ---------------------------------------------------------------------
     Switching source in the middle of a quiz
     --------------------------------------------------------------------- */

  const CapitalQuiz: seq<QuizRow> := [QuizRow(0, "Capital of France?", "Paris", "Rome", "Oslo", "Bern", "Paris")]
  const SumQuiz: seq<QuizRow> := [QuizRow(0, "2 + 2?", "3", "4", "5", "6", "4")]

  /** A session in which the first question of `CapitalQuiz` was shown
      from the Q&A CSV page and its first option kept as the answer. */
  method AnsweredCapitalQuiz() returns (s: Session)
    ensures fresh(s) && s.Consistent() && s.quizState == InProgress && s.currentQuestion == 0
    ensures s.quizSource == Some("Q&A CSV") && s.userAnswers == map[0 := "Paris"]
  {
    SelectorPages();
    s := new Session();
    var switched := s.SwitchSourceAsWritten("Q&A CSV");
    s.ShowSourcePage(Some(CapitalQuiz));
    s.StartQuiz();
    var first := s.DisplayQuestion(Options(CapitalQuiz[0]), None);
  }

  /** As written: a user shows the first question of one quiz, switches to
      another source and starts a quiz whose first question does not offer
      the old answer. The progress bar shows 1 of 1, and showing the question
      raises `ValueError`. */
  method StaleAnswerScenario() returns (outcome: Display)
    ensures outcome == ValueError
  {
    SelectorPages();
    var s := AnsweredCapitalQuiz();
    var switched := s.SwitchSourceAsWritten("Document");
    s.ShowSourcePage(Some(SumQuiz));
    s.StartQuiz();
    assert "Paris" !in Options(SumQuiz[0]);
    outcome := s.ShowProgress();
    if outcome == Shown {
      outcome := s.DisplayQuestion(Options(SumQuiz[0]), None);
    }
  }

  /** As written: a user moves to the second of two questions, switches
      source and starts a one-question quiz. The kept position 1 asks the
      progress bar for 2 / 1, which Streamlit rejects, so the page fails
      before `display_question` is reached. */
  method StalePositionScenario() returns (outcome: Display)
    ensures outcome == ProgressError
  {
    SelectorPages();
    var s := new Session();
    var switched := s.SwitchSourceAsWritten("Q&A CSV");
    s.ShowSourcePage(Some(CapitalQuiz + [SumQuiz[0].(rowLabel := 1)]));
    s.StartQuiz();
    s.Next();
    switched := s.SwitchSourceAsWritten("Document");
    s.ShowSourcePage(Some(SumQuiz));
    s.StartQuiz();
    outcome := s.ShowProgress();
  }

  /** With the corrected selector the same steps show the new question. */
  method FreshStartScenario() returns (outcome: Display)
    ensures outcome == Shown
  {
    SelectorPages();
    var s := new Session();
    var switched := s.SwitchSource("Q&A CSV");
    s.ShowSourcePage(Some(CapitalQuiz));
    s.StartQuiz();
    var first := s.DisplayQuestion(Options(CapitalQuiz[0]), None);
    switched := s.SwitchSource("Document");
    s.ShowSourcePage(Some(SumQuiz));
    s.StartQuiz();
    outcome := s.ShowProgress();
    if outcome == Shown {
      outcome := s.DisplayQuestion(Options(SumQuiz[0]), None);
    }
  }
}
