# QuizStation in Dafny

QuizStation is a Streamlit page that runs a multiple-choice quiz. A quiz is
loaded either from a Q&A CSV file or from questions a language model
generates from a document. The page then shows the questions one at a time
with shuffled options, and finally scores the answers. This project models
the three parts of it that hold logic and proves what they promise:

- `csv_to_quiz.dfy` (module `CsvToQuiz`): `load_quiz_from_csv` after
  `pd.read_csv`. It trims the header names, checks the six required columns,
  rewrites every substring `none` or `NONE` in the five answer columns to
  `None of these`, and wraps every failure as `Error loading CSV: ...`. The
  column loop stays a `method` with a loop invariant. The rewrite of one cell
  is a function, proved to remove both patterns, to leave other spellings
  alone and to be idempotent.
- `doc_to_quiz.dfy` (module `DocToQuiz`): `clean_question` and the tolerant
  line parser of `generate_quiz_from_doc`. The generator's answer is an
  optional string. The loop over the lines is a `method` proved against the
  specification functions `AcceptedRows` and `Warnings`.
- `app.dfy` (module `App`): the session of `app.py` as a class `Session`
  whose fields are the `st.session_state` keys. Each step of a rerun is one
  method call: the sidebar selector (at the top of every rerun), a source
  page, the timer, the progress bar, the question display, one of the
  Start, Previous, Next, Submit and Take Another Quiz buttons, or the
  results page. An in-progress rerun is thus the timer, the progress bar,
  the display and possibly a button, in that order. The scoring loop is a
  `method` proved against the recursive functions `CountCorrect` and
  `FeedbackRows`.
- `quiz.dfy` (module `Quiz`) holds the shared question table. A pandas frame
  is a sequence of `QuizRow` records, and each record carries its index
  label (`rowLabel`) next to its cells. The label is kept because the scorer
  looks answers up by label while the display stores them by position.
- `text.dfy` (module `Text`) holds the Python string operations the core
  uses: `str.strip`, `str.lower` on ASCII, `str.split` and the literal
  leftmost replacement that `re.sub` and `Series.replace` perform for these
  patterns.

Two predicates describe the session. `Consistent` says that a started quiz
has a non-empty frame and that every memoised shuffle is a permutation of
its row's four options. `Valid` adds three facts: a quiz not yet started
keeps no position, answers or start time; the position lies within the
frame; and every recorded answer is one of the options shown for its
question. Every event keeps `Consistent`. Every event keeps `Valid` too,
except the source switch as written (see Findings).

Inputs from outside the program are parameters:

- the table `pd.read_csv` produced, or its exception message;
- the text the generator returned;
- the permutation `random.shuffle` chose;
- the option the user picked on the radio button;
- the clock in whole seconds.

## Model

| member | source | states |
|---|---|---|
| Text.LStripRemovesPrefix | utils/csv_to_quiz.py:10 | the leading side of `strip` removes exactly the longest run of stripped characters, and what remains is a suffix of the input |
| Text.RStripRemovesSuffix | utils/csv_to_quiz.py:10 | the trailing side of `strip` removes exactly the longest run of stripped characters, and what remains is a prefix of the input |
| Text.StripIsTrimmed | utils/doc_to_quiz.py:46 | `strip` returns a slice of its input that neither starts nor ends with a stripped character |
| Text.LowerMapsEachChar | app.py:136-137 | `lower` keeps the length and lower-cases each ASCII letter in place |
| Text.Find | utils/doc_to_quiz.py:45 | the separator search returns the leftmost occurrence, or -1 exactly when there is none |
| Text.Split | utils/doc_to_quiz.py:45 | `split` returns at least one piece; joining the pieces with the separator gives back the input; no piece contains the separator; every cut is at the leftmost occurrence of the separator after the previous cut, which matters for a separator that can overlap itself |
| Text.SplitUnique | utils/doc_to_quiz.py:45 | any list of pieces with those four properties is the result of `split`, so the properties define it |
| Text.ReplaceAll | utils/csv_to_quiz.py:20 | a replacement no longer than the pattern never lengthens the text, and one no shorter never shortens it |
| Text.ReplaceAllIsJoinOfSplit | utils/csv_to_quiz.py:20 | the literal replacement equals `r.join(s.split(p))`: each leftmost, non-overlapping occurrence becomes the replacement and the text between occurrences is kept as it is |
| Text.ReplaceAllFree | utils/csv_to_quiz.py:20 | a replacement leaves text without the pattern unchanged |
| Text.ReplaceAllKeepsFree | utils/csv_to_quiz.py:20 | after a replacement no occurrence of the pattern is left, and a pattern absent before stays absent, provided the replacement can neither contain nor complete it |
| CsvToQuiz.ReplacementCannotFormPatterns | utils/csv_to_quiz.py:20 | `None of these` holds no start of `none` or `NONE`, and cannot complete a partial match across its boundaries |
| CsvToQuiz.TrimColumns | utils/csv_to_quiz.py:10 | the header keeps its length, and each name is the old name stripped of white space, so no name starts or ends with white space |
| CsvToQuiz.RewriteNone | utils/csv_to_quiz.py:18-20 | the rewrite of a cell is two passes, `none` then `NONE`, each replacing every occurrence by `None of these` and keeping the rest of the cell (a join of the split); afterwards the cell contains neither pattern |
| CsvToQuiz.RewriteNoneKeepsOtherText | utils/csv_to_quiz.py:18-20 | a cell containing neither pattern is left exactly as it is |
| CsvToQuiz.RewriteNoneIdempotent | utils/csv_to_quiz.py:18-20 | rewriting twice equals rewriting once |
| CsvToQuiz.ReplacementIsStable | utils/csv_to_quiz.py:20 | both passes leave `None of these` unchanged |
| CsvToQuiz.RewriteNoneOfLowerWord | utils/csv_to_quiz.py:20 | the cell `none` becomes `None of these` |
| CsvToQuiz.RewriteNoneOfUpperWord | utils/csv_to_quiz.py:20 | the cell `NONE` becomes `None of these` |
| CsvToQuiz.RewriteNoneInsideCell | utils/csv_to_quiz.py:20 | an occurrence inside a longer cell is replaced in place: `xnone` becomes `xNone of these` |
| CsvToQuiz.RewriteNoneOfMixedCase | utils/csv_to_quiz.py:20 | `None` and `NoNe` are not matched and stay as they are |
| CsvToQuiz.RewriteRows | utils/csv_to_quiz.py:18-20 | the rows keep their count and lengths; a cell of a rewritten column gets the `none` rewrite and every other cell is kept |
| CsvToQuiz.RewriteRowsStep | utils/csv_to_quiz.py:19-20 | one more pass of the column loop extends the set of rewritten columns by that column |
| CsvToQuiz.LoadQuizFromCsv | utils/csv_to_quiz.py:4-24 | loading fails exactly when reading failed or a required column is missing after trimming; a read error comes back as `Error loading CSV: ` plus its message, and a missing column as `Error loading CSV: The uploaded CSV is missing required columns.`; on success the header is trimmed and exactly the five answer columns are rewritten |
| CsvToQuiz.LoadedRowsShape | utils/csv_to_quiz.py:18-22 | the loaded rows keep count and order; no answer cell holds either pattern; the `question` column and extra columns are untouched |
| CsvToQuiz.RewriteRowsIdempotent | utils/csv_to_quiz.py:18-20 | loading an already loaded table again changes no cell |
| CsvToQuiz.PaddedHeaderAccepted | utils/csv_to_quiz.py:10-14 | the header name ` question ` trims to `question` and so meets the column check |
| Quiz.IndexOf | app.py:63 | `index` gives the first position holding the value; a column is looked up by name the same way |
| Quiz.FromTable | utils/csv_page.py:39-41 | the frame read from a table has one row per table row, in order, labelled by position, its question, four options and correct answer taken from the columns of those names |
| DocToQuiz.Run | utils/doc_to_quiz.py:14 | the leading run of characters of one class is measured exactly: it is all of that class and the next character is not |
| DocToQuiz.OrdinalPrefixLongest | utils/doc_to_quiz.py:14 | no prefix extending past the first non-space after the digits and optional mark matches `\d+[.)]?\s*` |
| DocToQuiz.OrdinalPrefixMaximal | utils/doc_to_quiz.py:14 | every prefix longer than the greedy match fails to match the ordinal pattern |
| DocToQuiz.OrdinalPrefixLength | utils/doc_to_quiz.py:14 | nothing is removed exactly when the text does not start with a digit; otherwise the removed prefix matches `\d+[.)]?\s*` and no longer prefix does |
| DocToQuiz.CleanQuestion | utils/doc_to_quiz.py:11-15 | the result is a suffix of the quote-stripped text; it is that whole text exactly when the text does not start with a digit; otherwise exactly the longest ordinal prefix is dropped |
| DocToQuiz.Fields | utils/doc_to_quiz.py:46 | a line gives one field per piece of its split on `","`, each piece stripped of white space and then of double quotes, so no field starts or ends with a double quote |
| DocToQuiz.AcceptRow | utils/doc_to_quiz.py:47-49 | a kept line keeps its six fields, with only the first one passed through `clean_question` |
| DocToQuiz.Kept | utils/doc_to_quiz.py:47-49 | a line adds one row exactly when it has six fields, and that row is its fields with the first one cleaned |
| DocToQuiz.Warned | utils/doc_to_quiz.py:47-51 | a line is warned about exactly when it does not have six fields, with one warning at most |
| DocToQuiz.CollectConcat | utils/doc_to_quiz.py:45-51 | the loop's output over two blocks of lines is the output of the first block followed by that of the second |
| DocToQuiz.CollectKeptShape | utils/doc_to_quiz.py:47-49 | the loop keeps at most one row per line, each with six fields |
| DocToQuiz.EveryLineKeptOrWarned | utils/doc_to_quiz.py:45-51 | kept rows plus warnings equal the number of lines |
| DocToQuiz.ParseConcatenation | utils/doc_to_quiz.py:45-51 | rows and warnings keep line order: parsing two blocks one after the other concatenates their results |
| DocToQuiz.OneLine | utils/doc_to_quiz.py:45-51 | a single line is kept, cleaned, exactly when it has six fields, and warned about exactly when it has not |
| DocToQuiz.ParseLine | utils/doc_to_quiz.py:46-51 | one pass of the loop body adds what `Kept` and `Warned` say |
| DocToQuiz.ParseLines | utils/doc_to_quiz.py:44-51 | the loop builds the accepted rows and the warnings of all lines, in line order |
| DocToQuiz.ToQuizRows | utils/doc_to_quiz.py:57 | the frame built from the kept rows has one row per kept line, in order, labelled by position, with the six fields as its cells |
| DocToQuiz.DropHeaderEcho | utils/doc_to_quiz.py:59 | the filtered frame holds exactly the rows whose question is not `question` |
| DocToQuiz.DropHeaderEchoConcat | utils/doc_to_quiz.py:59 | the filter keeps row order: filtering two blocks of rows one after the other concatenates their results |
| DocToQuiz.DropHeaderEchoOne | utils/doc_to_quiz.py:59 | a single row is dropped exactly when its question is `question`, and otherwise kept unchanged |
| DocToQuiz.DropHeaderEchoLabels | utils/doc_to_quiz.py:59 | each row that survives the header filter keeps its label, which is at least its new position |
| DocToQuiz.DropHeaderEchoEmpty | utils/doc_to_quiz.py:53-59 | the filter empties the frame exactly when every row is a header echo, so a header-only answer gives an empty frame after the emptiness check has passed |
| DocToQuiz.FrameAsWritten | utils/doc_to_quiz.py:57-59 | the frame as returned holds no header echo, and its row at position `j` is labelled `j` or more |
| DocToQuiz.ResetIndex | utils/doc_to_quiz.py:59 | relabelling keeps every row in place and labels it by its position |
| DocToQuiz.GenerateQuizFromDoc | utils/doc_to_quiz.py:30-60 | a missing or empty answer gives the empty table and one error; otherwise the warnings are those of the parser, the "no valid quiz questions" error is raised exactly when no line was kept, and the frame is the kept rows without header echoes, each keeping the label it had before the filter |
| DocToQuiz.GenerateQuizRelabelled | utils/doc_to_quiz.py:57-59 | the same errors and warnings as the generator, and the frame is the generator's frame relabelled by position |
| App.Normalize | app.py:136-137 | a normalised cell is no longer than the cell, holds no capital letter and neither starts nor ends with white space |
| App.NormalizeIdempotent | app.py:136-137 | normalising twice gives the same as normalising once |
| App.IsCorrect | app.py:136-138 | the exact correct answer always counts as correct, and an unanswered question counts as correct exactly when its correct answer is blank |
| App.ScoreRow | app.py:136-146 | one pass of the scoring loop gives a point exactly when the row is answered correctly, and the row's feedback entry |
| App.ScoreQuiz | app.py:132-149 | the loop's score is the number of rows answered correctly, and its feedback table is the per-row table in frame order |
| App.CountCorrectSnoc | app.py:140 | scoring one more row adds one point exactly when that row is correct |
| App.FeedbackRowsAt | app.py:135-146 | the feedback table has one entry per row, in order; entry `i` holds row `i`'s question and the answer stored under its label, and it is "Correct" exactly when the stripped, lower-cased answer equals the stripped, lower-cased correct answer |
| App.ScoreAtMostQuestions | app.py:132-149 | the score never exceeds the number of questions |
| App.FullScoreIff | app.py:135-140 | full marks exactly when every row is answered correctly |
| App.ScoreMatchesFeedback | app.py:140-149 | the score equals the number of "Correct" entries in the feedback table |
| App.FullMarksWhenEveryPositionAnswered | app.py:135-137 | with rows labelled by position, answering every displayed question correctly gives full marks |
| App.CsvQuizFullMarks | utils/csv_page.py:39-41 | a CSV quiz is scored as it is displayed: every shown question answered correctly gives full marks |
| App.HeaderEchoShiftsScoring | utils/doc_to_quiz.py:59 | with a header echo dropped and the labels kept, the one question answered correctly scores 0, while the relabelled frame scores 1 |
| App.SplitDuration | app.py:155-156 | the minutes and seconds shown satisfy `mins * 60 + secs == d` and `0 <= secs < 60` |
| App.Session.constructor | app.py:17-31 | the first run stores every default, and the defaults form a valid session |
| App.InitialStateValid | app.py:17-31 | the default values form a valid session |
| App.Session.SwitchSourceAsWritten | app.py:39-45 | a new selection sets the page to the lower-cased entry, clears the frame and the shuffles, and returns to not started; the position, the answers and the start time are kept; the same selection changes nothing |
| App.Session.SwitchSource | app.py:39-45 | as above, and in addition the position, the answers and the start time are cleared, so the session is valid after every switch |
| App.Session.ShowSourcePage | app.py:91-100 | on a source page before the start, a non-empty loaded frame becomes the quiz and the shuffles are cleared; elsewhere nothing changes |
| App.Session.StartQuiz | utils/csv_page.py:44-46 | Start Quiz moves a loaded quiz to in progress and changes nothing else |
| App.Session.TickTimer | app.py:102-104 | the start time is set only while it is 0 |
| App.Memoise | app.py:52-57 | the shuffle of question `idx` is stored only when absent; a stored shuffle and every other entry are kept unchanged |
| App.MemoiseFits | app.py:52-57 | memoising a permutation of the current row's options keeps every shuffle a permutation of its row's four options, and every answer among its options |
| App.Session.ShuffleOnce | app.py:52-57 | the display shuffles the current question once, reusing a stored shuffle; nothing else changes |
| App.RecordFits | app.py:61-65 | recording one of the shown options keeps every answer among its question's options |
| App.Session.RecordAnswer | app.py:57-65 | the display raises `ValueError` exactly when the stored answer is not among the options; otherwise only the current question's answer changes, to the picked option, else the stored answer, else the first option |
| App.Session.ShowProgress | app.py:108-110 | the progress bar's fraction `(current_q + 1) / total_q` lies in [0.0, 1.0], so Streamlit accepts it, exactly when the position is within the frame; in a valid session it always does |
| App.Session.DisplayQuestion | app.py:48-65 | a position past the frame raises `IndexError` and changes nothing; otherwise the options are shuffled once and the answer recorded; in a valid session neither error occurs |
| App.Session.Previous | app.py:116-117 | Previous, offered past the first question, moves back by one and leaves the answers and shuffles alone |
| App.Session.Next | app.py:119-120 | Next, offered before the last question, moves on by one, stays within the frame and leaves the answers and shuffles alone |
| App.Session.Submit | app.py:121-125 | Submit, offered on the last question, stores the time since the start and completes the quiz |
| App.Session.RenderResults | app.py:132-149 | the results page stores the number of correct rows as the score, at most the number of questions, and the per-row feedback table, whose "Correct" entries number exactly the score |
| App.Session.TakeAnotherQuiz | app.py:176-185 | Take Another Quiz brings every field back to its initial value, so the session is valid again |
| App.PaddedUpperCaseAnswerIsCorrect | app.py:136-138 | the answer ` PARIS ` to a question whose correct answer is `Paris` counts as correct |
| App.SelectorPages | app.py:41 | the entries `Document` and `Q&A CSV` open the pages `document` and `q&a csv` |
| App.AnsweredCapitalQuiz | app.py:39-65 | showing the first question of a quiz from the Q&A CSV page records its first option as the answer |
| App.StaleAnswerScenario | app.py:39-45 | as written, answering a quiz, switching source and starting a quiz whose first question lacks the old answer makes the display raise `ValueError` |
| App.StalePositionScenario | app.py:39-45 | as written, moving to question 2, switching source and starting a one-question quiz makes the page fail at the progress bar (app.py:110), which is asked for 2 / 1, before `display_question` runs |
| App.FreshStartScenario | app.py:39-45 | with the corrected selector the same steps show the new question |

## Left out

- Streamlit rendering and widget mechanics are not modelled: titles, markdown, the drawing of the progress bar (only its range check is modelled), metrics, balloons, the styled feedback table and `color_feedback`. Rerun and `on_click` timing is not modelled either; each button press is one method call.
- The radio button's own widget state (key `q{idx}`) is not modelled. Its value is the `pick` parameter, or else the index the page passes.
- The upload pages `utils/csv_page.py` and `utils/document_page.py` are reduced to their guard. A non-empty frame is installed and Start Quiz is offered (`Session.ShowSourcePage`, `Session.StartQuiz`). Their error messages are left out.
- The topic page (`utils/topic_page.py`) is not part of this model; its loaded frame is the `loaded` parameter of `Session.ShowSourcePage`.
- The Gemini client, the prompt and the `number_input` widget are foreign calls or UI. The generator's answer is the `response` parameter of `DocToQuiz.GenerateQuizFromDoc`. An answer without a `text` attribute is treated like the empty answer.
- PDF text extraction with pymupdf is third-party I/O.
- CSV tokenisation by `pd.read_csv` is a library call. Its header and rows, or its error message, are the input of `CsvToQuiz.LoadQuizFromCsv`.
- Non-string cells are not modelled: NaN for an empty cell, numbers that `read_csv` infers, and `str(x)` of them in the scorer. Every cell is a string.
- Duplicate column names (pandas would return a frame for `df[col]`) are not modelled. A cell read by name comes from the first column of that name; the rewrite applies to every column of the name.
- `random.shuffle` is an arbitrary permutation supplied by the caller.
- `time.time()` returns a float; the clock here is whole seconds, and `SplitDuration` states the shown minutes and seconds for whole seconds.
- `str.strip`, `str.lower` and `\d`/`\s` are modelled on ASCII. Python's full Unicode whitespace, case mapping and digit classes are left out.
- The `generating` flag is only ever set by the document page, so no modelled event changes it.
- Text.ReplaceAll: its own ensures gives only the length bounds; the full result, `r.join(s.split(p))`, is stated by the lemma `Text.ReplaceAllIsJoinOfSplit`, because putting it on the function would make the function's body depend on a lemma about itself.
- App.Session.SwitchSourceAsWritten: the ensures does not claim `Valid` afterwards, because the kept position, answers and start time break it (see Findings).

## Findings

| source | as written | input that shows it | evidently intended | confidence | as-written member | corrected member |
|---|---|---|---|---|---|---|
| utils/doc_to_quiz.py:59 | the header echo is filtered out without resetting the index, so the remaining rows keep labels 1, 2, …; the display stores answers by position (app.py:61), but the scorer looks them up by label (app.py:135-137) | a generator answer whose first line is the header `"question","option1",…` and whose second line is one question, answered correctly: score 0 of 1 | relabel the filtered frame by position (`reset_index(drop=True)`), so every displayed question is scored | not executed | DocToQuiz.GenerateQuizFromDoc, DocToQuiz.FrameAsWritten, App.HeaderEchoShiftsScoring | DocToQuiz.GenerateQuizRelabelled, App.FullMarksWhenEveryPositionAnswered |
| app.py:39-45 | switching source resets the frame, the state and the shuffles, but keeps `current_question`, `user_answers` and `start_time` from the quiz that was left, which the next progress bar (app.py:108-110), display (app.py:61-63) and timer (app.py:103-104) read | answer question 1 of a quiz with `Paris`, switch to another source and start a quiz whose first question lacks `Paris`: `options.index` raises `ValueError`; or move to question 2, switch and start a one-question quiz: `st.progress` is asked for 2 / 1 at app.py:110 and raises `StreamlitAPIException` before `display_question` runs | clear the position, the answers and the start time on a switch, as Take Another Quiz does | not executed | App.Session.SwitchSourceAsWritten, App.StaleAnswerScenario, App.StalePositionScenario | App.Session.SwitchSource, App.FreshStartScenario |
