# Exam simulator session model

A Dafny model of the exam-session logic of a single-page exam-practice app,
written as a Streamlit script. On every user action the script reruns from
top to bottom and updates a small session record:
- the loaded exam (a list of questions);
- the current question index;
- the recorded answers, keyed by question index;
- whether the calculator is shown;
- the calculator's input buffer.

This model takes out the rendering and keeps the record and its transitions:
- Start Exam;
- typing a numeric answer;
- picking a multiple-choice option;
- Previous;
- Next/Finish, including the Finish score;
- the calculator keys;
- the countdown display.

Each transition is a pure function from the old record to the new one.

Files and modules:
- `base.dfy` (`Base`): `Option`.
- `text.dfy` (`Text`): the Python string behaviour the script relies on. This covers
  `str.strip()` with Python's whitespace set, plus decimal digits and the `02d` format.
- `questions.dfy` (`Questions`): a question, how its options are shown, and what picking one stores.
- `calculator.dfy` (`Calculator`): the keypad and the buffer.
- `timer.dfy` (`Timer`): the countdown reading and its `MM:SS` text.
- `session.dfy` (`Session`): the session record, its invariant, the transitions and scoring.
- `actions.dfy` (`Actions`): whole sequences of user actions, starting from the initial record.

Modelling decisions:
- "No exam loaded" is an empty exam. The script stops after the sidebar whenever the
  loaded exam is falsy (`app.py:45-46`), so `None` and an empty list behave the same.
  Every transition below that point leaves the record unchanged when no exam is loaded.
  Without that guard, Next would move the index even though no exam is loaded.
- The sidebar's Calculator button comes before that stop, so it works with no exam loaded.
  The keypad only exists while an exam is loaded and the calculator is shown.
- The correct value of a question is modelled as its `str(...)` form.
- Elapsed time is a whole number of seconds, passed in as a parameter.
- The "=" key calls Python's `eval`, which is outside the model. It enters as a
  parameter `eval: string -> Option<string>`, where `None` stands for an evaluation that raised.

Behaviour worth knowing:
- Finish is not a terminal state. It shows the score and leaves the record unchanged,
  so navigation continues (`Session.FinishIsNotTerminal`).
- Start Exam neither hides the calculator nor clears its buffer.
- The countdown is not clamped at zero. After three hours the minutes go negative.
- "=" hands the buffer to Python's `eval`. There is no arithmetic evaluator of the app's own.

## Model

| member | source | states |
|---|---|---|
| Text.LStrip | app.py:123 | the left half of `strip()`: the result is a suffix of the input; everything cut off is whitespace; the result does not start with whitespace |
| Text.RStrip | app.py:123 | the right half of `strip()`: the result is a prefix of the input; everything cut off is whitespace; the result does not end with whitespace |
| Text.Strip | app.py:123 | `strip()` never lengthens a string, and its result has no surrounding whitespace |
| Text.StripShape | app.py:123 | every string is its stripped form with a whitespace prefix before it and a whitespace suffix after it |
| Text.StripCharacterized | app.py:123 | independent definition: for any string without surrounding whitespace, put between any two whitespace runs, `strip()` returns exactly that string |
| Text.StripIgnoresPadding | app.py:123 | adding whitespace around any string never changes what `strip()` returns |
| Text.StripIdempotent | app.py:123 | stripping twice equals stripping once |
| Text.StripFixpoint | app.py:123 | a string is unchanged by `strip()` if and only if it has no surrounding whitespace |
| Text.Digits | app.py:56 | the decimal form of a number is non-empty and all digits; it has one digit if and only if the number is below 10; it has no leading zero |
| Text.DigitsRoundTrip | app.py:56 | reading the decimal form back gives the number |
| Text.Format02 | app.py:56 | the `02d` form has at least two characters; read back, it gives the number (for a negative number, after its leading "-"); it is exactly two digits if and only if the number is in 0..99; it has no zero beyond the padding to two characters (no leading zero from 10 on, none after the "-" of a negative number) |
| Questions.RenderOption | app.py:85 | the radio text of an option is its label, then ". ", then its text |
| Questions.PickFromChoices | app.py:85-90 | picking entry `k` of the radio list, when its label is one character long, stores exactly that label, and the pick is judged correct if and only if that label is the correct one |
| Questions.StoredLabel | app.py:89 | picking stores a one-character string: the choice's first character |
| Questions.StoredLabelOfOption | app.py:85-89 | picking an option stores its label if and only if the label is one character long; an empty label stores "." |
| Questions.VerdictOfOption | app.py:85-90 | for a one-character label, the pick is judged correct if and only if the label is the correct label |
| Calculator.PressKey | app.py:102-109 | "C" empties the buffer; "=" replaces it with the evaluation's result, or "Error" if evaluation raised; every other key appends exactly its own text and keeps what was there |
| Calculator.DisplayAfterKeys | app.py:105-111 | the result field shows "0" right after "C"; after "C" and a non-empty run of digit, point and operator keys, it shows exactly those keys' texts joined together |
| Calculator.TypingAppends | app.py:109 | a run of digit, point and operator keys extends the buffer by exactly their texts joined together |
| Calculator.ClearForgets | app.py:105 | what the buffer holds after a "C" depends only on the keys pressed after it |
| Timer.Countdown | app.py:53-55 | with `e` seconds elapsed: `mins*60 + secs == 10800 - e` and `0 <= secs < 60`; while `0 <= e <= 10800`, `0 <= mins <= 180`; after that, `mins` is negative |
| Timer.CountdownUnique | app.py:54-55 | any minutes/seconds pair with seconds in 0..59 that adds up to the remaining time is the countdown's reading |
| Timer.TimeLeftRoundTrip | app.py:54-56 | while time remains, parsing the "Time Left" text gives back exactly the countdown's minutes and seconds |
| Timer.TimeLeftEnds | app.py:54-56 | the text reads "180:00" at the start and "00:00" when time is up |
| Session.InitValid | app.py:11-16 | the initial record has no exam loaded and satisfies the session invariant |
| Session.StartExam | app.py:32-36 | Start Exam installs the chosen exam, sets the index to 0 and empties the answers, whatever the earlier record was; the calculator is untouched; the invariant holds afterwards |
| Session.StartForgetsHistory | app.py:33-35 | any two records that start the same exam agree on everything except the calculator fields |
| Session.OpenCalculator | app.py:42-43 | the Calculator button shows the keypad, changes nothing else, and keeps the invariant |
| Session.EnterNumeric | app.py:61-66 | on a numeric question, a non-empty text is written as the current question's answer, replacing any earlier one; no other answer changes; an empty text, a multiple-choice question or no loaded exam leaves the record unchanged; the invariant is kept |
| Session.PickChoice | app.py:81-89 | on a multiple-choice question, a selection writes its first character as the current question's answer; no other answer changes; no selection, a numeric question or no loaded exam leaves the record unchanged; the invariant is kept |
| Session.PressKey | app.py:98-110 | a calculator key changes only the buffer, as `Calculator.PressKey` says, and only while an exam is loaded and the keypad is shown |
| Session.Previous | app.py:116-117 | Previous moves the index back by exactly one if it is above 0; at 0, or with no exam loaded, nothing changes; nothing but the index ever changes; the invariant is kept |
| Session.Next | app.py:120-127 | before the last question, Next moves the index on by one; on the last question it leaves the record unchanged and shows the number of matching answers; with no exam loaded it does nothing; the invariant is kept |
| Session.MatchedKeys | app.py:122-123 | the answered questions that count are exactly those whose stripped answer equals their stripped correct value |
| Session.Score | app.py:122-125 | the score is at most the number of answers, which is at most the number of questions; it equals the number of answers if and only if every answer matches |
| Session.Finish | app.py:122-123 | the script's pass over the recorded answers, counting matches, gives the same score |
| Session.NextThenPrevious | app.py:116-127 | short of the last question, Next followed by Previous restores the record |
| Session.PreviousThenNext | app.py:116-127 | past the first question, Previous followed by Next restores the record and shows no score |
| Session.NextTimesStops | app.py:120-127 | `k` presses of Next reach question `min(idx + k, last)` and change nothing else |
| Session.PreviousTimesStops | app.py:116-117 | `k` presses of Previous reach question `max(idx - k, 0)` and change nothing else |
| Session.FinishIsNotTerminal | app.py:120-125 | Finish leaves the record unchanged; pressing it again shows the same score; Previous still moves back |
| Session.ScoreAfterWrite | app.py:122-123 | writing an answer for the current question changes the score only through that question: its old contribution is replaced by whether the new answer matches |
| Session.PaddingDoesNotChangeScore | app.py:122-123 | whitespace typed around a numeric answer never changes the score |
| Session.VerdictAgreesWithScore | app.py:88-90 | a pick judged correct always counts towards the score; the converse holds when the correct label has no surrounding whitespace and the picked character is not whitespace |
| Session.PerfectScore | app.py:122-125 | answering every question with its correct value, up to surrounding whitespace, gives full marks |
| Actions.Apply | app.py:28-127 | every user action keeps the invariant; with no exam loaded, only the two sidebar buttons have any effect |
| Actions.RunKeepsInvariant | app.py:11-127 | after any sequence of actions from the start: the index lies within the loaded exam (0 if none), every answer belongs to one of its questions, and the score is at most the number of questions |
| Actions.NothingHappensUnloaded | app.py:45-46 | with no exam loaded, any sequence of actions other than the sidebar buttons leaves the record unchanged |

## Left out

- File handling is not modelled: creating the data folder, listing the `.json` files and
  loading a bank with `json.load` (app.py:7-8, 19-23, 30-40). These are file I/O and a
  foreign JSON parser. Start Exam receives the already-loaded question list.
- A bank whose JSON is not a list of well-formed questions is not modelled. In the script,
  a missing field raises a key error at render time.
- All rendering is not modelled: page setup, titles, question text, success and error
  messages, balloons, expanders, columns and the scratch-work text area. This is UI only.
- The widgets' default values and per-question keys (app.py:62-64, 84-87) are not modelled.
  The values the widgets return come in as transition inputs.
- The numeric correctness check (app.py:67-74) is not modelled. It strips commas, parses
  floats and compares with a tolerance of 10, which is floating-point arithmetic.
- Python's `eval` behind the "=" key (app.py:107) is an uninterpreted parameter. Arbitrary
  code evaluation cannot be modelled.
- `time.time()`, the start timestamp and fractional elapsed times (app.py:36, 52-53) are not
  modelled. The countdown takes whole elapsed seconds as input.
- `st.rerun()` and `st.stop()` are not modelled as such. A rerun that does several things is
  modelled as several actions in the script's order: a sidebar button first, then the
  answer, then a keypad or navigation button. Start Exam reruns before the answer widget is
  reached, so its rerun records no answer.
- A multiple-choice question whose correct value is not one of its option labels is not
  modelled. On a wrong pick, app.py:93 looks the correct value up among the options. That
  lookup raises a key error after line 89 has already stored the pick. The rerun then stops
  before the keypad and Previous/Next (app.py:98-128) are drawn, and this repeats while the
  pick stays selected. The model assumes banks whose correct label is always offered. It
  keeps applying calculator and navigation actions after such a pick.
- Questions.ChoiceIsCorrect compares the picked character with the correct value's string
  form. When the bank stores a non-string correct value for a multiple-choice question,
  the script's raw comparison is always false, so every pick is wrong and ends in the key error
  described above. The model does not reproduce that case.
