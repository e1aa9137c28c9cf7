/**
 * The exam session: the record the script keeps across reruns and the
 * transitions its buttons and widgets apply to it. Each transition is the
 * effect of one user action on the record, with rendering left out.
 *
 * An empty exam stands for "no exam loaded": the script stops right after
 * the sidebar whenever the loaded exam is falsy, so `None` and an empty
 * question list behave the same, and every transition below the sidebar
 * leaves the record alone in that case.
 */
module Session {
  import opened Base
  import opened Text
  import opened Questions
  import Calculator

  datatype Session = Session(
    exam: seq<Question>,
    idx: nat,
    answers: map<nat, string>,
    showCalc: bool,
    calcBuffer: string)

  /** The record before any exam is loaded. */
  const Init: Session := Session([], 0, map[], false, "")

  predicate Loaded(s: Session) {
    |s.exam| > 0
  }

  /** While an exam is loaded the current index names one of its questions. */
  predicate IndexInRange(s: Session) {
    Loaded(s) ==> s.idx < |s.exam|
  }

  /** Every recorded answer belongs to a question of the exam. */
  predicate KeysInRange(s: Session) {
    forall i :: i in s.answers ==> i < |s.exam|
  }

  /** The session invariant. */
  predicate Valid(s: Session) {
    && IndexInRange(s)
    && KeysInRange(s)
    && (!Loaded(s) ==> s.idx == 0)
  }

  function Current(s: Session): Question
    requires Loaded(s) && IndexInRange(s)
  {
    s.exam[s.idx]
  }

  /** `r` differs from `s` only in that the current question's answer is now `v`. */
  predicate AnswerWritten(s: Session, r: Session, v: string) {
    && r.exam == s.exam && r.idx == s.idx && r.showCalc == s.showCalc && r.calcBuffer == s.calcBuffer
    && r.answers.Keys == s.answers.Keys + {s.idx}
    && s.idx in r.answers && r.answers[s.idx] == v
    && forall i :: i in s.answers && i != s.idx ==> r.answers[i] == s.answers[i]
  }

  lemma InitValid()
    ensures Valid(Init) && !Loaded(Init)
  {
  }

  /**
   * "Start Exam": the chosen bank replaces the exam, the index returns to
   * the first question and all answers are forgotten, whatever came before.
   * The calculator's visibility and buffer are kept.
   */
  function StartExam(s: Session, exam: seq<Question>): (r: Session)
    ensures r.exam == exam && r.idx == 0 && r.answers == map[]
    ensures r.showCalc == s.showCalc && r.calcBuffer == s.calcBuffer
    ensures Valid(r)
  {
    s.(exam := exam, idx := 0, answers := map[])
  }

  /** Two sessions that start the same exam agree on everything the exam owns. */
  lemma StartForgetsHistory(s: Session, t: Session, exam: seq<Question>)
    ensures StartExam(s, exam).(showCalc := t.showCalc, calcBuffer := t.calcBuffer) == StartExam(t, exam)
  {
  }

  /** The sidebar's "Calculator" button: shows the keypad, loaded exam or not. */
  function OpenCalculator(s: Session): (r: Session)
    ensures r.showCalc
    ensures r.(showCalc := s.showCalc) == s
    ensures Valid(s) ==> Valid(r)
  {
    s.(showCalc := true)
  }

  /**
   * The numeric answer box holding `text`: a non-empty text is stored as the
   * current question's answer, overwriting any earlier one; an empty box
   * stores nothing. Only a numeric question shows this box.
   */
  function EnterNumeric(s: Session, text: string): (r: Session)
    requires IndexInRange(s)
    ensures Loaded(s) && IsNumeric(Current(s)) && text != [] ==> AnswerWritten(s, r, text)
    ensures !Loaded(s) || !IsNumeric(Current(s)) || text == [] ==> r == s
    ensures Valid(s) ==> Valid(r)
  {
    if Loaded(s) && IsNumeric(Current(s)) && text != "" then
      s.(answers := s.answers[s.idx := text])
    else
      s
  }

  /**
   * The radio group of a multiple-choice question with `choice` selected
   * (`None` when nothing is selected yet): a selection stores its first
   * character as the current question's answer.
   */
  function PickChoice(s: Session, choice: Option<string>): (r: Session)
    requires IndexInRange(s)
    ensures Loaded(s) && !IsNumeric(Current(s)) && choice.Some? && choice.value != [] ==>
              AnswerWritten(s, r, [choice.value[0]])
    ensures !Loaded(s) || IsNumeric(Current(s)) || choice == None || choice == Some([]) ==> r == s
    ensures Valid(s) ==> Valid(r)
  {
    if Loaded(s) && !IsNumeric(Current(s)) && choice.Some? && choice.value != "" then
      s.(answers := s.answers[s.idx := StoredLabel(choice.value)])
    else
      s
  }

  /** A calculator key; it only exists on screen while an exam is loaded and the keypad is shown. */
  function PressKey(s: Session, key: string, eval: string -> Option<string>): (r: Session)
    requires key in Calculator.Keypad
    ensures Loaded(s) && s.showCalc ==> r == s.(calcBuffer := Calculator.PressKey(s.calcBuffer, key, eval))
    ensures !(Loaded(s) && s.showCalc) ==> r == s
    ensures Valid(s) ==> Valid(r)
  {
    if Loaded(s) && s.showCalc then s.(calcBuffer := Calculator.PressKey(s.calcBuffer, key, eval)) else s
  }

  /** "Previous": one question back unless already at the first; nothing else changes. */
  function Previous(s: Session): (r: Session)
    ensures r == s.(idx := r.idx)
    ensures Loaded(s) && s.idx > 0 ==> r.idx + 1 == s.idx
    ensures !Loaded(s) || s.idx == 0 ==> r.idx == s.idx
    ensures Valid(s) ==> Valid(r)
  {
    if Loaded(s) && s.idx > 0 then s.(idx := s.idx - 1) else s
  }

  /** The result of the Next/Finish button: the new record and, on Finish, the score shown. */
  datatype Step = Step(state: Session, score: Option<nat>)

  /**
   * Whether recorded answer `i` counts: it belongs to a question of the exam
   * and agrees with that question's correct value once both are stripped.
   */
  predicate Matches(s: Session, i: nat) {
    i in s.answers && i < |s.exam| && Strip(s.answers[i]) == Strip(s.exam[i].correct)
  }

  /** The members of `d` that count. */
  function CountedIn(s: Session, d: set<nat>): (r: set<nat>)
    ensures r <= d
    ensures forall i :: i in d ==> (i in r <==> Matches(s, i))
  {
    set i | i in d && Matches(s, i)
  }

  /** The answered questions that count towards the score. */
  function MatchedKeys(s: Session): (r: set<nat>)
    ensures r <= s.answers.Keys
    ensures forall i :: i in r <==> Matches(s, i)
  {
    CountedIn(s, s.answers.Keys)
  }

  /**
   * The score of a finished exam: the number of recorded answers equal to
   * their question's correct value once surrounding whitespace is ignored.
   * It never exceeds the number of answers, nor the number of questions,
   * and it reaches the number of answers exactly when every answer counts.
   */
  function Score(s: Session): (r: nat)
    requires KeysInRange(s)
    ensures r <= |s.answers| <= |s.exam|
    ensures r == |s.answers| <==> forall i :: i in s.answers ==> Matches(s, i)
  {
    var m := MatchedKeys(s);
    AnswersBounded(s);
    SubsetCard(m, s.answers.Keys);
    |m|
  }

  /** A subset is no larger than its superset, and of equal size only when it is the whole. */
  lemma {:induction false} SubsetCard(a: set<nat>, b: set<nat>)
    requires a <= b
    ensures |a| <= |b|
    ensures |a| == |b| <==> a == b
    decreases |b|
  {
    if a != b {
      assert !(b <= a);
      var j :| j in b && j !in a;
      SubsetCard(a, b - {j});
    }
  }

  /** The indices below `n`. */
  function Below(n: nat): (r: set<nat>)
    ensures forall i :: i in r <==> 0 <= i < n
    ensures |r| == n
  {
    if n == 0 then {} else
      assert n - 1 !in Below(n - 1);
      Below(n - 1) + {n - 1}
  }

  lemma AnswersBounded(s: Session)
    requires KeysInRange(s)
    ensures |s.answers| <= |s.exam|
  {
    SubsetCard(s.answers.Keys, Below(|s.exam|));
  }

  /** Adding one element adds one to the tally exactly when that element counts. */
  lemma CountedAdd(s: Session, d: set<nat>, i: nat)
    requires i !in d
    ensures |CountedIn(s, d + {i})| == |CountedIn(s, d)| + (if Matches(s, i) then 1 else 0)
  {
    if Matches(s, i) {
      assert CountedIn(s, d + {i}) == CountedIn(s, d) + {i};
    } else {
      assert CountedIn(s, d + {i}) == CountedIn(s, d);
    }
  }

  /**
   * "Next" / "Finish". Before the last question the button moves one
   * question on. On the last one it computes the score and shows it; the
   * record itself is left as it was, so navigation may continue.
   */
  function Next(s: Session): (r: Step)
    requires IndexInRange(s) && KeysInRange(s)
    ensures !Loaded(s) ==> r == Step(s, None)
    ensures Loaded(s) && s.idx + 1 < |s.exam| ==> r == Step(s.(idx := s.idx + 1), None)
    ensures Loaded(s) && s.idx + 1 == |s.exam| ==> r.state == s && r.score == Some(|MatchedKeys(s)|)
    ensures Valid(s) ==> Valid(r.state)
  {
    if !Loaded(s) then Step(s, None)
    else if s.idx == |s.exam| - 1 then Step(s, Some(Score(s)))
    else Step(s.(idx := s.idx + 1), None)
  }

  /**
   * The tally as the script computes it: a pass over the recorded answers,
   * counting those that match. It agrees with `Score`.
   */
  method Finish(s: Session) returns (correct: nat)
    requires KeysInRange(s)
    ensures correct == Score(s)
  {
    correct := 0;
    var todo := s.answers.Keys;
    ghost var done: set<nat> := {};
    while todo != {}
      invariant todo !! done && todo + done == s.answers.Keys
      invariant correct == |CountedIn(s, done)|
      decreases todo
    {
      var i :| i in todo;
      CountedAdd(s, done, i);
      if Matches(s, i) {
        correct := correct + 1;
      }
      todo := todo - {i};
      done := done + {i};
    }
  }

  // ---------------------------------------------------------------------
  // Navigation

  /** Next followed by Previous comes back to the same record, short of the last question. */
  lemma NextThenPrevious(s: Session)
    requires Valid(s) && Loaded(s) && s.idx + 1 < |s.exam|
    ensures Next(s).score == None
    ensures Previous(Next(s).state) == s
  {
  }

  /** Previous followed by Next comes back to the same record, past the first question. */
  lemma PreviousThenNext(s: Session)
    requires Valid(s) && Loaded(s) && s.idx > 0
    ensures Next(Previous(s)) == Step(s, None)
  {
  }

  /** Pressing Next `k` times, the scores shown along the way aside. */
  function NextTimes(s: Session, k: nat): (r: Session)
    requires Valid(s)
    ensures Valid(r)
    decreases k
  {
    if k == 0 then s else NextTimes(Next(s).state, k - 1)
  }

  /** Pressing Previous `k` times. */
  function PreviousTimes(s: Session, k: nat): (r: Session)
    requires Valid(s)
    ensures Valid(r)
    decreases k
  {
    if k == 0 then s else PreviousTimes(Previous(s), k - 1)
  }

  /** Next never moves past the last question: `k` presses reach `min(idx + k, last)`. */
  lemma {:induction false} NextTimesStops(s: Session, k: nat)
    requires Valid(s) && Loaded(s)
    ensures var r := NextTimes(s, k);
            r.idx == (if s.idx + k < |s.exam| then s.idx + k else |s.exam| - 1)
            && r == s.(idx := r.idx)
    decreases k
  {
    if k > 0 {
      NextTimesStops(Next(s).state, k - 1);
    }
  }

  /** Previous never moves before the first question: `k` presses reach `max(idx - k, 0)`. */
  lemma {:induction false} PreviousTimesStops(s: Session, k: nat)
    requires Valid(s)
    ensures var r := PreviousTimes(s, k);
            r.idx == (if s.idx >= k then s.idx - k else 0)
            && r == s.(idx := r.idx)
    decreases k
  {
    if k > 0 {
      PreviousTimesStops(Previous(s), k - 1);
    }
  }

  /**
   * Finishing is not an end state: the record is unchanged, pressing the
   * button again shows the same score, and Previous still moves back.
   */
  lemma FinishIsNotTerminal(s: Session)
    requires Valid(s) && Loaded(s) && s.idx + 1 == |s.exam|
    ensures Next(s).state == s && Next(Next(s).state) == Next(s)
    ensures |s.exam| > 1 ==> Previous(Next(s).state).idx + 1 == s.idx
  {
  }

  // ---------------------------------------------------------------------
  // Scoring

  /**
   * Writing answer `v` for the current question changes the score by the
   * current question alone: its old contribution is replaced by whether `v`
   * matches the correct value once stripped.
   */
  lemma ScoreAfterWrite(s: Session, r: Session, v: string)
    requires Valid(s) && Loaded(s) && AnswerWritten(s, r, v)
    ensures KeysInRange(r)
    ensures Score(r) + (if Matches(s, s.idx) then 1 else 0)
         == Score(s) + (if Strip(v) == Strip(s.exam[s.idx].correct) then 1 else 0)
  {
    TallyAfterWrite(s, r, v);
  }

  lemma TallyAfterWrite(s: Session, r: Session, v: string)
    requires s.idx < |s.exam| && AnswerWritten(s, r, v)
    ensures |MatchedKeys(r)| + (if Matches(s, s.idx) then 1 else 0)
         == |MatchedKeys(s)| + (if Matches(r, s.idx) then 1 else 0)
  {
    var rest := s.answers.Keys - {s.idx};
    assert r.answers.Keys - {s.idx} == rest;
    TallySplit(s, s.idx);
    TallySplit(r, s.idx);
    forall i | i in rest
      ensures Matches(s, i) <==> Matches(r, i)
    {
      assert r.answers[i] == s.answers[i];
    }
    CountedSame(s, r, rest);
  }

  /** The tally is the tally without question `i` plus whether `i` counts. */
  lemma TallySplit(t: Session, i: nat)
    ensures |MatchedKeys(t)| == |CountedIn(t, t.answers.Keys - {i})| + (if Matches(t, i) then 1 else 0)
  {
    var rest := t.answers.Keys - {i};
    if i in t.answers {
      assert t.answers.Keys == rest + {i};
      CountedAdd(t, rest, i);
    } else {
      assert t.answers.Keys == rest;
    }
  }

  /** Two records that agree on which members of `d` count have the same tally over `d`. */
  lemma CountedSame(s: Session, r: Session, d: set<nat>)
    requires forall i :: i in d ==> (Matches(s, i) <==> Matches(r, i))
    ensures CountedIn(s, d) == CountedIn(r, d)
  {
  }

  /** Typing spaces or line breaks around a numeric answer never changes the score. */
  lemma PaddingDoesNotChangeScore(s: Session, pre: string, text: string, post: string)
    requires Valid(s) && AllSpace(pre) && AllSpace(post)
    ensures Score(EnterNumeric(s, pre + text + post)) == Score(EnterNumeric(s, text))
            || text == []
  {
    if text != [] && Loaded(s) && IsNumeric(Current(s)) {
      StripIgnoresPadding(pre, text, post);
      var r1, r2 := EnterNumeric(s, pre + text + post), EnterNumeric(s, text);
      ScoreAfterWrite(s, r1, pre + text + post);
      ScoreAfterWrite(s, r2, text);
    }
  }

  /**
   * The immediate verdict of a multiple-choice pick and the final tally
   * agree: a pick judged correct counts towards the score, and when the
   * correct label carries no surrounding whitespace and the picked
   * character is not whitespace, a pick that counts was judged correct.
   */
  lemma VerdictAgreesWithScore(s: Session, choice: string)
    requires Valid(s) && Loaded(s) && !IsNumeric(Current(s)) && choice != []
    ensures var r := PickChoice(s, Some(choice));
            && (ChoiceIsCorrect(Current(s), choice) ==> Matches(r, s.idx))
            && ((Trimmed(Current(s).correct) && !IsSpace(choice[0]) && Matches(r, s.idx))
                ==> ChoiceIsCorrect(Current(s), choice))
  {
    var c := StoredLabel(choice);
    StripFixpoint(c);
    StripFixpoint(Current(s).correct);
  }

  /**
   * Answering every question with a value equal to its correct one up to
   * surrounding whitespace gives a full score.
   */
  lemma PerfectScore(s: Session)
    requires KeysInRange(s)
    requires forall i :: 0 <= i < |s.exam| ==> i in s.answers && Strip(s.answers[i]) == Strip(s.exam[i].correct)
    ensures Score(s) == |s.exam|
  {
    assert s.answers.Keys == Below(|s.exam|);
    assert MatchedKeys(s) == s.answers.Keys;
  }
}
