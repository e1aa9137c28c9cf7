/**
 * A whole interaction: the user actions the script reacts to, one rerun
 * each, applied in turn from the record the script starts with. The
 * session invariant holds after every sequence of actions.
 */
module Actions {
  import opened Base
  import opened Questions
  import Calculator
  import Session

  /** One user action, as the script sees it on a rerun. */
  datatype Action =
    | StartClicked(exam: seq<Question>)
    | CalculatorClicked
    | NumberTyped(text: string)
    | OptionPicked(choice: Option<string>)
    | KeyClicked(key: string)
    | PreviousClicked
    | NextClicked

  /** Keys can only be pressed among the keypad's buttons. */
  predicate OnScreen(a: Action) {
    a.KeyClicked? ==> a.key in Calculator.Keypad
  }

  /** The record after one action; the score a Finish shows is not part of it. */
  function Apply(s: Session.Session, a: Action, eval: string -> Option<string>): (r: Session.Session)
    requires Session.Valid(s) && OnScreen(a)
    ensures Session.Valid(r)
    ensures !a.StartClicked? && !a.CalculatorClicked? && !Session.Loaded(s) ==> r == s
  {
    match a
    case StartClicked(exam) => Session.StartExam(s, exam)
    case CalculatorClicked => Session.OpenCalculator(s)
    case NumberTyped(text) => Session.EnterNumeric(s, text)
    case OptionPicked(choice) => Session.PickChoice(s, choice)
    case KeyClicked(key) => Session.PressKey(s, key, eval)
    case PreviousClicked => Session.Previous(s)
    case NextClicked => Session.Next(s).state
  }

  /** The record after `acts`, one after another. */
  function Run(s: Session.Session, acts: seq<Action>, eval: string -> Option<string>): Session.Session
    requires Session.Valid(s)
    requires forall k :: 0 <= k < |acts| ==> OnScreen(acts[k])
    decreases |acts|
  {
    if acts == [] then s else Run(Apply(s, acts[0], eval), acts[1..], eval)
  }

  /**
   * Whatever the user does, the current index stays within the loaded exam
   * (at 0 while none is loaded), every recorded answer belongs to one of its
   * questions, and the score Finish would show is at most the number of
   * questions.
   */
  lemma {:induction false} RunKeepsInvariant(acts: seq<Action>, eval: string -> Option<string>)
    requires forall k :: 0 <= k < |acts| ==> OnScreen(acts[k])
    ensures var r := Run(Session.Init, acts, eval);
            && (Session.Loaded(r) ==> r.idx < |r.exam|)
            && (!Session.Loaded(r) ==> r.idx == 0)
            && (forall i :: i in r.answers ==> i < |r.exam|)
            && Session.Score(r) <= |r.exam|
  {
    RunFrom(Session.Init, acts, eval);
  }

  lemma {:induction false} RunFrom(s: Session.Session, acts: seq<Action>, eval: string -> Option<string>)
    requires Session.Valid(s)
    requires forall k :: 0 <= k < |acts| ==> OnScreen(acts[k])
    ensures Session.Valid(Run(s, acts, eval))
    decreases |acts|
  {
    if acts != [] {
      RunFrom(Apply(s, acts[0], eval), acts[1..], eval);
    }
  }

  /** Before any exam is loaded, only the two sidebar buttons have any effect. */
  lemma {:induction false} NothingHappensUnloaded(s: Session.Session, acts: seq<Action>, eval: string -> Option<string>)
    requires Session.Valid(s) && !Session.Loaded(s)
    requires forall k :: 0 <= k < |acts| ==> OnScreen(acts[k]) && !acts[k].StartClicked? && !acts[k].CalculatorClicked?
    ensures Run(s, acts, eval) == s
    decreases |acts|
  {
    if acts != [] {
      NothingHappensUnloaded(s, acts[1..], eval);
    }
  }
}
