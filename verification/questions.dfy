/**
 * One exam question as loaded from a question bank, and what the script
 * derives from it: whether it is answered by typing a number, the strings a
 * multiple-choice question offers, and the answer that picking one stores.
 */
module Questions {
  import opened Base

  /**
   * A question bank entry. `qtype` is the raw `type` field (absent, or any
   * string); `options` keeps the bank's label order; `correct` is the
   * correct value in its `str(...)` form.
   */
  datatype Question = Question(
    section: string,
    qtype: Option<string>,
    text: string,
    options: seq<(string, string)>,
    correct: string,
    explanation: string)

  /** Only `type == "Numeric"` selects the typed answer; anything else is multiple choice. */
  predicate IsNumeric(q: Question) {
    q.qtype == Some("Numeric")
  }

  /** The radio-button text for option labelled `key` with text `text`: "k. v". */
  function RenderOption(key: string, text: string): (r: string)
    ensures |r| == |key| + 2 + |text|
    ensures r[..|key|] == key && r[|key|..|key| + 2] == ". " && r[|key| + 2..] == text
  {
    key + ". " + text
  }

  /** The list of choices shown for a multiple-choice question, in bank order. */
  function Choices(q: Question): (r: seq<string>)
    ensures |r| == |q.options|
    ensures forall k :: 0 <= k < |r| ==> r[k] == RenderOption(q.options[k].0, q.options[k].1)
  {
    seq(|q.options|, k requires 0 <= k < |q.options| => RenderOption(q.options[k].0, q.options[k].1))
  }

  /** What picking `choice` stores: its first character, as a one-character string. */
  function StoredLabel(choice: string): (r: string)
    requires choice != []
    ensures |r| == 1 && r[0] == choice[0]
  {
    choice[..1]
  }

  /** The immediate verdict shown after a pick: the stored character equals the correct label. */
  predicate ChoiceIsCorrect(q: Question, choice: string)
    requires choice != []
  {
    StoredLabel(choice) == q.correct
  }

  /**
   * Picking the option labelled `key` stores that label exactly when the
   * label is one character long; longer labels are cut to their first
   * character, and an empty label stores the "." of the separator.
   */
  lemma StoredLabelOfOption(key: string, text: string)
    ensures StoredLabel(RenderOption(key, text)) == key <==> |key| == 1
    ensures key == [] ==> StoredLabel(RenderOption(key, text)) == "."
  {
    var c := RenderOption(key, text);
    if key == [] {
      assert c[0] == '.';
    } else {
      assert c[0] == key[0];
    }
  }

  /**
   * For one-character labels the verdict is the plain label comparison:
   * picking option `key` is judged correct exactly when `key` is the
   * question's correct label.
   */
  lemma VerdictOfOption(q: Question, key: string, text: string)
    requires |key| == 1
    ensures ChoiceIsCorrect(q, RenderOption(key, text)) <==> key == q.correct
  {
    StoredLabelOfOption(key, text);
  }

  /**
   * Picking entry `k` of the radio list of a question whose labels are one
   * character long stores that entry's label, and the pick is judged
   * correct exactly when that label is the correct one.
   */
  lemma PickFromChoices(q: Question, k: nat)
    requires k < |q.options| && |q.options[k].0| == 1
    ensures StoredLabel(Choices(q)[k]) == q.options[k].0
    ensures ChoiceIsCorrect(q, Choices(q)[k]) <==> q.options[k].0 == q.correct
  {
    StoredLabelOfOption(q.options[k].0, q.options[k].1);
  }
}
