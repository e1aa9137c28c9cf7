/**
 * The on-screen calculator's keypad and buffer. Every key but "C" and "="
 * appends its own text; "C" clears; "=" hands the buffer to Python's
 * `eval`, which is outside this model and enters as the parameter `eval`
 * (`None` standing for an evaluation that raised).
 */
module Calculator {
  import opened Base

  /** The keypad, in the order the buttons are laid out. */
  const Keypad: seq<string> :=
    ["7", "8", "9", "/", "4", "5", "6", "*", "1", "2", "3", "-", "C", "0", ".", "+", "="]

  /** Keys that only append their own text to the buffer. */
  predicate IsAppendKey(key: string) {
    key in Keypad && key != "C" && key != "="
  }

  /** The buffer after pressing `key`. */
  function PressKey(buffer: string, key: string, eval: string -> Option<string>): (r: string)
    requires key in Keypad
    ensures key == "C" ==> r == []
    ensures key == "=" ==> r == (if eval(buffer).Some? then eval(buffer).value else "Error")
    ensures IsAppendKey(key) ==> |r| == |buffer| + 1 && r[..|buffer|] == buffer && r[|buffer|..] == key
  {
    if key == "C" then ""
    else if key == "=" then
      match eval(buffer)
      case Some(v) => v
      case None => "Error"
    else buffer + key
  }

  /** The text of the result field: the buffer, or "0" while it is empty. */
  function Display(buffer: string): (r: string)
    ensures r != []
    ensures buffer != [] ==> r == buffer
    ensures buffer == [] ==> r == "0"
  {
    if buffer == "" then "0" else buffer
  }

  /** The buffer after pressing `keys` one after another. */
  function PressAll(buffer: string, keys: seq<string>, eval: string -> Option<string>): string
    requires forall k :: 0 <= k < |keys| ==> keys[k] in Keypad
    decreases |keys|
  {
    if keys == [] then buffer else PressAll(PressKey(buffer, keys[0], eval), keys[1..], eval)
  }

  /** The texts of `keys` joined together. */
  function Concat(keys: seq<string>): string {
    if keys == [] then "" else keys[0] + Concat(keys[1..])
  }

  /** Typing only digit, point and operator keys extends the buffer by exactly their texts. */
  lemma {:induction false} TypingAppends(buffer: string, keys: seq<string>, eval: string -> Option<string>)
    requires forall k :: 0 <= k < |keys| ==> keys[k] in Keypad && keys[k] != "C" && keys[k] != "="
    ensures PressAll(buffer, keys, eval) == buffer + Concat(keys)
    decreases |keys|
  {
    if keys != [] {
      TypingAppends(buffer + keys[0], keys[1..], eval);
      assert buffer + keys[0] + Concat(keys[1..]) == buffer + (keys[0] + Concat(keys[1..]));
    }
  }

  /** "C" forgets everything typed before it: what follows starts from the empty buffer. */
  lemma {:induction false} ClearForgets(buffer: string, before: seq<string>, after: seq<string>, eval: string -> Option<string>)
    requires forall k :: 0 <= k < |before| ==> before[k] in Keypad
    requires forall k :: 0 <= k < |after| ==> after[k] in Keypad
    ensures forall k :: 0 <= k < |before + ["C"] + after| ==> (before + ["C"] + after)[k] in Keypad
    ensures PressAll(buffer, before + ["C"] + after, eval) == PressAll("", after, eval)
    decreases |before|
  {
    var all := before + ["C"] + after;
    if before == [] {
      assert all == ["C"] + after;
      assert all[1..] == after;
    } else {
      assert all[0] == before[0];
      assert all[1..] == before[1..] + ["C"] + after;
      ClearForgets(PressKey(buffer, before[0], eval), before[1..], after, eval);
    }
  }

  /**
   * What the result field shows: "0" right after "C", and after "C"
   * followed by a non-empty run of digit, point and operator keys, exactly
   * the texts of those keys.
   */
  lemma DisplayAfterKeys(buffer: string, keys: seq<string>, eval: string -> Option<string>)
    requires |keys| > 0
    requires forall k :: 0 <= k < |keys| ==> keys[k] in Keypad && keys[k] != "C" && keys[k] != "="
    ensures Display(PressKey(buffer, "C", eval)) == "0"
    ensures Display(PressAll(PressKey(buffer, "C", eval), keys, eval)) == Concat(keys)
  {
    TypingAppends("", keys, eval);
    assert keys[0] in Keypad && |keys[0]| == 1;
    assert Concat(keys) == keys[0] + Concat(keys[1..]);
  }
}
