/**
 * The input controller as a transition on its three pieces of state: the
 * text on the display, the expression being edited and the inverse flag.
 * `Next` is the effect of one button press; the calculator class in
 * `Session` is proved to perform exactly this transition.
 */
module Controller {
  import opened Evaluator
  import Keypad

  datatype State = State(display: string, expression: string, isInverse: bool)

  /** A fresh calculator shows "0" over an empty expression. */
  const Initial: State := State("0", "", false)

  /** The display shows the expression, or the expression is empty and the
      display shows the "0" placeholder or the error sentinel. */
  predicate Consistent(s: State) {
    s.display == s.expression || (s.expression == "" && (s.display == "0" || s.display == ErrorText))
  }

  /** In inverse mode sin, cos and tan are dispatched as asin, acos and atan. */
  function Remap(buttonText: string, isInverse: bool): string {
    if !isInverse then buttonText
    else if buttonText == "sin" then "asin"
    else if buttonText == "cos" then "acos"
    else if buttonText == "tan" then "atan"
    else buttonText
  }

  /** The rule an id selects. */
  datatype Rule =
    | Clear
    | Backspace
    | Equals
    | ToggleInverse
    | Function(name: string)
    | Factorial
    | Reciprocal
    | Power
    | Token(text: string)

  /** Ids that open a function application `name(`. */
  predicate IsFunctionName(id: string) {
    id in {"sin", "cos", "tan", "asin", "acos", "atan", "log", "ln", "√"}
  }

  function Classify(id: string): Rule {
    if id == "AC" then Clear
    else if id == "⌫" then Backspace
    else if id == "=" then Equals
    else if id == "inv" then ToggleInverse
    else if IsFunctionName(id) then Function(id)
    else if id == "x!" then Factorial
    else if id == "1/x" then Reciprocal
    else if id == "xʸ" then Power
    else Token(id)
  }

  /** An id with a rule of its own, as opposed to a token that is typed in. */
  predicate IsCommand(id: string) {
    !Classify(id).Token?
  }

  /** The expression is still the "0" placeholder or the error sentinel, so
      a function or reciprocal replaces it instead of extending it. */
  predicate Replaceable(s: State) {
    s.expression == "0" || s.expression == ErrorText
  }

  /** Set the expression and show it. */
  function Shown(s: State, expression: string): State {
    s.(display := expression, expression := expression)
  }

  /** The effect of pressing `buttonText`; `eval` is the expression evaluator. */
  function Next(s: State, buttonText: string, eval: string -> string): State {
    Dispatch(s, Remap(buttonText, s.isInverse), eval)
  }

  /** The effect of the rule that the (remapped) id `id` selects. */
  function Dispatch(s: State, id: string, eval: string -> string): State {
    match Classify(id)
    case Clear => s.(display := "0", expression := "")
    case Backspace =>
      if s.expression == "" then s
      else
        var shorter := s.expression[..|s.expression| - 1];
        s.(display := if shorter == "" then "0" else shorter, expression := shorter)
    case Equals =>
      if s.expression == "" then s
      else
        var result := eval(s.expression);
        s.(display := result, expression := if result != ErrorText then result else "")
    case ToggleInverse => s.(isInverse := !s.isInverse)
    case Function(name) =>
      Shown(s, if Replaceable(s) then name + "(" else s.expression + name + "(")
    case Factorial => Shown(s, s.expression + "fact(")
    case Reciprocal =>
      Shown(s, if Replaceable(s) then "1/" else "1/(" + s.expression + ")")
    case Power => Shown(s, s.expression + "^")
    case Token(text) =>
      Shown(s, if s.display == "0" || s.expression == ErrorText then text else s.expression + text)
  }

  /** The state after pressing each button of `buttons` in turn. */
  function Run(s: State, buttons: seq<string>, eval: string -> string): State
    decreases |buttons|
  {
    if buttons == [] then s else Run(Next(s, buttons[0], eval), buttons[1..], eval)
  }

  /** `n` presses of the same button. */
  function Repeat(buttonText: string, n: nat): seq<string> {
    if n == 0 then [] else [buttonText] + Repeat(buttonText, n - 1)
  }

  // ---------------------------------------------------------------------
  // The display invariant

  /** The initial state is consistent and every press keeps it so. */
  lemma NextConsistent(s: State, buttonText: string, eval: string -> string)
    requires Consistent(s)
    ensures Consistent(Initial)
    ensures Consistent(Next(s, buttonText, eval))
  {
  }

  /** Any sequence of presses from a consistent state ends consistent. */
  lemma {:induction false} RunConsistent(s: State, buttons: seq<string>, eval: string -> string)
    requires Consistent(s)
    ensures Consistent(Run(s, buttons, eval))
    decreases |buttons|
  {
    if buttons != [] {
      NextConsistent(s, buttons[0], eval);
      RunConsistent(Next(s, buttons[0], eval), buttons[1..], eval);
    }
  }

  // ---------------------------------------------------------------------
  // Inverse mode

  /** The remapping touches only sin, cos and tan, and only in inverse mode. */
  lemma RemapSpec(buttonText: string, isInverse: bool)
    ensures Keypad.IsTrig(buttonText) && isInverse ==> Remap(buttonText, isInverse) == "a" + buttonText
    ensures !(Keypad.IsTrig(buttonText) && isInverse) ==> Remap(buttonText, isInverse) == buttonText
  {
  }

  /** The button shows the inverse mark exactly when the controller
      dispatches the arc function in its place. */
  lemma LabelAgreesWithDispatch(buttonText: string, isInverse: bool)
    ensures Keypad.Label(buttonText, isInverse) == buttonText + Keypad.InverseMark
        <==> Remap(buttonText, isInverse) == "a" + buttonText
  {
    Keypad.LabelSpec(buttonText, isInverse);
    if !(Keypad.IsTrig(buttonText) && isInverse) {
      assert |Keypad.Label(buttonText, isInverse)| != |buttonText + Keypad.InverseMark|;
      assert |Remap(buttonText, isInverse)| != |"a" + buttonText|;
    }
  }

  /** `inv` flips the flag and nothing else. */
  lemma ToggleInverseSpec(s: State, eval: string -> string)
    ensures Next(s, "inv", eval) == s.(isInverse := !s.isInverse)
  {
  }

  /** Two presses of `inv` restore the whole state. */
  lemma ToggleInverseTwice(s: State, eval: string -> string)
    ensures Run(s, ["inv", "inv"], eval) == s
  {
    var once := Next(s, "inv", eval);
    assert once == s.(isInverse := !s.isInverse);
    assert Next(once, "inv", eval) == s;
  }

  /** The inverse flag changes only on `inv`. */
  lemma InverseOnlyByToggle(s: State, buttonText: string, eval: string -> string)
    ensures Next(s, buttonText, eval).isInverse != s.isInverse <==> buttonText == "inv"
  {
  }

  // ---------------------------------------------------------------------
  // Clearing and deleting

  /** `AC` empties the expression and shows "0", keeping the inverse flag. */
  lemma ClearSpec(s: State, eval: string -> string)
    ensures Next(s, "AC", eval) == State("0", "", s.isInverse)
  {
  }

  /** Backspace removes exactly the last character; the display falls back
      to "0" once the expression is empty. */
  lemma BackspaceSpec(s: State, eval: string -> string)
    requires s.expression != ""
    ensures var t := Next(s, "⌫", eval);
      && t.expression + [s.expression[|s.expression| - 1]] == s.expression
      && t.display == (if t.expression == "" then "0" else t.expression)
      && t.isInverse == s.isInverse
  {
  }

  /** Backspace on an empty expression changes nothing. */
  lemma BackspaceOnEmpty(s: State, eval: string -> string)
    requires s.expression == ""
    ensures Next(s, "⌫", eval) == s
  {
  }

  /** As many backspaces as the expression has characters bring the
      calculator back to "0" over an empty expression. */
  lemma {:induction false} BackspaceUntilEmpty(s: State, eval: string -> string)
    requires s.expression != ""
    ensures Run(s, Repeat("⌫", |s.expression|), eval) == State("0", "", s.isInverse)
    decreases |s.expression|
  {
    var t := Next(s, "⌫", eval);
    assert Repeat("⌫", |s.expression|)[1..] == Repeat("⌫", |t.expression|);
    if t.expression != "" {
      BackspaceUntilEmpty(t, eval);
    } else {
      assert Run(t, [], eval) == State("0", "", s.isInverse);
    }
  }

  // ---------------------------------------------------------------------
  // Evaluation

  /** `=` on an empty expression changes nothing. */
  lemma EqualsOnEmpty(s: State, eval: string -> string)
    requires s.expression == ""
    ensures Next(s, "=", eval) == s
  {
  }

  /** `=` shows the evaluator's result and keeps it as the expression to
      continue from, unless it is the sentinel, which empties the expression. */
  lemma EqualsSpec(s: State, eval: string -> string)
    requires s.expression != ""
    ensures var t := Next(s, "=", eval);
      && t.display == eval(s.expression)
      && t.expression == (if eval(s.expression) == ErrorText then "" else eval(s.expression))
      && t.expression != ErrorText
      && t.isInverse == s.isInverse
  {
  }

  /** After `=` the expression never holds the sentinel. */
  lemma NoErrorAfterEquals(s: State, eval: string -> string)
    ensures Next(s, "=", eval).expression != ErrorText
  {
  }

  // ---------------------------------------------------------------------
  // Functions, factorial, reciprocal, power

  /** A function button opens `name(`, replacing a "0" or sentinel
      expression and extending any other; the name is the arc form for a
      trigonometric button in inverse mode. */
  lemma FunctionSpec(s: State, buttonText: string, eval: string -> string)
    requires IsFunctionName(buttonText)
    ensures var name := Remap(buttonText, s.isInverse);
      && IsFunctionName(name)
      && Next(s, buttonText, eval) == Shown(s, (if Replaceable(s) then "" else s.expression) + name + "(")
  {
  }

  /** `x!` always appends `fact(`, even to the "0" expression. */
  lemma FactorialSpec(s: State, eval: string -> string)
    ensures Next(s, "x!", eval) == Shown(s, s.expression + "fact(")
  {
  }

  /** `xʸ` always appends `^`. */
  lemma PowerSpec(s: State, eval: string -> string)
    ensures Next(s, "xʸ", eval) == Shown(s, s.expression + "^")
  {
  }

  /** `1/x` gives `1/` from "0" or the sentinel and wraps any other
      expression, the empty one included, as `1/(...)`. */
  lemma ReciprocalSpec(s: State, eval: string -> string)
    ensures Replaceable(s) ==> Next(s, "1/x", eval).expression == "1/"
    ensures !Replaceable(s) ==> Next(s, "1/x", eval).expression == "1/(" + s.expression + ")"
    ensures s.expression == "" ==> Next(s, "1/x", eval).expression == "1/()"
    ensures Next(s, "1/x", eval).display == Next(s, "1/x", eval).expression
  {
  }

  // ---------------------------------------------------------------------
  // Typed tokens

  /** A token replaces the expression while the display shows "0" or the
      expression is the sentinel, and is appended otherwise. */
  lemma TokenSpec(s: State, token: string, eval: string -> string)
    requires !IsCommand(token)
    ensures Next(s, token, eval) ==
      Shown(s, (if s.display == "0" || s.expression == ErrorText then "" else s.expression) + token)
  {
    RemapSpec(token, s.isInverse);
  }

  /** A lone leading "0" is overwritten by the next token. */
  lemma LeadingZeroOverwritten(s: State, token: string, eval: string -> string)
    requires Consistent(s) && s.expression == "0"
    requires !IsCommand(token)
    ensures Next(s, token, eval).expression == token
  {
    TokenSpec(s, token, eval);
  }

  /** Every button of the grid is either a command or a token of one
      character. */
  lemma KeypadTokensAreSingleCharacters()
    ensures forall k :: k in Keypad.Keys && !IsCommand(k) ==> |k| == 1
  {
  }

  /** Backspace undoes a one-character token that was appended. */
  lemma {:induction false} BackspaceUndoesToken(s: State, token: string, eval: string -> string)
    requires !IsCommand(token) && |token| == 1
    requires s.display != "0" && s.expression != ErrorText
    ensures Run(s, [token, "⌫"], eval).expression == s.expression
  {
    TokenSpec(s, token, eval);
    var t := Next(s, token, eval);
    assert t.expression == s.expression + token;
    RemapSpec("⌫", t.isInverse);
    assert t.expression[..|t.expression| - 1] == s.expression;
    assert [token, "⌫"][1..] == ["⌫"] && ["⌫"][1..] == [];
    assert Run(s, [token, "⌫"], eval) == Next(t, "⌫", eval);
  }

  /** sin, 5, ), = from the initial state: the expression reads `sin(5)`
      and the display then shows its value. */
  lemma SineOfFive(eval: string -> string)
    ensures Run(Initial, ["sin"], eval).expression == "sin("
    ensures Run(Initial, ["sin", "5"], eval).expression == "sin(5"
    ensures Run(Initial, ["sin", "5", ")"], eval).expression == "sin(5)"
    ensures Run(Initial, ["sin", "5", ")", "="], eval).display == eval("sin(5)")
  {
    var s1 := Next(Initial, "sin", eval);
    assert s1 == State("sin(", "sin(", false);
    var s2 := Next(s1, "5", eval);
    assert s2 == State("sin(5", "sin(5", false);
    var s3 := Next(s2, ")", eval);
    assert s3 == State("sin(5)", "sin(5)", false);
    assert Run(Initial, ["sin"], eval) == Run(s1, [], eval);
    assert Run(Initial, ["sin", "5"], eval) == Run(s2, [], eval);
    assert Run(Initial, ["sin", "5", ")"], eval) == Run(s3, [], eval);
    assert Run(Initial, ["sin", "5", ")", "="], eval) == Run(Next(s3, "=", eval), [], eval);
  }
}
