# Scientific calculator core, modelled in Dafny

This project models the logic of a small Android scientific calculator
(`MainActivity.kt`): the input controller that turns button presses into
edits of the display text and the expression text, the glyph substitutions
applied to the expression before it is evaluated, the custom `fact`
function registered with the expression library, and the label each
button shows.

Files and modules:

- `controller.dfy`, module `Controller`: the controller's state
  (`display`, `expression`, `isInverse`) as a value, the inverse-mode
  remapping of sin/cos/tan, the rule each id selects, the transition `Next`
  for one press and `Run` for a sequence of presses, and the lemmas about
  them (the display invariant, AC, backspace, `=`, `inv`, function buttons,
  `x!`, `xʸ`, `1/x`, typed tokens).
- `session.dfy`, module `Session`: the class `Calculator` whose fields are
  the three pieces of state and whose `Press` method updates them in place,
  branch by branch as the source does; `Press` is proved to perform
  exactly `Controller.Next` and to keep the display invariant.
- `sanitizer.dfy`, module `Sanitizer`: the chain `×→*`, `÷→/`, `√→sqrt`,
  `π→3.141592653589793`, proved equal to a per-character reference
  spelling, glyph-free, idempotent and order-preserving.
- `evaluator.dfy`, module `Evaluator`: `evaluateExpression`, with the
  expression library as a parameter and the `"Error"` sentinel for every
  exception it throws.
- `factorial.dfy`, module `Factorial`: `fact` over exact numbers with the
  argument truncated toward zero and the product accumulated in a loop.
- `keypad.dfy`, module `Keypad`: the button grid, the label projection and
  the id each button sends.

The expression library (parsing, evaluation, number formatting) is not
visible; it is a parameter `engine: string -> Option<string>` of the
calculator, where `None` stands for an exception. The controller's rules
take the resulting evaluator as a parameter `eval: string -> string`, whose
only distinguished result is the sentinel `"Error"`.

Two behaviours of the code are worth knowing, and the model follows the
code in both:

- The exception message of `fact` says the argument must be a non-negative
  integer, but the guard compares the truncated argument with itself, so
  `fact(2.5)` is `fact(2)` and `fact(-0.5)` is `fact(0)`; only arguments
  whose truncation is negative are refused (see "## Findings").
- The controller handles the id `1/x`, but no button of the grid sends it;
  the model keeps the rule.

## Model

| member | source | states |
|---|---|---|
| `Session.Calculator.constructor` | MainActivity.kt:108-110 | a new calculator is in state `Controller.Initial`: "0" over an empty expression, not in inverse mode (the three fields of `Controller.State`), and satisfies the display invariant |
| `Session.Calculator.Press` | MainActivity.kt:132-141 | one press remaps sin/cos/tan in inverse mode and then changes the state exactly as `Controller.Next` says, keeping the display invariant |
| `Session.Calculator.Dispatch` | MainActivity.kt:143-197 | each branch of the `when` changes display, expression and flag exactly as the rule the id selects, keeping the display invariant |
| `Controller.Next` | MainActivity.kt:132-198 | the model of `onButtonClick` on a `Controller.State`: the id is remapped by `Remap` and the resulting rule applied by `Dispatch`; `Session.Calculator.Press` is proved to perform it, and the rule lemmas below characterise it |
| `Controller.Remap` | MainActivity.kt:133-141 | the inverse-mode substitution of asin, acos, atan for sin, cos, tan; characterised by `Controller.RemapSpec` |
| `Controller.Classify` | MainActivity.kt:143-196 | the arm of the `when` an id selects: AC, backspace, `=`, `inv`, the nine function ids, `x!`, `1/x`, `xʸ`, or the default token |
| `Controller.Dispatch` | MainActivity.kt:143-197 | the effect of each arm of the `when` on display, expression and flag; `Session.Calculator.Dispatch` is proved to perform it, and the rule lemmas below characterise it |
| `Controller.NextConsistent` | MainActivity.kt:143-197 | the initial state satisfies, and every press preserves, "display equals expression, or expression is empty and display is 0 or Error" |
| `Controller.RunConsistent` | MainActivity.kt:132-198 | any sequence of presses from a consistent state ends consistent |
| `Controller.RemapSpec` | MainActivity.kt:133-141 | in inverse mode sin, cos, tan become asin, acos, atan; every other id, and every id outside inverse mode, is passed through unchanged |
| `Controller.LabelAgreesWithDispatch` | MainActivity.kt:241-247 | a button shows the inverse mark exactly when the controller dispatches the arc function in its place |
| `Controller.ToggleInverseSpec` | MainActivity.kt:161-163 | `inv` flips the inverse flag and leaves display and expression alone |
| `Controller.ToggleInverseTwice` | MainActivity.kt:161-163 | two presses of `inv` restore the whole state |
| `Controller.InverseOnlyByToggle` | MainActivity.kt:161-163 | the inverse flag changes on a press if and only if the button is `inv` |
| `Controller.ClearSpec` | MainActivity.kt:144-147 | `AC` gives an empty expression and display "0" and keeps the inverse flag |
| `Controller.BackspaceSpec` | MainActivity.kt:148-153 | backspace on a non-empty expression removes exactly its last character; the display becomes "0" once the expression is empty and mirrors it otherwise |
| `Controller.BackspaceOnEmpty` | MainActivity.kt:149 | backspace on an empty expression changes nothing |
| `Controller.BackspaceUntilEmpty` | MainActivity.kt:148-153 | as many backspaces as the expression is long lead to display "0" over an empty expression |
| `Controller.EqualsOnEmpty` | MainActivity.kt:155 | `=` on an empty expression changes nothing |
| `Controller.EqualsSpec` | MainActivity.kt:154-160 | `=` shows the evaluator's result and keeps it as the expression, or empties the expression when the result is "Error"; the expression is never "Error" afterwards |
| `Controller.NoErrorAfterEquals` | MainActivity.kt:158 | after `=` the expression does not hold the sentinel |
| `Controller.FunctionSpec` | MainActivity.kt:164-171 | a function button gives `name(`, replacing a "0" or "Error" expression and appending otherwise, with the arc name for a trig button in inverse mode |
| `Controller.FactorialSpec` | MainActivity.kt:172-175 | `x!` always appends `fact(`, even to "0" |
| `Controller.ReciprocalSpec` | MainActivity.kt:176-183 | `1/x` gives `1/` from "0" or "Error" and `1/(old)` otherwise, so an empty expression becomes `1/()` |
| `Controller.PowerSpec` | MainActivity.kt:184-188 | `xʸ` always appends `^` |
| `Controller.TokenSpec` | MainActivity.kt:189-196 | a typed token replaces the expression while the display shows "0" or the expression is "Error", and is appended otherwise |
| `Controller.LeadingZeroOverwritten` | MainActivity.kt:189-196 | on a consistent state, a lone leading "0" is overwritten by the next token |
| `Controller.KeypadTokensAreSingleCharacters` | MainActivity.kt:222-230 | every button of the grid is a command or a one-character token |
| `Controller.BackspaceUndoesToken` | MainActivity.kt:189-196 | backspace right after an appended one-character token restores the expression |
| `Controller.SineOfFive` | MainActivity.kt:132-198 | from the initial state, sin, 5, ), = build `sin(`, `sin(5`, `sin(5)` and then show the evaluator's result for `sin(5)` |
| `Sanitizer.Sanitize` | MainActivity.kt:114-118 | the chain `×→*`, `÷→/`, `√→sqrt`, `π→3.141592653589793` in the source's order; characterised by `Sanitizer.SanitizeIsSpellAll` and the lemmas after it |
| `Sanitizer.ReplaceChar` | MainActivity.kt:115-118 | replacing a one-character pattern changes the length by the number of occurrences times the growth of the replacement, removes the pattern when the replacement lacks it, and introduces no other characters |
| `Sanitizer.SanitizeAppend` | MainActivity.kt:114-118 | sanitising a concatenation sanitises each part in place |
| `Sanitizer.SanitizeChar` | MainActivity.kt:114-118 | a single character is sanitised to its reference spelling |
| `Sanitizer.SanitizeIsSpellAll` | MainActivity.kt:114-118 | the chain of four replacements equals the per-character reference spelling |
| `Sanitizer.SanitizeGlyphFree` | MainActivity.kt:114-118 | no ×, ÷, √ or π is left after sanitising |
| `Sanitizer.SanitizeFixesGlyphFree` | MainActivity.kt:114-118 | text without those glyphs is left unchanged |
| `Sanitizer.SanitizeIdempotent` | MainActivity.kt:114-118 | sanitising twice is sanitising once |
| `Sanitizer.SanitizeKeepsPlainInOrder` | MainActivity.kt:114-118 | every non-glyph character of the input appears in the output in the same order |
| `Sanitizer.SanitizeLength` | MainActivity.kt:117-118 | the output is longer than the input by 3 per √ and 16 per π |
| `Evaluator.Evaluate` | MainActivity.kt:112-129 | `evaluateExpression`: the library sees the sanitised text; a thrown exception (`None`, the catch at lines 127-128) becomes "Error", a result is returned as the library formatted it |
| `Evaluator.EvaluateThroughSanitize` | MainActivity.kt:112-129 | the evaluator sees an expression only through its sanitised text: inputs that sanitise alike evaluate alike |
| `Evaluator.EvaluateSanitized` | MainActivity.kt:112-129 | evaluating the sanitised text gives the same result as evaluating the raw text |
| `Factorial.Fact` | MainActivity.kt:64-67 | n! is at least 1 and at least n |
| `Factorial.TruncateTowardZero` | MainActivity.kt:60 | the conversion rounds toward zero: within 1 below a non-negative argument, within 1 above a negative one |
| `Factorial.Accumulate` | MainActivity.kt:64-68 | the loop over 2..n leaves n! in the accumulator |
| `Factorial.Apply` | MainActivity.kt:58-69 | `fact` fails exactly when the truncated argument is negative and otherwise returns the factorial of the truncated argument |
| `Factorial.ApplyIntended` | MainActivity.kt:61-62 | with the guard its error message describes, `fact` fails exactly on negative or fractional arguments |
| `Factorial.RejectedAsWritten` | MainActivity.kt:61 | the guard as written, `n < 0 || n != args[0].toInt()`, which `Factorial.Apply` executes; characterised by `Factorial.RejectedAsWrittenIffNegative` |
| `Factorial.RejectedAsIntended` | MainActivity.kt:61-62 | the guard the exception message describes (negative or not a whole number), which `Factorial.ApplyIntended` executes; characterised by `Factorial.RejectedAsIntendedIff` |
| `Factorial.RejectedAsWrittenIffNegative` | MainActivity.kt:61 | the written guard refuses exactly the arguments at or below -1 |
| `Factorial.FractionsPassWrittenGuard` | MainActivity.kt:60-61 | 2.5 passes the written guard as 2 and -0.5 as 0; the intended guard refuses both |
| `Factorial.RejectedAsIntendedIff` | MainActivity.kt:61-62 | the intended guard accepts exactly the non-negative whole numbers |
| `Factorial.GuardsAgreeOnWholeNumbers` | MainActivity.kt:61 | the two guards agree on every whole number |
| `Factorial.FactBase` | MainActivity.kt:64-68 | fact(0) = fact(1) = 1 |
| `Factorial.FactIsProduct` | MainActivity.kt:64-67 | n! is the ascending product 1·2·…·n that the loop builds |
| `Keypad.Label` | MainActivity.kt:241-247 | the label `when`: sin, cos, tan gain "⁻¹" in inverse mode, every other id is shown as is; characterised by `Keypad.LabelSpec` |
| `Keypad.Render` | MainActivity.kt:249-253 | a rendered button: the label it shows and the raw id its `onClick` sends; characterised by `Keypad.RenderSendsRawId` |
| `Keypad.LabelSpec` | MainActivity.kt:241-247 | sin, cos, tan show the inverse mark exactly in inverse mode; every other button, `inv` included, shows its id |
| `Keypad.LabelChangesOnlyTrig` | MainActivity.kt:241-247 | a label differs from its id if and only if the button is sin, cos or tan and inverse mode is on |
| `Keypad.RenderSendsRawId` | MainActivity.kt:249-253 | a button sends its raw id in both modes, even when its label differs |
| `Keypad.LabelInjective` | MainActivity.kt:241-247 | among ids that do not end in the inverse mark, the label identifies the button |
| `Keypad.KeysUnmarked` | MainActivity.kt:222-230 | no id on the grid (`Keypad.Rows`, read row after row as `Keypad.Keys`) ends in the inverse mark, so every label on the grid identifies its button |

## Left out

- The Compose user interface: `onCreate`, `CalculatorButton` (colours, elevation, font sizes), the layout of rows, `Greetings` and `GreetingPreview`. The grid's ids and labels are modelled; how they are drawn is not.
- Persistence of the three state variables across configuration changes (`rememberSaveable`): they are plain fields of the class.
- The expression library (parsing, operators, function names, evaluation) and the `DecimalFormat("#.#######")` formatting of its double result, NaN and infinity included: they are an opaque parameter that returns a text or fails.
- Factorial.Apply: does not model the double arithmetic of the source: the product is exact where the source accumulates doubles (and overflows to infinity for large n), and the argument is an exact real where the source's `toInt()` clamps out-of-range values and maps NaN to 0.
- Characters are Unicode scalar values where the source's strings are UTF-16; every button id is a single code unit per character, so backspace removes the same character in both.

## Findings

| source | as written | input that shows it | evidently intended | confidence | as-written member | corrected member |
|---|---|---|---|---|---|---|
| MainActivity.kt:61 | `n != args[0].toInt()` compares the truncated argument with itself, so the check for a fractional argument never fires | `fact(2.5)` is accepted as `fact(2)` = 2 and `fact(-0.5)` as `fact(0)` = 1 (`Factorial.FractionsPassWrittenGuard`) | refuse any argument that is not a non-negative whole number, as the exception message says | high; not executed | `Factorial.Apply` | `Factorial.ApplyIntended` |
