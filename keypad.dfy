/**
 * The button grid and the label each button shows. The label depends on the
 * inverse mode; the id a button sends to the input controller does not.
 */
module Keypad {

  /** The grid, row by row, as button ids. */
  const Rows: seq<seq<string>> := [
    ["inv", "sin", "ln", "cos", "log", "tan"],
    ["√", "xʸ", "x!", "(", ")", "π"],
    ["AC", "⌫", "%", "÷"],
    ["7", "8", "9", "×"],
    ["4", "5", "6", "-"],
    ["1", "2", "3", "+"],
    ["0", ".", "="]
  ]

  /** The grid read row after row. */
  const Keys: seq<string> := Rows[0] + Rows[1] + Rows[2] + Rows[3] + Rows[4] + Rows[5] + Rows[6]

  const InverseMark: string := "⁻¹"

  predicate IsTrig(buttonText: string) {
    buttonText == "sin" || buttonText == "cos" || buttonText == "tan"
  }

  /** The text shown on a button. */
  function Label(buttonText: string, isInverse: bool): string {
    if buttonText == "inv" && isInverse then "inv"
    else if buttonText == "sin" then (if isInverse then "sin⁻¹" else "sin")
    else if buttonText == "cos" then (if isInverse then "cos⁻¹" else "cos")
    else if buttonText == "tan" then (if isInverse then "tan⁻¹" else "tan")
    else buttonText
  }

  /** What a rendered button carries: the text it shows and the id it sends. */
  datatype Face = Face(shows: string, sends: string)

  function Render(buttonText: string, isInverse: bool): Face {
    Face(Label(buttonText, isInverse), buttonText)
  }

  /** Only sin, cos and tan change their label, and only in inverse mode,
      where they gain the inverse mark. */
  lemma LabelSpec(buttonText: string, isInverse: bool)
    ensures IsTrig(buttonText) && isInverse ==> Label(buttonText, isInverse) == buttonText + InverseMark
    ensures !(IsTrig(buttonText) && isInverse) ==> Label(buttonText, isInverse) == buttonText
  {
  }

  /** A button's label differs from its id exactly for sin, cos and tan in
      inverse mode. */
  lemma LabelChangesOnlyTrig(buttonText: string, isInverse: bool)
    ensures Label(buttonText, isInverse) != buttonText <==> IsTrig(buttonText) && isInverse
  {
    if IsTrig(buttonText) && isInverse {
      assert |Label(buttonText, isInverse)| == |buttonText| + 2;
    }
  }

  /** The id a button sends is the same in both modes, whatever it shows. */
  lemma RenderSendsRawId(buttonText: string)
    ensures Render(buttonText, true).sends == buttonText == Render(buttonText, false).sends
    ensures IsTrig(buttonText) ==> Render(buttonText, true).shows != Render(buttonText, true).sends
  {
    LabelChangesOnlyTrig(buttonText, true);
  }

  /** The text ends in the inverse mark. */
  predicate Marked(s: string) {
    |s| >= 2 && s[|s| - 2..] == InverseMark
  }

  /** Among ids that do not themselves end in the inverse mark, the label
      shown identifies the button. */
  lemma LabelInjective(a: string, b: string, isInverse: bool)
    requires !Marked(a) && !Marked(b)
    requires Label(a, isInverse) == Label(b, isInverse)
    ensures a == b
  {
    LabelSpec(a, isInverse);
    LabelSpec(b, isInverse);
  }

  /** No id on the grid ends in the inverse mark, so in either mode each
      label on the grid identifies its button. */
  lemma KeysUnmarked()
    ensures forall k :: k in Keys ==> !Marked(k)
  {
  }
}
