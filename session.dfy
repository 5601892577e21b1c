/**
 * The calculator screen's state as an object: the display text, the
 * expression being edited and the inverse flag, updated in place by one
 * button press at a time. The expression library is a parameter.
 */
module Session {
  import opened Evaluator
  import Controller

  class Calculator {
    var display: string
    var expression: string
    var isInverse: bool

    /** The expression library behind `evaluateExpression`. */
    const engine: string -> Option<string>

    /** The current state as a value. */
    function Model(): Controller.State
      reads this
    {
      Controller.State(display, expression, isInverse)
    }

    /** The display invariant. */
    predicate Valid()
      reads this
    {
      Controller.Consistent(Model())
    }

    constructor (engine: string -> Option<string>)
      ensures Valid()
      ensures Model() == Controller.Initial
      ensures this.engine == engine
    {
      display := "0";
      expression := "";
      isInverse := false;
      this.engine := engine;
    }

    /** `evaluateExpression` over this calculator's expression library. */
    function Evaluator(): string -> string {
      exp => Evaluate(engine, exp)
    }

    /** `onButtonClick`: one press of the button with id `buttonText`. */
    method Press(buttonText: string)
      requires Valid()
      modifies this
      ensures Valid()
      ensures Model() == Controller.Next(old(Model()), buttonText, Evaluator())
    {
      var currentText := buttonText;
      if isInverse {
        currentText :=
          if buttonText == "sin" then "asin"
          else if buttonText == "cos" then "acos"
          else if buttonText == "tan" then "atan"
          else buttonText;
      }

      assert currentText == Controller.Remap(buttonText, isInverse);
      Dispatch(currentText);
    }

    /** The `when (currentText)` that follows the remapping in `onButtonClick`. */
    method Dispatch(currentText: string)
      requires Valid()
      modifies this
      ensures Valid()
      ensures Model() == Controller.Dispatch(old(Model()), currentText, Evaluator())
    {
      ghost var before := Model();
      if currentText == "AC" {
        assert Controller.Classify(currentText) == Controller.Clear;
        expression := "";
        display := "0";
        assert Model() == Controller.Dispatch(before, currentText, Evaluator());
      } else if currentText == "⌫" {
        assert Controller.Classify(currentText) == Controller.Backspace;
        if expression != "" {
          expression := expression[..|expression| - 1];
          display := if expression == "" then "0" else expression;
        }
        assert Model() == Controller.Dispatch(before, currentText, Evaluator());
      } else if currentText == "=" {
        assert Controller.Classify(currentText) == Controller.Equals;
        if expression != "" {
          var result := Evaluate(engine, expression);
          display := result;
          expression := if result != ErrorText then result else "";
        }
        assert Model() == Controller.Dispatch(before, currentText, Evaluator());
      } else if currentText == "inv" {
        assert Controller.Classify(currentText) == Controller.ToggleInverse;
        isInverse := !isInverse;
        assert Model() == Controller.Dispatch(before, currentText, Evaluator());
      } else if currentText in {"sin", "cos", "tan", "asin", "acos", "atan", "log", "ln", "√"} {
        assert Controller.Classify(currentText) == Controller.Function(currentText);
        if expression == "0" || expression == ErrorText {
          expression := currentText + "(";
        } else {
          expression := expression + currentText + "(";
        }
        display := expression;
        assert Model() == Controller.Dispatch(before, currentText, Evaluator());
      } else if currentText == "x!" {
        assert Controller.Classify(currentText) == Controller.Factorial;
        expression := expression + "fact(";
        display := expression;
        assert Model() == Controller.Dispatch(before, currentText, Evaluator());
      } else if currentText == "1/x" {
        assert Controller.Classify(currentText) == Controller.Reciprocal;
        if expression == "0" || expression == ErrorText {
          expression := "1/";
        } else {
          expression := "1/(" + expression + ")";
        }
        display := expression;
        assert Model() == Controller.Dispatch(before, currentText, Evaluator());
      } else if currentText == "xʸ" {
        assert Controller.Classify(currentText) == Controller.Power;
        expression := expression + "^";
        display := expression;
        assert Model() == Controller.Dispatch(before, currentText, Evaluator());
      } else {
        assert Controller.Classify(currentText) == Controller.Token(currentText);
        if display == "0" || expression == ErrorText {
          expression := currentText;
        } else {
          expression := expression + currentText;
        }
        display := expression;
        assert Model() == Controller.Dispatch(before, currentText, Evaluator());
      }

    }
  }
}
