/**
 * `evaluateExpression`: the expression is sanitised and handed to the
 * expression library, and every exception is collapsed into the text "Error".
 */
module Evaluator {
  import opened Sanitizer

  /** What the expression library (parse, evaluate, format) gives back:
      a formatted result, or None where it throws. */
  datatype Option<T> = None | Some(value: T)

  /** The sentinel shown for every failure. */
  const ErrorText: string := "Error"

  /**
   * `evaluateExpression`: sanitise, hand to the expression library, and turn
   * a thrown exception into the sentinel.
   */
  function Evaluate(engine: string -> Option<string>, exp: string): string {
    match engine(Sanitize(exp))
    case None => ErrorText
    case Some(text) => text
  }

  /** The evaluator sees the expression only through its sanitised text:
      `2×3` and `2*3` evaluate alike. */
  lemma EvaluateThroughSanitize(engine: string -> Option<string>, a: string, b: string)
    requires Sanitize(a) == Sanitize(b)
    ensures Evaluate(engine, a) == Evaluate(engine, b)
  {
  }

  /** Evaluating the sanitised text gives what evaluating the raw text gives. */
  lemma EvaluateSanitized(engine: string -> Option<string>, exp: string)
    ensures Evaluate(engine, Sanitize(exp)) == Evaluate(engine, exp)
  {
    SanitizeIdempotent(exp);
  }
}
