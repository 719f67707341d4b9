/**
  The errors an evaluation can end with. The engine throws three kinds of its
  own (rule syntax, type, parameter); two rule-syntax errors carry data that a
  caller can inspect. The JavaScript runtime itself may also raise a TypeError
  on the way, which is kept apart from the engine's own type error.
 */
module Errors {

  datatype Error =
    /** RERuleSyntaxError for a malformed ruleset or constraints object. */
    | RuleSyntax
    /** RERuleSyntaxError: a dotted path step found nothing; `path` is the accessor plus the consumed segments. */
    | MissingField(path: string)
    /** RERuleSyntaxError: no getter registered for `accessorName`; `parameters` lists what was asked of it. */
    | MissingAccessor(accessorName: string, parameters: seq<string>)
    /** RETypeError: a primitive operator was handed a non-primitive value. */
    | TypeErr
    /** REParameterError: misuse of the registration or ignore API. */
    | ParameterErr
    /** A TypeError raised by the runtime, not by the engine (property access on null or undefined). */
    | HostTypeErr
  {
    predicate IsRuleSyntax() {
      RuleSyntax? || MissingField? || MissingAccessor?
    }
  }
}
