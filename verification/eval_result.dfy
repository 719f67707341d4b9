/** The outcome of evaluating a ruleset: a verdict and, on failure, the parameter to blame. */
module EvalResults {
  import opened Wrappers

  datatype EvalResult = EvalResult(value: bool, parameterName: Option<string>)

  /** The result of a passing evaluation: true, and no parameter named. */
  const Pass: EvalResult := EvalResult(true, None)

  const FalsePrefix: string := "false (reason: "

  /** How a parameter name is interpolated into a template string; an absent name reads "undefined". */
  function NameText(name: Option<string>): string {
    match name
    case Some(n) => n
    case None => "undefined"
  }

  /** `EvalResult.toString()`: "true", or "false" with the blamed parameter in parentheses. */
  function ToString(r: EvalResult): (s: string)
    ensures r.value ==> s == "true"
    ensures !r.value ==> |s| > |FalsePrefix| && s[..|FalsePrefix|] == FalsePrefix && s[|s| - 1] == ')'
  {
    if r.value then "true" else FalsePrefix + NameText(r.parameterName) + ")"
  }

  /** Reads the blamed name back out of a failing result's text. */
  function Reason(s: string): string
    requires |s| > |FalsePrefix|
  {
    s[|FalsePrefix|..|s| - 1]
  }

  /** The text of a failing result carries its parameter name, recoverably. */
  lemma ReasonOfToString(r: EvalResult)
    requires !r.value
    ensures Reason(ToString(r)) == NameText(r.parameterName)
  {
    var s := ToString(r);
    assert s == FalsePrefix + NameText(r.parameterName) + ")";
    assert s[|FalsePrefix|..|s| - 1] == NameText(r.parameterName);
  }

  /** Passing and failing results never print alike. */
  lemma ToStringDistinguishesVerdicts(a: EvalResult, b: EvalResult)
    requires a.value && !b.value
    ensures ToString(a) != ToString(b)
  {
  }
}
