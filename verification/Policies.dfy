/** The policy resource, as far as compilation and transfer read it. */
module Policies {
  import opened Wrappers
  import opened Cel

  datatype EvaluationMode = Known(mode: Mode) | Unknown(text: string)

  /** A failure policy is a text; failures count exactly under FAIL. */
  type FailurePolicy = string

  const FAIL: FailurePolicy := "Fail"

  const IGNORE: FailurePolicy := "Ignore"

  datatype MatchCondition = MatchCondition(name: string, expression: Expr)

  datatype Variable = Variable(name: string, expression: Expr)

  datatype Validation = Validation(expression: Expr, message: string, reason: Option<string>)

  datatype ValidatingPolicy = ValidatingPolicy(
    name: string,
    resourceVersion: string,
    evaluationMode: EvaluationMode,
    matchConditions: seq<MatchCondition>,
    variables: seq<Variable>,
    validations: seq<Validation>,
    failurePolicy: Option<FailurePolicy>)
  {
    /** An unset failure policy counts as FAIL, the documented default of the resource. */
    function GetFailurePolicy(): FailurePolicy {
      match failurePolicy
      case Some(fp) => fp
      case None => FAIL
    }
  }
}
