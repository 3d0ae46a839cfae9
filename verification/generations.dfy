/** The two generations of leaf rules define the same checks: on every
    value, the parser rule succeeds exactly when the validator rule passes,
    and a failure carries the same name and arguments, nested under `error`
    in one generation and at top level in the other. */
module Generations {
  import opened Common
  import Parsing
  import BuiltinValidators
  import Validators

  /** A parser result and a validator result say the same thing about `v`. */
  ghost predicate Agree(p: Parsing.ParserResult<string>, q: Validators.ValidatorResult, v: string) {
    match p
    case Success(output) => q.Valid? && output == v
    case Failure(e) => q == Validators.Invalid(e.name, e.args)
  }

  lemma RulesAgree(n: int, m: int, pat: Pattern, v: string)
    ensures Agree(BuiltinValidators.Required(v), Validators.Required(v), v)
    ensures Agree(BuiltinValidators.MinLength(n, v), Validators.MinLength(n, v), v)
    ensures Agree(BuiltinValidators.MaxLength(n, v), Validators.MaxLength(n, v), v)
    ensures Agree(BuiltinValidators.Length(n, m, v), Validators.Length(n, m, v), v)
    ensures Agree(BuiltinValidators.Matches(pat, v), Validators.Matches(pat, v), v)
    ensures Agree(BuiltinValidators.Email(v), Validators.Email(v), v)
  {
  }
}
