/** The validator generation, which `schema` is typed against. A validator
    maps a string to a verdict without producing an output; a failure
    carries its name and arguments at top level. Its `and` checks every
    validator against the same value instead of threading outputs. */
module Validators {
  import opened Common
  import opened EmailRegex

  /** `{ ok: true }` or `{ ok: false, name, args }`. */
  datatype ValidatorResult = Valid | Invalid(name: string, args: seq<Arg>)

  type Validator = string -> ValidatorResult

  /** `ok()`: a success that carries nothing. */
  function Ok(): (r: ValidatorResult)
    ensures r.Valid?
  {
    Valid
  }

  /** `err(name, args)`. */
  function Err(name: string, args: seq<Arg>): (r: ValidatorResult)
    ensures r.Invalid? && r.name == name && r.args == args
  {
    Invalid(name, args)
  }

  /** The validator `and` returns, as a recursion over the list: each
      validator sees the original value, and the first failure is returned
      as the validator produced it. */
  function AllOf(vs: seq<Validator>, v: string): (r: ValidatorResult)
    ensures r.Valid? <==> forall i :: 0 <= i < |vs| ==> vs[i](v).Valid?
    ensures r.Invalid? ==>
              exists k :: 0 <= k < |vs| && r == vs[k](v) && forall i :: 0 <= i < k ==> vs[i](v).Valid?
    decreases |vs|
  {
    if |vs| == 0 then Ok()
    else if vs[0](v).Invalid? then vs[0](v)
    else
      var r := AllOf(vs[1..], v);
      assert forall i :: 1 <= i < |vs| ==> vs[i] == vs[1..][i - 1];
      r
  }

  /** `and(...validators)`: a TypeError when no validator is given. */
  function And(vs: seq<Validator>): (r: Throws<Validator>)
    ensures r.Thrown? <==> |vs| == 0
    ensures r.Thrown? ==> r.exception == TypeError(AtLeastOneRequired)
  {
    if |vs| == 0 then Thrown(TypeError(AtLeastOneRequired))
    else Returns(v => AllOf(vs, v))
  }

  /** The closure body of `and` as written: a loop that applies each
      validator to the same value and returns the first failing result. */
  method RunAnd(vs: seq<Validator>, v: string) returns (r: ValidatorResult)
    requires |vs| > 0
    ensures r.Valid? <==> forall i :: 0 <= i < |vs| ==> vs[i](v).Valid?
    ensures r.Invalid? ==>
              exists k :: 0 <= k < |vs| && r == vs[k](v) && forall i :: 0 <= i < k ==> vs[i](v).Valid?
  {
    var i := 0;
    while i < |vs|
      invariant 0 <= i <= |vs|
      invariant forall j :: 0 <= j < i ==> vs[j](v).Valid?
    {
      var result := vs[i](v);
      if result.Invalid? {
        return result;
      }
      i := i + 1;
    }
    return Ok();
  }

  /** The composed validator fails with the first failing validator's own
      result, as computed on the original value. */
  lemma AndFirstFailure(vs: seq<Validator>, v: string, k: nat)
    requires k < |vs| && vs[k](v).Invalid?
    requires forall i :: 0 <= i < k ==> vs[i](v).Valid?
    ensures And(vs).Returns?
    ensures And(vs).value(v) == vs[k](v)
  {
    var r := AllOf(vs, v);
    var k' :| 0 <= k' < |vs| && r == vs[k'](v) && forall i :: 0 <= i < k' ==> vs[i](v).Valid?;
    assert k' == k;
  }

  /** `required`: only the empty string fails. */
  function Required(v: string): (r: ValidatorResult)
    ensures r.Invalid? <==> |v| == 0
    ensures r.Invalid? ==> r == Invalid("required", [])
  {
    if |v| == 0 then Err("required", []) else Ok()
  }

  /** `minLength(n)`: fails below `n` characters. */
  function MinLength(n: int, v: string): (r: ValidatorResult)
    ensures r.Invalid? <==> |v| < n
    ensures r.Invalid? ==> r == Invalid("minLength", [ANum(n)])
  {
    if |v| < n then Err("minLength", [ANum(n)]) else Ok()
  }

  /** `maxLength(n)`: fails above `n` characters. */
  function MaxLength(n: int, v: string): (r: ValidatorResult)
    ensures r.Invalid? <==> |v| > n
    ensures r.Invalid? ==> r == Invalid("maxLength", [ANum(n)])
  {
    if |v| > n then Err("maxLength", [ANum(n)]) else Ok()
  }

  /** `length(min, max)`: `and(minLength(min), maxLength(max))` with any
      failure re-emitted as `length` carrying both bounds. */
  function Length(min: int, max: int, v: string): (r: ValidatorResult)
    ensures r.Valid? <==> min <= |v| <= max
    ensures r.Invalid? ==> r == Invalid("length", [ANum(min), ANum(max)])
  {
    var lower: Validator := u => MinLength(min, u);
    var upper: Validator := u => MaxLength(max, u);
    var composed := And([lower, upper]);
    assert composed.value(v).Valid? <==> lower(v).Valid? && upper(v).Valid? by {
      assert composed.value(v) == AllOf([lower, upper], v);
      assert [lower, upper][0] == lower && [lower, upper][1] == upper;
    }
    if composed.value(v).Valid? then Ok() else Err("length", [ANum(min), ANum(max)])
  }

  /** `matches(pattern)`: passes exactly the strings the pattern accepts. */
  function Matches(p: Pattern, v: string): (r: ValidatorResult)
    ensures r.Valid? <==> p.test(v)
    ensures r.Invalid? ==> r == Invalid("matches", [APattern(p)])
  {
    if p.test(v) then Ok() else Err("matches", [APattern(p)])
  }

  /** `email`: the email expression, failing as `email` with no arguments. */
  function Email(v: string): (r: ValidatorResult)
    ensures r.Valid? <==> RegexAccepts(v)
    ensures r.Invalid? ==> r == Invalid("email", [])
  {
    ScanMatchesRegex(v);
    if Matches(EmailPattern, v).Valid? then Ok() else Err("email", [])
  }
}
