/** The leaf rules of the parser generation. Each one either succeeds with
    its input, unchanged, as output, or fails under its own error name with
    the arguments it was configured with. A rule built from a parameter
    (`minLength(n)`) is written here as a function of the parameter and the
    value; `v => MinLength(n, v)` is the parser `minLength(n)` returns. */
module BuiltinValidators {
  import opened Common
  import opened EmailRegex
  import opened Parsing

  /** `required`: only the empty string fails. */
  function Required(v: string): (r: ParserResult<string>)
    ensures r.Failure? <==> |v| == 0
    ensures r.Failure? ==> r.error == ParserError("required", [])
    ensures r.Success? ==> r.output == v
  {
    if |v| == 0 then Err("required", []) else Ok(v)
  }

  /** `minLength(n)`: fails below `n` characters; exactly `n` passes. */
  function MinLength(n: int, v: string): (r: ParserResult<string>)
    ensures r.Failure? <==> |v| < n
    ensures r.Failure? ==> r.error == ParserError("minLength", [ANum(n)])
    ensures r.Success? ==> r.output == v
  {
    if |v| < n then Err("minLength", [ANum(n)]) else Ok(v)
  }

  /** `maxLength(n)`: fails above `n` characters; exactly `n` passes. */
  function MaxLength(n: int, v: string): (r: ParserResult<string>)
    ensures r.Failure? <==> |v| > n
    ensures r.Failure? ==> r.error == ParserError("maxLength", [ANum(n)])
    ensures r.Success? ==> r.output == v
  {
    if |v| > n then Err("maxLength", [ANum(n)]) else Ok(v)
  }

  /** `length(min, max)`: the chain `and(minLength(min), maxLength(max))`,
      whose failure, whichever bound caused it, is re-emitted as
      `length` with both bounds. */
  function Length(min: int, max: int, v: string): (r: ParserResult<string>)
    ensures r.Success? <==> min <= |v| <= max
    ensures r.Success? ==> r.output == v
    ensures r.Failure? ==> r.error == ParserError("length", [ANum(min), ANum(max)])
  {
    var lower: Parser<string> := u => MinLength(min, u);
    var upper: Parser<string> := u => MaxLength(max, u);
    var composed := And([lower, upper]);
    assert Chain([lower, upper], v) ==
           (if lower(v).Failure? then lower(v) else Chain([upper], v)) by {
      assert [lower, upper][1..] == [upper];
    }
    assert Chain([upper], v) == (if upper(v).Failure? then upper(v) else Ok(v)) by {
      assert [upper][1..] == [];
    }
    if composed.value(v).Success? then Ok(v) else Err("length", [ANum(min), ANum(max)])
  }

  /** `matches(pattern)`: passes exactly the strings the pattern accepts,
      and fails carrying the pattern itself. */
  function Matches(p: Pattern, v: string): (r: ParserResult<string>)
    ensures r.Success? <==> p.test(v)
    ensures r.Failure? ==> r.error == ParserError("matches", [APattern(p)])
    ensures r.Success? ==> r.output == v
  {
    if p.test(v) then Ok(v) else Err("matches", [APattern(p)])
  }

  /** `email`: `matches(/^.+@.+\..+$/)` whose failure is renamed `email`
      and loses its pattern argument. */
  function Email(v: string): (r: ParserResult<string>)
    ensures r.Success? <==> RegexAccepts(v)
    ensures r.Failure? ==> r.error == ParserError("email", [])
    ensures r.Success? ==> r.output == v
  {
    ScanMatchesRegex(v);
    if Matches(EmailPattern, v).Success? then Ok(v) else Err("email", [])
  }

  /** Two addresses the rule's tests accept. */
  lemma EmailAcceptsExamples()
    ensures Email("name@example.com") == Ok("name@example.com")
    ensures Email("what+ever @ yep.yep") == Ok("what+ever @ yep.yep")
  {
    var a := "name@example.com";
    assert a[..4] == "name" && a[5..12] == "example" && a[13..] == "com";
    assert SplitsAt(a, 4, 12);
    var b := "what+ever @ yep.yep";
    assert b[..10] == "what+ever " && b[11..15] == " yep" && b[16..] == "yep";
    assert SplitsAt(b, 10, 15);
  }

  /** Two strings the rule's tests reject: no dot after the `@`,
      and no `@` at all. */
  lemma EmailRejectsExamples()
    ensures Email("needs@domain") == Err("email", [])
    ensures Email("needs-at-sign") == Err("email", [])
  {
  }
}
