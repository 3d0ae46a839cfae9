/** Values shared by both rule generations, the chain composer and the schema:
    optional values, error arguments, opaque regular expressions and the
    exception a misconfigured composition raises. */
module Common {

  datatype Option<+T> = None | Some(value: T)

  /** A regular expression as the rules see it: its source text, which is how
      it is shown and compared, and the predicate `RegExp.prototype.test`
      computes for a non-global expression. */
  datatype Pattern = Pattern(source: string, test: string -> bool)

  /** One argument of a failure: the numeric bound of a length rule, or the
      pattern of a `matches` rule. */
  datatype Arg = ANum(n: int) | APattern(pattern: Pattern)

  /** The JavaScript exception kinds the core can raise. Only `TypeError`
      occurs: composing zero parsers, or resolving a message that the catalog
      does not hold. */
  datatype Exception = TypeError(message: string)

  /** The outcome of a JavaScript call that may throw instead of returning. */
  datatype Throws<+T> = Returns(value: T) | Thrown(exception: Exception)

  /** The message `and` throws when it is given no parsers. */
  const AtLeastOneRequired: string := "At least one validator is required."
}
