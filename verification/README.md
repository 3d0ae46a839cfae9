# vahv validation core, modelled in Dafny

This project models the core of vahv, a small TypeScript library that checks
form-field strings. The modelled pieces are:

- the parser generation of results: `ok`, `err` and the chain composer `and`
  (`src/parsing.ts`);
- its leaf rules `required`, `minLength`, `maxLength`, `length`, `matches` and
  `email` (`src/builtin-validators.ts`), and the `trim` transformer
  (`src/builtin-transformers.ts`);
- the older validator generation (`src/validator.ts`). It has the same leaf rules,
  results without outputs, and an `and` that checks every validator against
  the same value;
- `schema` (`src/schema.ts`). It runs one validator per field key on
  `values[key] ?? ""` and returns a map from each failing key to its
  resolved message.

Module layout (one file each):

- `Common`: the shared types. These are `Option`, error arguments `Arg = ANum(int) | APattern(Pattern)`,
  an opaque `Pattern` (its source text plus its `test` predicate), and the
  `Throws` outcome for calls that raise a JavaScript `TypeError`.
- `Chars`: the ECMAScript WhiteSpace and LineTerminator classes (sections 12.2
  and 12.3 of ECMA-262, 2024 edition).
- `EmailRegex`: `/^.+@.+\..+$/`, defined twice. `RegexAccepts` is its
  regular-expression semantics, a split into three non-empty `.` runs around
  `@` and `.`. `EmailShape` is an executable two-search scan. The lemma
  `ScanMatchesRegex` proves the two agree on every string.
- `Parsing`: `ParserResult`, `Ok`, `Err`, `Chain` (the closure `and` returns),
  `And`, and `RunAnd`, the `for` loop as written. `Feed(ps, x, k)` is the input stage
  `k` receives (or `None` once a stage has failed). It is defined stage by stage and
  serves as the independent reference for threading.
- `BuiltinValidators`, `BuiltinTransformers`: the parser-generation rules and
  `trim`. A rule with a parameter is a function of the parameter and the value.
  The parser `minLength(n)` is `v => MinLength(n, v)`.
- `Validators`: the validator generation.
- `Generations`: the two rule generations agree on every value.
- `Schema`: `Collect` (the `forEach` over the settled results), `Validate`
  (the function `schema` returns) and `MakeSchema`.

The model is purely functional. A schema call reads only its arguments and
builds a fresh map, as the source does on every call.

## Model

| member | source | states |
|---|---|---|
| Parsing.Ok | src/parsing.ts:18-20 | `ok(x)` is a success whose output is exactly `x` |
| Parsing.Err | src/parsing.ts:22-27 | `err(n, a)` is a failure whose nested error has name `n` and args `a`, unchanged |
| Parsing.And | src/parsing.ts:80-89 | `and` throws a TypeError with "At least one validator is required." exactly when given no parsers; otherwise it returns a parser |
| Parsing.RunAnd | src/parsing.ts:89-101 | the loop as written returns the same result as the chain `Chain`. It succeeds iff every stage succeeds on the previous stage's output, with the last stage's output. A failure is, verbatim, the result of a stage that received the previous output |
| Parsing.Chain | src/parsing.ts:89-101 | the closure `and` returns: on an empty list it is `ok` of the input, and any failure it returns is, verbatim, the result some stage produced, never one made up by the chain itself |
| Parsing.ChainTrace | src/parsing.ts:89-100 | the closure's success, output and failure are characterised stage by stage through `Feed`: each stage receives the previous stage's output, left to right |
| Parsing.FeedShift | src/parsing.ts:90-95 | running k+1 stages is running the first stage and then k stages of the rest from its output |
| Parsing.AndSingle | src/parsing.ts:89-100 | `and(p)(x)` equals `p(x)` |
| Parsing.AndUnfold | src/parsing.ts:89-100 | `and(p, ...ps)(x)` is `p(x)` when that fails, else `and(...ps)` applied to `p`'s output |
| Parsing.ChainSkip | src/parsing.ts:90-99 | after k stages have succeeded, the closure's answer is that of the remaining stages run on the k-th output, so the loop's current output is all it needs to carry |
| Parsing.ChainFailsAt | src/parsing.ts:92-97 | when stage k is the first to fail, the chain returns that stage's result unchanged and later stages are not consulted |
| Parsing.AndFailsAt | src/parsing.ts:92-97 | when stage k is the first to fail, the composed parser returns that stage's result unchanged |
| Parsing.AndIgnoresLaterStages | src/parsing.ts:91-97 | stages after the first failing one are never applied: replacing them leaves the answer unchanged |
| Parsing.AndSucceedsIffAllStagesDo | src/parsing.ts:91-100 | the composed parser succeeds iff every stage succeeds, and then it is `ok` of the last stage's output |
| BuiltinValidators.Required | src/builtin-validators.ts:3-4 | fails with `("required", [])` iff the value is empty; otherwise succeeds with the value unchanged |
| BuiltinValidators.MinLength | src/builtin-validators.ts:6-11 | fails with `("minLength", [n])` iff `|v| < n` (so `|v| = n` passes); otherwise succeeds with `v` |
| BuiltinValidators.MaxLength | src/builtin-validators.ts:13-18 | fails with `("maxLength", [n])` iff `|v| > n` (so `|v| = n` passes); otherwise succeeds with `v` |
| BuiltinValidators.Length | src/builtin-validators.ts:20-29 | through `and(minLength, maxLength)`: succeeds with `v` iff `min <= |v| <= max`. Otherwise fails with `("length", [min, max])`, never with an inner rule's name |
| BuiltinValidators.Matches | src/builtin-validators.ts:31-36 | succeeds with `v` iff the pattern accepts `v`; otherwise fails with `("matches", [pattern])` |
| BuiltinValidators.Email | src/builtin-validators.ts:38-40 | succeeds with `v` iff `/^.+@.+\..+$/` matches `v`; otherwise fails with `("email", [])`, never as `matches` |
| BuiltinValidators.EmailAcceptsExamples | tests/builtin-validators.test.ts:75-78 | `name@example.com` and `what+ever @ yep.yep` are accepted unchanged |
| BuiltinValidators.EmailRejectsExamples | tests/builtin-validators.test.ts:79-80 | `needs@domain` and `needs-at-sign` fail as `email` |
| EmailRegex.ScanMatchesRegex | src/builtin-validators.ts:38 | the executable scan accepts exactly the strings the regular expression matches: a non-empty prefix, `@`, at least one character, `.`, a non-empty suffix, and no line terminator |
| BuiltinTransformers.TrimString | src/builtin-transformers.ts:3-4 | the output has no WhiteSpace or LineTerminator at either end, and is a contiguous slice of the input with only such characters cut from the two ends |
| BuiltinTransformers.Trim | src/builtin-transformers.ts:3-4 | `trim` never fails, and its output is the bare slice `TrimString` describes |
| BuiltinTransformers.TrimUnique | src/builtin-transformers.ts:4 | any bare string obtained from `s` by cutting only strippable characters off its ends is `trim(s)`'s output |
| BuiltinTransformers.TrimIdempotent | src/builtin-transformers.ts:4 | trimming the output again gives the same string |
| BuiltinTransformers.TrimKeepsBare | src/builtin-transformers.ts:4 | a string with nothing strippable at either end is returned unchanged |
| BuiltinTransformers.TrimExample | tests/builtin-transformers.test.ts:16-19 | `" abcd "` becomes `"abcd"` |
| Validators.Ok | src/validator.ts:5-7 | `ok()` is a success carrying no output |
| Validators.Err | src/validator.ts:9-14 | `err(n, a)` carries `name = n` and `args = a` at top level |
| Validators.And | src/validator.ts:20-28 | `and` throws a TypeError with "At least one validator is required." exactly when given no validators |
| Validators.AllOf | src/validator.ts:29-36 | the closure passes iff every validator passes on the same value. Otherwise it returns, verbatim, the result of the first validator that fails on that value |
| Validators.RunAnd | src/validator.ts:29-36 | the loop as written has the same characterisation: no threading, first failure verbatim, `ok()` when none fails |
| Validators.AndFirstFailure | src/validator.ts:30-32 | the composed validator's failure is the first failing validator's own result on the original value |
| Validators.Required | src/validator.ts:39-40 | fails with `("required", [])` iff the value is empty |
| Validators.MinLength | src/validator.ts:42-44 | fails with `("minLength", [n])` iff `|v| < n` |
| Validators.MaxLength | src/validator.ts:46-48 | fails with `("maxLength", [n])` iff `|v| > n` |
| Validators.Length | src/validator.ts:50-56 | through `and(minLength, maxLength)`: passes iff `min <= |v| <= max`, otherwise fails with `("length", [min, max])` |
| Validators.Matches | src/validator.ts:58-60 | passes iff the pattern accepts the value; otherwise fails with `("matches", [pattern])` |
| Validators.Email | src/validator.ts:62-64 | passes iff `/^.+@.+\..+$/` matches; otherwise fails with `("email", [])` |
| Generations.RulesAgree | src/validator.ts:39-64 | each rule of the validator generation passes exactly when the parser-generation rule of `src/builtin-validators.ts` succeeds (with the input as output). Failures carry the same name and args |
| Schema.Collect | src/schema.ts:56-77 | the result's keys are exactly the failing fields' keys, each mapped to its catalog message resolved on the raw value and the failure's args. It throws iff some failing field has no catalog entry for its error name |
| Schema.MakeSchema | src/schema.ts:36-46 | `schema(validators, messages)` never throws when it builds the schema; the function it returns is, on every value map, `Validate` |
| Schema.Validate | src/schema.ts:46-78 | every field's validator runs on `values[key] ?? ""`. The error map holds exactly the failing keys, with no cross-field short-circuit. A literal message is used verbatim; a function message gets the raw value followed by the args. A missing message throws |
| Schema.CompleteCatalogNeverThrows | src/schema.ts:19-26 | when the catalog has a message for every name a field's validator can produce, which is what `MessagesRecord` enforces, the schema never throws |
| Schema.AllValidIsEmpty | src/schema.ts:56-77 | when every field passes, the result is the empty map (so an empty schema yields the empty map) |
| Schema.OnlySchemaKeysRead | src/schema.ts:47-53 | values of keys outside the schema are never read: value maps that agree on the schema's keys give the same result |
| Schema.CollectReadsOnlySchemaKeys | src/schema.ts:58-75 | the message-resolution pass reads the raw values only of the schema's own keys |
| Schema.UnsetIsEmpty | src/schema.ts:53-71 | a key that is missing or undefined is validated, and passed to its message function, as `""` |
| Schema.RequiredExample | src/schema.ts:46-78 | `schema({a: required}, {a: {required: "Required!"}})` maps `{a: ""}` to `{a: "Required!"}` and `{a: "x"}` to the empty map |

## Left out

- Asynchrony: `Promise.all` in `schema`, the `async` closure of `length` and `AsyncParser` stages are modelled as synchronous calls. Field results are independent, so completion order cannot change the error map. The `and` of `src/parsing.ts` reads `result.ok` on whatever a stage returns. A stage returning a promise is outside the `Parser` type that `and` accepts, and is not modelled.
- The TypeScript type-level machinery (`IsCompatible`, `CheckParsers`, `AndParser`, `MessagesRecord`, `Unpromise`). Chains use one parser type `T -> ParserResult<T>`. Catalog completeness becomes the `CatalogComplete` precondition of `Schema.CompleteCatalogNeverThrows`.
- A general regular-expression engine. `matches` takes a pattern as an opaque `test` predicate. The statefulness of `test` on global or sticky expressions (`lastIndex`) is not modelled. Only the email expression is defined concretely.
- `defaultTo`: its source is not part of this model.
- The parser tests (tests/parsing.test.ts:20-24) expect `err("abc", [1, 2, 3])` to carry `name` and `args` at top level, but `src/parsing.ts:26` nests them under `error`. The model follows the code.
- The `ValidationError` throwing, the map of parsed outputs on success, and the descriptive "a message … is not present" error. The tests describe all three (tests/schema.test.ts:20, 42-54, 74-79), but `src/schema.ts` does none of them. That code returns the error map, and a missing catalog entry fails with the engine's TypeError. The model follows the code.
- Schema.Validate: only the kind of a missing-message exception is specified (thrown or not). The texts in `MissingMessage` are V8's wording and depend on the engine. Which text appears when several fields lack messages follows the entries order.
- Property lookup through the prototype chain: `values[key]` and `messages[key][name]` also see inherited properties such as `constructor` or `toString`, and `__proto__` is special as a key. The model treats both as plain maps of own entries.
- Numbers: bounds are mathematical integers. Fractional, `NaN` and infinite bounds are not modelled.
- Strings: a Dafny `char` is a Unicode scalar value, while JavaScript's `length` counts UTF-16 code units. Lengths therefore differ for characters outside the Basic Multilingual Plane.
- Test harnesses and configuration (`tests/helpers.ts`, `eslint.config.js`, `jest.config.js`).
