/** The parser generation's result type, its constructors and the `and`
    chain composer. A parser maps its input to a success carrying an output
    or a failure carrying a named error; here every stage of a chain has one
    input and output type `T`, standing in for the compile-time check that
    each stage's output fits the next stage's input. */
module Parsing {
  import opened Common

  datatype ParserError = ParserError(name: string, args: seq<Arg>)

  /** `{ ok: true, output }` or `{ ok: false, error: { name, args } }`. */
  datatype ParserResult<+T> = Success(output: T) | Failure(error: ParserError)

  type Parser<!T> = T -> ParserResult<T>

  /** `ok(output)`. */
  function Ok<T>(output: T): (r: ParserResult<T>)
    ensures r.Success? && r.output == output
  {
    Success(output)
  }

  /** `err(name, args)`: the name and arguments sit, unchanged, inside the
      failure's `error` field. */
  function Err<T>(name: string, args: seq<Arg>): (r: ParserResult<T>)
    ensures r.Failure? && r.error.name == name && r.error.args == args
  {
    Failure(ParserError(name, args))
  }

  /** The parser `and` returns: run the stages left to right, feeding each
      success's output to the next stage, and return the first failure as
      the stage produced it. */
  function Chain<T(!new)>(ps: seq<Parser<T>>, x: T): (r: ParserResult<T>)
    ensures |ps| == 0 ==> r == Ok(x)
    ensures r.Failure? ==> exists k, y :: 0 <= k < |ps| && ps[k](y) == r
    decreases |ps|
  {
    if |ps| == 0 then Ok(x)
    else
      var r := ps[0](x);
      if r.Failure? then r
      else
        var rest := Chain(ps[1..], r.output);
        assert rest.Failure? ==> exists k, y :: 0 <= k < |ps| && ps[k](y) == rest by {
          if rest.Failure? {
            var k, y :| 0 <= k < |ps[1..]| && ps[1..][k](y) == rest;
            assert ps[k + 1](y) == rest;
          }
        }
        rest
  }

  /** `and(...parsers)`: a TypeError at composition time when no parser is
      given, otherwise the chained parser. */
  function And<T(!new)>(ps: seq<Parser<T>>): (r: Throws<Parser<T>>)
    ensures r.Thrown? <==> |ps| == 0
    ensures r.Thrown? ==> r.exception == TypeError(AtLeastOneRequired)
  {
    if |ps| == 0 then Thrown(TypeError(AtLeastOneRequired))
    else Returns(x => Chain(ps, x))
  }

  /** The input stage `k` receives when the chain starts from `x`: `Some` of
      it when the first `k` stages all succeed, `None` once one has failed.
      This is the threading read off stage by stage, independently of how
      `Chain` recurses. */
  function Feed<T>(ps: seq<Parser<T>>, x: T, k: nat): Option<T>
    requires k <= |ps|
    decreases k
  {
    if k == 0 then Some(x)
    else
      match Feed(ps, x, k - 1)
      case None => None
      case Some(v) => if ps[k - 1](v).Success? then Some(ps[k - 1](v).output) else None
  }

  /** The closure body of `and` as written: a loop over the stages that keeps
      the current output and returns the first failing result. */
  method RunAnd<T(!new)>(ps: seq<Parser<T>>, x: T) returns (r: ParserResult<T>)
    requires |ps| > 0
    ensures r == Chain(ps, x)
    ensures r.Success? <==> Feed(ps, x, |ps|).Some?
    ensures r.Success? ==> r.output == Feed(ps, x, |ps|).value
    ensures r.Failure? ==>
              exists k :: 0 <= k < |ps| && Feed(ps, x, k).Some? && r == ps[k](Feed(ps, x, k).value)
  {
    var output := x;
    var i := 0;
    while i < |ps|
      invariant 0 <= i <= |ps|
      invariant Feed(ps, x, i) == Some(output)
      invariant Chain(ps, x) == Chain(ps[i..], output)
    {
      var result := ps[i](output);
      assert ps[i..][0] == ps[i] && ps[i..][1..] == ps[i + 1..];
      if result.Success? {
        output := result.output;
      } else {
        assert Feed(ps, x, i + 1) == None;
        FeedStaysNone(ps, x, i + 1, |ps|);
        return result;
      }
      i := i + 1;
    }
    return Ok(output);
  }

  /** Once a stage has failed, no later stage receives an input. */
  lemma {:induction false} FeedStaysNone<T>(ps: seq<Parser<T>>, x: T, k: nat, m: nat)
    requires k <= m <= |ps|
    requires Feed(ps, x, k).None?
    ensures Feed(ps, x, m).None?
    decreases m - k
  {
    if k < m {
      FeedStaysNone(ps, x, k + 1, m);
    }
  }

  /** Running `k + 1` stages is running the first stage and then `k` stages
      of the rest from its output. */
  lemma {:induction false} FeedShift<T>(ps: seq<Parser<T>>, x: T, k: nat)
    requires k < |ps|
    ensures Feed(ps, x, k + 1) ==
            (if ps[0](x).Success? then Feed(ps[1..], ps[0](x).output, k) else None)
  {
    if k > 0 {
      FeedShift(ps, x, k - 1);
      assert ps[1..][k - 1] == ps[k];
    }
  }

  /** Two chains that agree on their first `k` stages feed those stages the
      same inputs. */
  lemma {:induction false} FeedPrefix<T>(ps: seq<Parser<T>>, qs: seq<Parser<T>>, x: T, k: nat)
    requires k <= |ps| && k <= |qs|
    requires ps[..k] == qs[..k]
    ensures Feed(ps, x, k) == Feed(qs, x, k)
  {
    if k > 0 {
      assert ps[..k - 1] == ps[..k][..k - 1];
      assert qs[..k - 1] == qs[..k][..k - 1];
      FeedPrefix(ps, qs, x, k - 1);
      assert ps[k - 1] == ps[..k][k - 1];
      assert qs[k - 1] == qs[..k][k - 1];
    }
  }

  /** The chain succeeds exactly when every stage succeeds on the output of
      the one before; its output is then the last stage's output, and a
      failure is the verbatim result of a stage that received its input. */
  lemma {:induction false} ChainTrace<T(!new)>(ps: seq<Parser<T>>, x: T)
    ensures Chain(ps, x).Success? <==> Feed(ps, x, |ps|).Some?
    ensures Chain(ps, x).Success? ==> Chain(ps, x).output == Feed(ps, x, |ps|).value
    ensures Chain(ps, x).Failure? ==>
              exists k :: 0 <= k < |ps| && Feed(ps, x, k).Some? && Chain(ps, x) == ps[k](Feed(ps, x, k).value)
    decreases |ps|
  {
    if |ps| > 0 {
      FeedShift(ps, x, |ps| - 1);
      var r := ps[0](x);
      if r.Success? {
        var o := r.output;
        ChainTrace(ps[1..], o);
        if Chain(ps, x).Failure? {
          var k :| 0 <= k < |ps[1..]| && Feed(ps[1..], o, k).Some?
                   && Chain(ps[1..], o) == ps[1..][k](Feed(ps[1..], o, k).value);
          FeedShift(ps, x, k);
        }
      } else {
        assert Feed(ps, x, 0) == Some(x);
      }
    }
  }

  /** `and(p)` behaves exactly as `p`. */
  lemma AndSingle<T(!new)>(p: Parser<T>, x: T)
    ensures And([p]).Returns?
    ensures And([p]).value(x) == p(x)
  {
    assert [p][0] == p && [p][1..] == [];
    if p(x).Success? {
      assert Chain([p], x) == Chain([], p(x).output) == Success(p(x).output);
    }
  }

  /** `and(p, ...ps)` runs `p`; a failure of `p` is the answer, otherwise the
      rest of the chain runs on `p`'s output. */
  lemma AndUnfold<T(!new)>(p: Parser<T>, ps: seq<Parser<T>>, x: T)
    requires |ps| > 0
    ensures And([p] + ps).Returns? && And(ps).Returns?
    ensures And([p] + ps).value(x) ==
            (if p(x).Failure? then p(x) else And(ps).value(p(x).output))
  {
    assert ([p] + ps)[0] == p;
    assert ([p] + ps)[1..] == ps;
  }

  /** After `k` successful stages, the chain's answer is the answer of the
      remaining stages run on the `k`-th output. */
  lemma {:induction false} ChainSkip<T(!new)>(ps: seq<Parser<T>>, x: T, k: nat)
    requires k <= |ps| && Feed(ps, x, k).Some?
    ensures Chain(ps, x) == Chain(ps[k..], Feed(ps, x, k).value)
  {
    if k > 0 {
      ChainSkip(ps, x, k - 1);
      assert ps[k - 1..][0] == ps[k - 1] && ps[k - 1..][1..] == ps[k..];
    }
  }

  /** If stage `k` is the first to fail, the chain returns its result
      unchanged. */
  lemma ChainFailsAt<T(!new)>(ps: seq<Parser<T>>, x: T, k: nat)
    requires k < |ps|
    requires Feed(ps, x, k).Some? && ps[k](Feed(ps, x, k).value).Failure?
    ensures Chain(ps, x) == ps[k](Feed(ps, x, k).value)
  {
    ChainSkip(ps, x, k);
    assert ps[k..][0] == ps[k];
  }

  /** If stage `k` is the first to fail, the composed parser returns its
      result unchanged. */
  lemma AndFailsAt<T(!new)>(ps: seq<Parser<T>>, x: T, k: nat)
    requires k < |ps|
    requires Feed(ps, x, k).Some? && ps[k](Feed(ps, x, k).value).Failure?
    ensures And(ps).Returns?
    ensures And(ps).value(x) == ps[k](Feed(ps, x, k).value)
  {
    ChainFailsAt(ps, x, k);
  }

  /** Stages after the first failing one are never applied: replacing them
      does not change the composed parser's answer. */
  lemma AndIgnoresLaterStages<T(!new)>(ps: seq<Parser<T>>, qs: seq<Parser<T>>, x: T, k: nat)
    requires k < |ps| && k < |qs|
    requires ps[..k + 1] == qs[..k + 1]
    requires Feed(ps, x, k).Some? && ps[k](Feed(ps, x, k).value).Failure?
    ensures And(ps).Returns? && And(qs).Returns?
    ensures And(ps).value(x) == And(qs).value(x)
  {
    assert ps[..k] == ps[..k + 1][..k];
    assert qs[..k] == qs[..k + 1][..k];
    FeedPrefix(ps, qs, x, k);
    assert ps[k] == ps[..k + 1][k] == qs[..k + 1][k] == qs[k];
    AndFailsAt(ps, x, k);
    AndFailsAt(qs, x, k);
  }

  /** If every stage succeeds, the composed parser succeeds with the last
      stage's output; otherwise it fails. */
  lemma AndSucceedsIffAllStagesDo<T(!new)>(ps: seq<Parser<T>>, x: T)
    requires |ps| > 0
    ensures And(ps).Returns?
    ensures And(ps).value(x).Success? <==> Feed(ps, x, |ps|).Some?
    ensures And(ps).value(x).Success? ==>
              And(ps).value(x) == Ok(ps[|ps| - 1](Feed(ps, x, |ps| - 1).value).output)
  {
    ChainTrace(ps, x);
  }
}
