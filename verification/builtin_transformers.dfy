/** The `trim` transformer: a parser that always succeeds, with its input
    stripped of leading and trailing WhiteSpace and LineTerminator characters
    as `String.prototype.trim` does (TrimString, section 22.1.3.32 of
    ECMA-262, 2024 edition). */
module BuiltinTransformers {
  import opened Chars
  import opened Parsing

  /** The index of the first character that is not stripped at or after
      `i`, given that everything before `i` is strippable. */
  function SkipLeading(s: string, i: nat): (k: nat)
    requires i <= |s| && AllTrimmable(s[..i])
    ensures i <= k <= |s|
    ensures AllTrimmable(s[..k])
    ensures k < |s| ==> !IsTrimmable(s[k])
    decreases |s| - i
  {
    if i < |s| && IsTrimmable(s[i]) then
      assert s[..i + 1] == s[..i] + [s[i]];
      SkipLeading(s, i + 1)
    else i
  }

  /** The index just past the last character that is not stripped, searching
      down from `j` but not below `lo`, given that everything from `j` on is
      strippable. */
  function SkipTrailing(s: string, lo: nat, j: nat): (k: nat)
    requires lo <= j <= |s| && AllTrimmable(s[j..])
    ensures lo <= k <= j
    ensures AllTrimmable(s[k..])
    ensures k > lo ==> !IsTrimmable(s[k - 1])
    decreases j
  {
    if j > lo && IsTrimmable(s[j - 1]) then
      assert s[j - 1..] == [s[j - 1]] + s[j..];
      SkipTrailing(s, lo, j - 1)
    else j
  }

  /** `r` is `s[a..b]` with only strippable characters cut off around it. */
  ghost predicate CutFrom(s: string, r: string, a: int, b: int) {
    0 <= a <= b <= |s| && r == s[a..b] && AllTrimmable(s[..a]) && AllTrimmable(s[b..])
  }

  /** `r` starts and ends with a character that is not stripped. */
  predicate Bare(r: string) {
    |r| > 0 ==> !IsTrimmable(r[0]) && !IsTrimmable(r[|r| - 1])
  }

  /** `value.trim()`. */
  function TrimString(s: string): (r: string)
    ensures Bare(r)
    ensures exists a, b :: CutFrom(s, r, a, b)
  {
    var a := SkipLeading(s, 0);
    assert s[|s|..] == [];
    var b := SkipTrailing(s, a, |s|);
    assert CutFrom(s, s[a..b], a, b);
    s[a..b]
  }

  /** The `trim` parser: `ok(value.trim())`. */
  function Trim(v: string): (r: ParserResult<string>)
    ensures r.Success?
    ensures Bare(r.output)
    ensures exists a, b :: CutFrom(v, r.output, a, b)
  {
    Ok(TrimString(v))
  }

  /** A bare cut of `s` is unique: whichever way `r` is obtained from `s` by
      cutting only strippable characters from the ends, if `r` is bare it is
      the result of `trim`. */
  lemma TrimUnique(s: string, r: string, a: int, b: int)
    requires CutFrom(s, r, a, b) && Bare(r)
    ensures TrimString(s) == r
  {
    var a0 := SkipLeading(s, 0);
    assert s[|s|..] == [];
    var b0 := SkipTrailing(s, a0, |s|);
    if |r| > 0 {
      assert s[a] == r[0] && s[b - 1] == r[|r| - 1];
      assert a0 == a;
      assert b0 == b;
    } else {
      assert a0 == |s|;
    }
  }

  /** Trimming twice is trimming once. */
  lemma TrimIdempotent(s: string)
    ensures TrimString(TrimString(s)) == TrimString(s)
  {
    var r := TrimString(s);
    assert r[..0] == [] && r[|r|..] == [] && r[0..|r|] == r;
    TrimUnique(r, r, 0, |r|);
  }

  /** A string with nothing strippable at either end is returned as it is. */
  lemma TrimKeepsBare(s: string)
    requires Bare(s)
    ensures Trim(s) == Ok(s)
  {
    assert s[..0] == [] && s[|s|..] == [] && s[0..|s|] == s;
    TrimUnique(s, s, 0, |s|);
  }

  /** The example of the rule's tests. */
  lemma TrimExample()
    ensures Trim(" abcd ") == Ok("abcd")
  {
    var s := " abcd ";
    assert s[..1] == " " && s[5..] == " " && s[1..5] == "abcd";
    TrimUnique(s, "abcd", 1, 5);
  }
}
