/** The regular expression `/^.+@.+\..+$/` that both `email` rules match
    against. Its meaning is stated once as the regular-expression semantics
    (a split of the whole string into three non-empty runs of characters that
    `.` matches, separated by `@` and `.`) and once as a two-search scan;
    `ScanMatchesRegex` shows the two agree on every string. */
module EmailRegex {
  import opened Common
  import opened Chars

  const EmailSource: string := "^.+@.+\\..+$"

  /** What `.+` matches: a non-empty run of non-LineTerminator characters. */
  predicate DotPlus(s: string) {
    |s| > 0 && NoLineTerminator(s)
  }

  /** The anchored expression matches `v` with its `@` at index `i` and its
      escaped `.` at index `j`. */
  ghost predicate SplitsAt(v: string, i: int, j: int) {
    && 0 <= i < j < |v|
    && v[i] == '@' && v[j] == '.'
    && DotPlus(v[..i]) && DotPlus(v[i + 1..j]) && DotPlus(v[j + 1..])
  }

  /** The regular-expression semantics of `/^.+@.+\..+$/` (no flags). */
  ghost predicate RegexAccepts(v: string) {
    exists i, j :: SplitsAt(v, i, j)
  }

  /** The first index at or after `start` holding `c`, or `|v|` if none. */
  function IndexOfFrom(v: string, c: char, start: nat): (k: nat)
    requires start <= |v|
    ensures start <= k <= |v|
    ensures k < |v| ==> v[k] == c
    ensures forall t :: start <= t < k ==> v[t] != c
    decreases |v| - start
  {
    if start == |v| || v[start] == c then start else IndexOfFrom(v, c, start + 1)
  }

  /** The executable test: no line terminator anywhere, an `@` after at least
      one character, and a `.` at least two characters after that `@` with at
      least one character following it. Taking the leftmost qualifying `@`
      and then the leftmost qualifying `.` loses no match. */
  predicate EmailShape(v: string) {
    && NoLineTerminator(v)
    && 1 <= |v|
    && var i := IndexOfFrom(v, '@', 1);
       i + 2 <= |v| && IndexOfFrom(v, '.', i + 2) + 2 <= |v|
  }

  const EmailPattern: Pattern := Pattern(EmailSource, EmailShape)

  lemma ScanMatchesRegex(v: string)
    ensures EmailShape(v) <==> RegexAccepts(v)
  {
    if EmailShape(v) {
      var i := IndexOfFrom(v, '@', 1);
      var j := IndexOfFrom(v, '.', i + 2);
      assert SplitsAt(v, i, j);
    }
    if RegexAccepts(v) {
      var i, j :| SplitsAt(v, i, j);
      forall k | 0 <= k < |v|
        ensures !IsLineTerminator(v[k])
      {
        if k < i {
          assert v[..i][k] == v[k];
        } else if i < k < j {
          assert v[i + 1..j][k - i - 1] == v[k];
        } else if j < k {
          assert v[j + 1..][k - j - 1] == v[k];
        }
      }
      var i0 := IndexOfFrom(v, '@', 1);
      assert i0 <= i;
      var j0 := IndexOfFrom(v, '.', i0 + 2);
      assert j0 <= j;
    }
  }
}
