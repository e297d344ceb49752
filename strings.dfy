/** The string tests casaconfig applies to file names: Python's str.endswith,
    re.search with a plain pattern and with the pattern '.old', and Python's
    code-point ordering of strings. */
module Strings {

  /** Python's `s.endswith(suffix)`. */
  predicate EndsWith(s: string, suffix: string) {
    |suffix| <= |s| && s[|s| - |suffix|..] == suffix
  }

  /** `sub` occurs in `s` starting at index `i`. */
  predicate OccursAt(s: string, sub: string, i: nat) {
    i + |sub| <= |s| && s[i..i + |sub|] == sub
  }

  /** `re.search(sub, s)` succeeds, for a pattern `sub` without metacharacters. */
  predicate Contains(s: string, sub: string) {
    exists i: nat | i <= |s| :: OccursAt(s, sub, i)
  }

  /** The regular expression '.old' matches at index `i`: any character other
      than a newline (what '.' matches by default), then "old". */
  predicate DotOldAt(s: string, i: nat) {
    i + 4 <= |s| && s[i] != '\n' && s[i + 1..i + 4] == "old"
  }

  /** `re.search('.old', s)` succeeds. */
  predicate MatchesDotOld(s: string) {
    exists i: nat | i <= |s| :: DotOldAt(s, i)
  }

  /** Python's `a <= b` on str: lexicographic by code point, a proper prefix
      being smaller. */
  predicate LexLe(a: string, b: string)
    decreases |a|
  {
    |a| == 0 || (|b| > 0 && (a[0] < b[0] || (a[0] == b[0] && LexLe(a[1..], b[1..]))))
  }

  lemma {:induction false} LexLeReflexive(a: string)
    ensures LexLe(a, a)
    decreases |a|
  {
    if |a| > 0 { LexLeReflexive(a[1..]); }
  }

  lemma {:induction false} LexLeTotal(a: string, b: string)
    ensures LexLe(a, b) || LexLe(b, a)
    decreases |a|
  {
    if |a| > 0 && |b| > 0 && a[0] == b[0] { LexLeTotal(a[1..], b[1..]); }
  }

  lemma {:induction false} LexLeAntisymmetric(a: string, b: string)
    requires LexLe(a, b) && LexLe(b, a)
    ensures a == b
    decreases |a|
  {
    if |a| > 0 {
      LexLeAntisymmetric(a[1..], b[1..]);
      assert a == [a[0]] + a[1..] && b == [b[0]] + b[1..];
    }
  }

  lemma {:induction false} LexLeTransitive(a: string, b: string, c: string)
    requires LexLe(a, b) && LexLe(b, c)
    ensures LexLe(a, c)
    decreases |a|
  {
    if |a| > 0 && a[0] == b[0] && b[0] == c[0] { LexLeTransitive(a[1..], b[1..], c[1..]); }
  }

  /** Every character of a pattern that occurs in `s` is in `s`. */
  lemma OccurringCharacter(s: string, sub: string, k: nat)
    requires k < |sub|
    ensures Contains(s, sub) ==> sub[k] in s
  {
    if Contains(s, sub) {
      var i: nat :| i <= |s| && OccursAt(s, sub, i);
      assert s[i + k] == s[i..i + |sub|][k];
    }
  }

  /** A string that '.old' matches has an 'l'. */
  lemma DotOldNeedsL(s: string)
    ensures MatchesDotOld(s) ==> 'l' in s
  {
    if MatchesDotOld(s) {
      var i: nat :| i <= |s| && DotOldAt(s, i);
      assert s[i + 2] == s[i + 1..i + 4][1];
    }
  }
}
