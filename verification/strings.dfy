/**
 * Character classes and substring facts shared by every text pass.
 *
 * The passes treat source files and templates as plain strings; Python's `in`
 * on strings is `Contains`, and the regular-expression character classes the
 * passes use (`\s`, `\b`, `.`) are spelled out here once.
 */
module Strings {

  /** `p` occurs in `s` starting at index `i`. */
  predicate OccursAt(s: string, p: string, i: nat)
  {
    i + |p| <= |s| && s[i..i + |p|] == p
  }

  /** `s` has the character `c` at index `i`. */
  predicate CharAt(s: string, i: int, c: char)
  {
    0 <= i < |s| && s[i] == c
  }

  /** Python's `p in s` for strings. */
  predicate Contains(s: string, p: string)
  {
    exists i | 0 <= i <= |s| :: OccursAt(s, p, i)
  }

  /** One of the two strings is a prefix of the other: they can be laid over each other from the same start. */
  predicate Compatible(a: string, b: string)
  {
    a <= b || b <= a
  }

  /** Python's `\s` on `str` patterns: the characters `str.isspace()` accepts. */
  predicate IsSpace(c: char)
  {
    var n := c as int;
    || (9 <= n <= 13) || (28 <= n <= 32)
    || n == 0x85 || n == 0xA0 || n == 0x1680
    || (0x2000 <= n <= 0x200A)
    || n == 0x2028 || n == 0x2029 || n == 0x202F || n == 0x205F || n == 0x3000
  }

  /** A word character for `\b`, restricted to ASCII letters, digits and `_`. */
  predicate IsWordChar(c: char)
  {
    ('a' <= c <= 'z') || ('A' <= c <= 'Z') || ('0' <= c <= '9') || c == '_'
  }

  /** ASCII lower-casing, used for the case-insensitive template pattern. */
  function Lower(c: char): (d: char)
    ensures !('A' <= d <= 'Z')
    ensures ('a' <= d <= 'z') <==> ('a' <= c <= 'z' || 'A' <= c <= 'Z')
    ensures d == c || d as int == c as int + 32
  {
    if 'A' <= c <= 'Z' then (c as int + 32) as char else c
  }

  /** `word` (lower-case) occurs at `i` in `s` up to ASCII case. */
  predicate WordAtIgnoreCase(s: string, i: nat, word: string)
  {
    i + |word| <= |s| && forall k | 0 <= k < |word| :: Lower(s[i + k]) == word[k]
  }

  /** In multi-line mode `^` matches at `i`: the start of the text or just after a newline. */
  predicate LineStart(s: string, i: nat)
  {
    i <= |s| && (i == 0 || s[i - 1] == '\n')
  }

  /** The end of the run of characters different from `c` that starts at `i`. */
  function SkipUntil(s: string, i: nat, c: char): (j: nat)
    requires i <= |s|
    ensures i <= j <= |s|
    ensures forall k | i <= k < j :: s[k] != c
    ensures j < |s| ==> s[j] == c
    decreases |s| - i
  {
    if i == |s| || s[i] == c then i else SkipUntil(s, i + 1, c)
  }

  /** The end of the run of `\s` characters that starts at `i` (a greedy `\s*`). */
  function SkipSpaces(s: string, i: nat): (j: nat)
    requires i <= |s|
    ensures i <= j <= |s|
    ensures forall k | i <= k < j :: IsSpace(s[k])
    ensures j < |s| ==> !IsSpace(s[j])
    decreases |s| - i
  {
    if i == |s| || !IsSpace(s[i]) then i else SkipSpaces(s, i + 1)
  }

  /** The end of a maximal run is determined by the run's content and the character that stops it. */
  lemma SkipUntilAt(s: string, i: nat, c: char, j: nat)
    requires i <= j < |s|
    requires forall k | i <= k < j :: s[k] != c
    requires s[j] == c
    ensures SkipUntil(s, i, c) == j
  {
  }

  lemma SkipSpacesAt(s: string, i: nat, j: nat)
    requires i <= j <= |s|
    requires forall k | i <= k < j :: IsSpace(s[k])
    requires j < |s| ==> !IsSpace(s[j])
    ensures SkipSpaces(s, i) == j
  {
  }

  /** A witness index proves containment. */
  lemma ContainsAt(s: string, p: string, i: nat)
    requires OccursAt(s, p, i)
    ensures Contains(s, p)
  {
  }

  /** A string contains every string it is built from. */
  lemma ContainsConcat(a: string, b: string, p: string)
    requires Contains(a, p) || Contains(b, p)
    ensures Contains(a + b, p)
  {
    if Contains(a, p) {
      var i :| 0 <= i <= |a| && OccursAt(a, p, i);
      assert (a + b)[i..i + |p|] == a[i..i + |p|];
      assert OccursAt(a + b, p, i);
    } else {
      var i :| 0 <= i <= |b| && OccursAt(b, p, i);
      assert (a + b)[|a| + i..|a| + i + |p|] == b[i..i + |p|];
      assert OccursAt(a + b, p, |a| + i);
    }
  }

  /** Containment is transitive. */
  lemma ContainsTrans(s: string, m: string, p: string)
    requires Contains(s, m) && Contains(m, p)
    ensures Contains(s, p)
  {
    var i :| 0 <= i <= |s| && OccursAt(s, m, i);
    var j :| 0 <= j <= |m| && OccursAt(m, p, j);
    assert forall k | 0 <= k < |p| :: s[i + j + k] == m[j + k] == p[k];
    assert OccursAt(s, p, i + j);
  }

  /** An occurrence at or after `k` is an occurrence in `s[k..]`. */
  lemma OccursAfter(s: string, p: string, i: nat, k: nat)
    requires OccursAt(s, p, i) && k <= i
    ensures OccursAt(s[k..], p, i - k)
  {
    assert s[k..][i - k..i - k + |p|] == s[i..i + |p|];
  }

  /** Putting the first character back in front of a prefix of the rest. */
  lemma ConsPrefix(s: string, j: nat)
    requires j < |s|
    ensures [s[0]] + s[1..][..j] == s[..j + 1]
  {
  }

  /** Concatenation is associative. */
  lemma Assoc(a: string, b: string, c: string)
    ensures a + (b + c) == (a + b) + c
  {
  }

  /** A prefix of `a + b` no longer than `a` is a prefix of `a`. */
  lemma PrefixOfConcat(a: string, b: string, n: nat)
    requires n <= |a|
    ensures (a + b)[..n] == a[..n]
  {
  }

  /** Positions of `a + b` from `|a|` on are positions of `b`. */
  lemma IndexConcat(a: string, b: string)
    ensures forall k | |a| <= k < |a| + |b| :: (a + b)[k] == b[k - |a|]
  {
  }
}
