/**
 * Python's `s.replace(needle, replacement)` for a non-empty needle: every
 * leftmost, non-overlapping occurrence is replaced, scanning left to right.
 */
module LiteralReplace {
  import opened Strings
  import opened Substitution

  /** A non-empty search string. */
  type Needle = s: string | |s| > 0 witness "?"

  /** Matches exactly `needle` at the start of a text. */
  function LiteralMatcher(needle: Needle): Matcher
  {
    (t: string) => if needle <= t then |needle| else 0
  }

  /** The substitution rule of `str.replace(needle, replacement)`. */
  function Replacing(needle: Needle, replacement: string): Rule
  {
    Rule(LiteralMatcher(needle), _ => replacement)
  }

  /** `s.replace(needle, replacement)`. */
  function Replace(s: string, needle: Needle, replacement: string): string
  {
    Sub(Replacing(needle, replacement), s)
  }

  /** The literal rule matches at `i` exactly where `needle` occurs at `i`, and then covers it. */
  lemma MatchIffOccurs(s: string, needle: Needle, replacement: string, i: nat)
    requires i <= |s|
    ensures var n := Replacing(needle, replacement).len(s[i..]);
            (n > 0 <==> OccursAt(s, needle, i)) && (n > 0 ==> n == |needle|)
  {
    if i + |needle| <= |s| {
      assert s[i..][..|needle|] == s[i..i + |needle|];
    }
  }

  /** The rule finds no match anywhere exactly when the needle does not occur. */
  lemma NoMatchIffAbsent(s: string, needle: Needle, replacement: string)
    ensures NoMatch(Replacing(needle, replacement), s) <==> !Contains(s, needle)
  {
    forall i | 0 <= i <= |s| {
      MatchIffOccurs(s, needle, replacement, i);
    }
  }

  /** Zero occurrences: the text comes back unchanged. */
  lemma ReplaceAbsent(s: string, needle: Needle, replacement: string)
    requires !Contains(s, needle)
    ensures Replace(s, needle, replacement) == s
  {
    NoMatchIffAbsent(s, needle, replacement);
    SubNoMatch(Replacing(needle, replacement), s);
  }

  /** When the needle occurs, the replacement text appears in the result. */
  lemma ReplacePresent(s: string, needle: Needle, replacement: string)
    requires Contains(s, needle)
    ensures Contains(Replace(s, needle, replacement), replacement)
  {
    var rule := Replacing(needle, replacement);
    NoMatchIffAbsent(s, needle, replacement);
    assert rule.len(s[|s|..]) == 0;
    var j := NextMatch(rule, s, 0);
    assert j < |s|;
    SubSkip(rule, s, j);
    var u := s[j..];
    var tail := Sub(rule, u[|needle|..]);
    assert Sub(rule, u) == replacement + tail;
    assert OccursAt(replacement + tail, replacement, 0);
    ContainsAt(replacement + tail, replacement, 0);
    ContainsConcat(s[..j], Sub(rule, u), replacement);
  }

  /** The declarative reading: every matched piece is the needle, and the result renders the pieces. */
  lemma ReplaceRendersPieces(needle: Needle, replacement: string, ps: seq<Piece>)
    requires Leftmost(Replacing(needle, replacement), ps)
    ensures forall k | 0 <= k < |ps| && ps[k].Matched? :: ps[k].text == needle
    ensures Replace(Source(ps), needle, replacement) == Target(Replacing(needle, replacement), ps)
  {
    MatchedPiecesMatch(Replacing(needle, replacement), ps);
    forall k | 0 <= k < |ps| && ps[k].Matched? ensures ps[k].text == needle {
      var t := ps[k].text;
      var s := t + Source(ps[k + 1..]);
      MatchIffOccurs(s, needle, replacement, 0);
      assert s[..|t|] == t;
    }
    SubByPieces(Replacing(needle, replacement), ps);
  }

  // ---------------------------------------------------------------------------
  // When no occurrence can survive

  /**
   * The replacement cannot take part in a new occurrence of the needle: no
   * suffix of the replacement lines up with the start of the needle, and no
   * proper suffix of the needle lines up with the start of the replacement.
   */
  predicate NoOverlap(needle: Needle, replacement: string)
  {
    && (forall i | 0 <= i < |replacement| :: !Compatible(replacement[i..], needle))
    && (forall d | 0 < d < |needle| :: !Compatible(needle[d..], replacement))
  }

  /** No overlap when the needle's first character is absent from the replacement and vice versa. */
  lemma NoOverlapByFirstChars(needle: Needle, replacement: string)
    requires |replacement| > 0
    requires needle[0] !in replacement && replacement[0] !in needle
    ensures NoOverlap(needle, replacement)
  {
    forall i | 0 <= i < |replacement| ensures !Compatible(replacement[i..], needle) {
      assert replacement[i..][0] == replacement[i];
    }
    forall d | 0 < d < |needle| ensures !Compatible(needle[d..], replacement) {
      assert needle[d..][0] == needle[d];
    }
  }

  /**
   * No overlap when the needle's last character occurs nowhere else in the
   * needle and only at the very end of a replacement at least as long that
   * does not end with the needle.
   */
  lemma NoOverlapByLastChar(needle: Needle, replacement: string)
    requires |replacement| >= |needle|
    requires needle[|needle| - 1] !in needle[..|needle| - 1]
    requires replacement[|replacement| - 1] == needle[|needle| - 1]
    requires needle[|needle| - 1] !in replacement[..|replacement| - 1]
    requires replacement[|replacement| - |needle|..] != needle
    ensures NoOverlap(needle, replacement)
  {
    var e := needle[|needle| - 1];
    var last := |replacement| - 1;
    forall i | 0 <= i < |replacement| ensures !Compatible(replacement[i..], needle) {
      if |replacement| - i >= |needle| {
        var k := i + |needle| - 1;
        if k < last {
          assert replacement[..last][k] == replacement[i..][|needle| - 1];
        }
      } else {
        var k := last - i;
        assert needle[..|needle| - 1][k] == needle[k];
        assert replacement[i..][k] == e;
      }
    }
    forall d | 0 < d < |needle| ensures !Compatible(needle[d..], replacement) {
      var k := |needle| - 1 - d;
      assert replacement[..last][k] == replacement[k];
      assert needle[d..][k] == e;
    }
  }

  /** An occurrence in `r + x` that is not inside `x` must line up with a suffix of `r`. */
  lemma NoneAcross(r: string, x: string, needle: Needle)
    requires forall i | 0 <= i < |r| :: !Compatible(r[i..], needle)
    requires !Contains(x, needle)
    ensures !Contains(r + x, needle)
  {
    forall i | 0 <= i <= |r + x| ensures !OccursAt(r + x, needle, i) {
      if i + |needle| <= |r + x| {
        var w := (r + x)[i..i + |needle|];
        if i >= |r| {
          assert w == x[i - |r|..i - |r| + |needle|];
          assert !OccursAt(x, needle, i - |r|);
        } else if |r| - i >= |needle| {
          assert w == r[i..][..|needle|];
        } else {
          assert w[..|r| - i] == r[i..];
        }
      }
    }
  }

  /** A kept first character cannot become the start of an occurrence once the rest is replaced. */
  lemma NotAtFront(s: string, needle: Needle, replacement: string)
    requires NoOverlap(needle, replacement)
    requires |s| > 0 && !(needle <= s)
    ensures !(needle <= [s[0]] + Replace(s[1..], needle, replacement))
  {
    var j, y := FrontLayout(s, needle, replacement);
    if j + 1 < |needle| {
      assert !Compatible(needle[j + 1..], replacement);
    }
    NotPrefixAcross(s, needle, replacement, j, y);
  }

  /** The needle is not a prefix of a prefix of `s` continued by text that starts with the replacement. */
  lemma NotPrefixAcross(s: string, needle: Needle, replacement: string, j: nat, y: string)
    requires j < |s| && !(needle <= s)
    requires j + 1 < |s| ==> replacement <= y
    requires j + 1 < |s| && j + 1 < |needle| ==> !Compatible(needle[j + 1..], replacement)
    requires j + 1 == |s| ==> y == []
    ensures !(needle <= s[..j + 1] + y)
  {
    var out := s[..j + 1] + y;
    if |needle| <= j + 1 {
      assert out[..|needle|] == s[..|needle|];
    } else if j + 1 < |s| && |needle| <= |out| {
      var d := j + 1;
      assert out[d..] == y;
      assert out[..|needle|][d..] == y[..|needle| - d];
    }
  }

  /**
   * `[s[0]] + Replace(s[1..])` is `s` up to the first match in `s[1..]`,
   * followed by text that starts with the replacement; or `s` itself when
   * `s[1..]` has no match.
   */
  lemma FrontLayout(s: string, needle: Needle, replacement: string) returns (j: nat, y: string)
    requires |s| > 0
    ensures j < |s|
    ensures [s[0]] + Replace(s[1..], needle, replacement) == s[..j + 1] + y
    ensures j + 1 < |s| ==> replacement <= y
    ensures j + 1 == |s| ==> y == []
  {
    var rule := Replacing(needle, replacement);
    j, y := SubFrontLayout(rule, s);
    if j + 1 < |s| {
      MatchIffOccurs(s, needle, replacement, j + 1);
    }
  }

  /** An occurrence in `[c] + x` that is not inside `x` starts at the front. */
  lemma NoneAfterFront(c: char, x: string, needle: Needle)
    requires !(needle <= [c] + x)
    requires !Contains(x, needle)
    ensures !Contains([c] + x, needle)
  {
    forall i | 0 <= i <= |[c] + x| ensures !OccursAt([c] + x, needle, i) {
      if 0 < i && i + |needle| <= |[c] + x| {
        assert ([c] + x)[i..i + |needle|] == x[i - 1..i - 1 + |needle|];
        assert !OccursAt(x, needle, i - 1);
      }
    }
  }

  /** Without overlap, no occurrence of the needle is left in the result. */
  lemma {:induction false} ReplaceLeavesNone(s: string, needle: Needle, replacement: string)
    requires NoOverlap(needle, replacement)
    ensures !Contains(Replace(s, needle, replacement), needle)
    decreases |s|
  {
    var rule := Replacing(needle, replacement);
    if |s| == 0 {
      assert Replace(s, needle, replacement) == [];
    } else if needle <= s {
      assert rule.len(s) == |needle|;
      ReplaceLeavesNone(s[|needle|..], needle, replacement);
      NoneAcross(replacement, Replace(s[|needle|..], needle, replacement), needle);
    } else {
      assert rule.len(s) == 0;
      ReplaceLeavesNone(s[1..], needle, replacement);
      NotAtFront(s, needle, replacement);
      NoneAfterFront(s[0], Replace(s[1..], needle, replacement), needle);
    }
  }

  /** Without overlap, replacing a second time changes nothing. */
  lemma ReplaceIdempotent(s: string, needle: Needle, replacement: string)
    requires NoOverlap(needle, replacement)
    ensures Replace(Replace(s, needle, replacement), needle, replacement) == Replace(s, needle, replacement)
  {
    ReplaceLeavesNone(s, needle, replacement);
    ReplaceAbsent(Replace(s, needle, replacement), needle, replacement);
  }
}
