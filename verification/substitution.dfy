/**
 * Left-to-right, non-overlapping substitution: the scan shared by Python's
 * `str.replace` and `re.sub` for patterns that never match the empty string.
 *
 * A `Rule` pairs a matcher (the length of the match at the start of a text, 0
 * when there is none) with the function that rewrites a match, like the
 * pattern and the replacement function handed to `re.sub`. At each position
 * the scan tries the matcher; on a match it emits the rewritten match and
 * resumes right after it, otherwise it copies one character and moves on.
 *
 * `Sub` is related to an independent, declarative description: a
 * decomposition of the text into kept characters and matched pieces, in which
 * a piece is a match exactly where the rule matches (`Leftmost`). Such a
 * decomposition exists and is unique, and `Sub` renders it.
 */
module Substitution {
  import opened Strings

  /** The length of the match at the start of a text, never past its end; 0 means no match. */
  type Matcher = f: string -> nat | forall t :: f(t) <= |t| witness (t: string) => 0

  /** A pattern and what each of its matches is replaced by. */
  datatype Rule = Rule(len: Matcher, rewrite: string -> string)

  /** No match of `rule` starts anywhere in `s`. */
  predicate NoMatch(rule: Rule, s: string)
  {
    forall i | 0 <= i <= |s| :: rule.len(s[i..]) == 0
  }

  /** Replace every leftmost, non-overlapping match of `rule` in `s`. */
  function Sub(rule: Rule, s: string): string
    decreases |s|
  {
    if |s| == 0 then s
    else if rule.len(s) > 0 then rule.rewrite(s[..rule.len(s)]) + Sub(rule, s[rule.len(s)..])
    else [s[0]] + Sub(rule, s[1..])
  }

  /** A text in which the pattern matches nowhere comes back unchanged. */
  lemma {:induction false} SubNoMatch(rule: Rule, s: string)
    requires NoMatch(rule, s)
    ensures Sub(rule, s) == s
    decreases |s|
  {
    if |s| > 0 {
      assert s[0..] == s;
      forall i | 0 <= i <= |s[1..]| ensures rule.len(s[1..][i..]) == 0 {
        assert s[1..][i..] == s[i + 1..];
      }
      SubNoMatch(rule, s[1..]);
    }
  }

  // ---------------------------------------------------------------------------
  // The declarative description

  /** A character the scan copies, or a piece of text it replaces. */
  datatype Piece = Kept(c: char) | Matched(text: string)

  /** The text a piece was cut from. */
  function Text(p: Piece): string
  {
    match p
    case Kept(c) => [c]
    case Matched(t) => t
  }

  /** The text a sequence of pieces was cut from. */
  function Source(ps: seq<Piece>): string
  {
    if |ps| == 0 then [] else Text(ps[0]) + Source(ps[1..])
  }

  lemma SourceCons(p: Piece, ps: seq<Piece>)
    ensures Source([p] + ps) == Text(p) + Source(ps)
  {
    assert ([p] + ps)[0] == p && ([p] + ps)[1..] == ps;
  }

  /** The text the pieces stand for after every matched piece is rewritten. */
  function Target(rule: Rule, ps: seq<Piece>): string
  {
    if |ps| == 0 then []
    else (match ps[0] case Kept(c) => [c] case Matched(t) => rule.rewrite(t)) + Target(rule, ps[1..])
  }

  /**
   * Every piece is a match of `rule` exactly where `rule` matches the remaining text,
   * and then the whole match: a character is kept only where no match starts.
   */
  predicate Leftmost(rule: Rule, ps: seq<Piece>)
  {
    |ps| == 0 ||
    ((match ps[0]
      case Kept(_) => rule.len(Source(ps)) == 0
      case Matched(t) => |t| > 0 && |t| == rule.len(Source(ps)))
     && Leftmost(rule, ps[1..]))
  }

  /** The leftmost decomposition of `s`: it exists for every text. */
  function Parse(rule: Rule, s: string): (ps: seq<Piece>)
    ensures Source(ps) == s
    ensures Leftmost(rule, ps)
    decreases |s|
  {
    if |s| == 0 then []
    else if rule.len(s) > 0 then
      var n := rule.len(s);
      var rest := Parse(rule, s[n..]);
      assert s[..n] + s[n..] == s;
      LeftmostCons(rule, Matched(s[..n]), rest, s);
      [Matched(s[..n])] + rest
    else
      var rest := Parse(rule, s[1..]);
      assert [s[0]] + s[1..] == s;
      LeftmostCons(rule, Kept(s[0]), rest, s);
      [Kept(s[0])] + rest
  }

  /** A piece that fits the start of `s` in front of a leftmost decomposition of the rest. */
  lemma LeftmostCons(rule: Rule, p: Piece, ps: seq<Piece>, s: string)
    requires Leftmost(rule, ps) && Text(p) + Source(ps) == s
    requires p.Kept? ==> rule.len(s) == 0
    requires p.Matched? ==> |p.text| > 0 && |p.text| == rule.len(s)
    ensures Source([p] + ps) == s && Leftmost(rule, [p] + ps)
  {
    SourceCons(p, ps);
    assert ([p] + ps)[0] == p && ([p] + ps)[1..] == ps;
  }

  /** Every matched piece is a whole match of the rule, whatever text the later pieces hold. */
  lemma {:induction false} MatchedPiecesMatch(rule: Rule, ps: seq<Piece>)
    requires Leftmost(rule, ps)
    ensures forall k | 0 <= k < |ps| && ps[k].Matched? ::
              |ps[k].text| > 0 && rule.len(ps[k].text + Source(ps[k + 1..])) == |ps[k].text|
    decreases |ps|
  {
    if |ps| > 0 {
      MatchedPiecesMatch(rule, ps[1..]);
      forall k | 0 <= k < |ps| && ps[k].Matched?
        ensures |ps[k].text| > 0 && rule.len(ps[k].text + Source(ps[k + 1..])) == |ps[k].text|
      {
        if k > 0 {
          assert ps[k] == ps[1..][k - 1] && ps[k + 1..] == ps[1..][k..];
        }
      }
    }
  }

  /** The leftmost decomposition of a text is unique. */
  lemma {:induction false} LeftmostUnique(rule: Rule, ps: seq<Piece>)
    requires Leftmost(rule, ps)
    ensures ps == Parse(rule, Source(ps))
    decreases |ps|
  {
    if |ps| > 0 {
      var s := Source(ps);
      LeftmostUnique(rule, ps[1..]);
      match ps[0]
      case Kept(c) =>
        assert s == [c] + Source(ps[1..]);
        assert s[1..] == Source(ps[1..]);
        assert ps == [Kept(s[0])] + ps[1..];
      case Matched(t) =>
        assert s == t + Source(ps[1..]);
        assert s[..|t|] == t && s[|t|..] == Source(ps[1..]);
        assert ps == [Matched(t)] + ps[1..];
    }
  }

  /** Substitution renders any leftmost decomposition: matches rewritten, every other character copied. */
  lemma {:induction false} SubByPieces(rule: Rule, ps: seq<Piece>)
    requires Leftmost(rule, ps)
    ensures Sub(rule, Source(ps)) == Target(rule, ps)
    decreases |ps|
  {
    if |ps| > 0 {
      var s := Source(ps);
      SubByPieces(rule, ps[1..]);
      match ps[0]
      case Kept(c) =>
        assert s == [c] + Source(ps[1..]);
        assert s[1..] == Source(ps[1..]);
      case Matched(t) =>
        assert s == t + Source(ps[1..]);
        assert s[..|t|] == t && s[|t|..] == Source(ps[1..]);
    }
  }

  // ---------------------------------------------------------------------------
  // Scanning facts

  /** The first position at or after `i` where `rule` matches, or `|s|` when there is none. */
  function NextMatch(rule: Rule, s: string, i: nat): (j: nat)
    requires i <= |s|
    ensures i <= j <= |s|
    ensures forall k | i <= k < j :: rule.len(s[k..]) == 0
    ensures j < |s| ==> rule.len(s[j..]) > 0
    decreases |s| - i
  {
    if i == |s| || rule.len(s[i..]) > 0 then i else NextMatch(rule, s, i + 1)
  }

  /** The scan stops at `j` when the rule matches there and nowhere between `i` and `j`. */
  lemma {:induction false} NextMatchAt(rule: Rule, s: string, i: nat, j: nat)
    requires i <= j < |s| && rule.len(s[j..]) > 0
    requires forall k | i <= k < j :: rule.len(s[k..]) == 0
    ensures NextMatch(rule, s, i) == j
    decreases j - i
  {
    if i < j {
      NextMatchAt(rule, s, i + 1, j);
    }
  }

  /** Text before the first match is copied unchanged. */
  lemma {:induction false} SubSkip(rule: Rule, s: string, k: nat)
    requires k <= |s|
    requires forall i | 0 <= i < k :: rule.len(s[i..]) == 0
    ensures Sub(rule, s) == s[..k] + Sub(rule, s[k..])
    decreases k
  {
    if k > 0 {
      var t := s[1..];
      assert s[0..] == s;
      SubSkipFirst(rule, s);
      forall i | 0 <= i < k - 1 ensures rule.len(t[i..]) == 0 {
        assert t[i..] == s[i + 1..];
      }
      SubSkip(rule, t, k - 1);
      assert t[k - 1..] == s[k..];
      ConsPrefix(s, k - 1);
      Assoc([s[0]], t[..k - 1], Sub(rule, s[k..]));
    }
  }

  /** A first character where no match starts is copied. */
  lemma SubSkipFirst(rule: Rule, s: string)
    requires |s| > 0 && rule.len(s) == 0
    ensures Sub(rule, s) == [s[0]] + Sub(rule, s[1..])
  {
  }

  /**
   * A match depends only on the characters it covers: any text that agrees
   * with `t` on them matches with the same length. Every regular expression
   * without look-ahead has this property.
   */
  ghost predicate Local(rule: Rule)
  {
    forall t, u :: SameWindow(rule, t, u)
  }

  /** If `u` agrees with `t` on the characters of `t`'s match, `u` matches with the same length. */
  predicate SameWindow(rule: Rule, t: string, u: string)
  {
    0 < rule.len(t) <= |u| && u[..rule.len(t)] == t[..rule.len(t)] ==> rule.len(u) == rule.len(t)
  }

  /** A text that starts with a complete match is rewritten there first. */
  lemma SubAfterMatch(rule: Rule, c: string, x: string)
    requires Local(rule)
    requires |c| > 0 && rule.len(c) == |c|
    ensures Sub(rule, c + x) == rule.rewrite(c) + Sub(rule, x)
  {
    assert (c + x)[..|c|] == c[..|c|];
    assert SameWindow(rule, c, c + x);
    assert rule.len(c + x) == |c|;
    assert (c + x)[..|c|] == c;
    assert (c + x)[|c|..] == x;
  }

  /** A text that starts with a character where no match starts copies it. */
  lemma SubAfterKept(rule: Rule, c: char, x: string)
    requires rule.len([c] + x) == 0
    ensures Sub(rule, [c] + x) == [c] + Sub(rule, x)
  {
    assert ([c] + x)[1..] == x;
  }

  /**
   * After a kept first character, the output is `s` up to the next match in
   * `s[1..]`, followed by that match's rewrite and the rest of the output; or
   * `s` itself when `s[1..]` has no match.
   */
  lemma SubFrontLayout(rule: Rule, s: string) returns (j: nat, y: string)
    requires |s| > 0
    ensures j < |s|
    ensures forall k | 1 <= k <= j :: rule.len(s[k..]) == 0
    ensures [s[0]] + Sub(rule, s[1..]) == s[..j + 1] + y
    ensures j + 1 == |s| ==> y == []
    ensures j + 1 < |s| ==>
              var n := rule.len(s[j + 1..]);
              n > 0 && y == rule.rewrite(s[j + 1..][..n]) + Sub(rule, s[j + 1..][n..])
  {
    var t := s[1..];
    j := NextMatch(rule, t, 0);
    forall k | 1 <= k <= j ensures rule.len(s[k..]) == 0 {
      assert s[k..] == t[k - 1..];
    }
    SubSkip(rule, t, j);
    y := Sub(rule, t[j..]);
    ConsPrefix(s, j);
    Assoc([s[0]], t[..j], y);
    assert t[j..] == s[j + 1..];
  }

  // ---------------------------------------------------------------------------
  // Idempotence

  /** A rewritten match is itself one whole match, which rewriting leaves unchanged. */
  predicate StableChunk(rule: Rule, c: string)
  {
    |c| > 0 && rule.len(c) == |c| && rule.rewrite(c) == c
  }

  /** Every rewrite produces a stable chunk. */
  ghost predicate ChunksStable(rule: Rule)
  {
    forall t :: rule.len(t) > 0 ==> StableChunk(rule, rule.rewrite(t[..rule.len(t)]))
  }

  /** Rewriting what follows a kept character never makes a match start at it. */
  ghost predicate KeptStable(rule: Rule)
  {
    forall s :: |s| > 0 && rule.len(s) == 0 ==> rule.len([s[0]] + Sub(rule, s[1..])) == 0
  }

  /** Under the two conditions above, substituting a second time changes nothing. */
  lemma {:induction false} SubIdempotent(rule: Rule, s: string)
    requires Local(rule) && ChunksStable(rule) && KeptStable(rule)
    ensures Sub(rule, Sub(rule, s)) == Sub(rule, s)
    decreases |s|
  {
    if |s| > 0 {
      var n := rule.len(s);
      if n > 0 {
        var c := rule.rewrite(s[..n]);
        SubIdempotent(rule, s[n..]);
        SubAfterMatch(rule, c, Sub(rule, s[n..]));
      } else {
        SubIdempotent(rule, s[1..]);
        SubAfterKept(rule, s[0], Sub(rule, s[1..]));
      }
    }
  }
}
