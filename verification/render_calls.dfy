/**
 * Step 4 of `patch_monolith_team_id` in pc2_punto1.py:
 * `re.sub(r"render_template\(([^)]*)\)", add_kw, text)`.
 *
 * A call is `render_template(` + argument text without `)` + `)`; nested
 * parentheses therefore end the match early, as in the source. `add_kw` adds
 * `, TEAM_ID=TEAM_ID_VALUE` to a call whose argument text names `index.html`
 * or `productpage.html` and does not pass `TEAM_ID` yet; every other call is
 * returned unchanged.
 */
module RenderCalls {
  import opened Strings
  import opened Substitution

  // Long literals are written as concatenations of short pieces: the verifier unfolds
  // short literals character by character far more cheaply than one long literal.
  const RenderOpen: string := "render_" + "template("
  /** The keyword name `TEAM_ID`. */
  const KwName: string := "TEAM_ID"
  /** What add_kw puts in place of the closing parenthesis: `, TEAM_ID=TEAM_ID_VALUE)`. */
  const KwSuffix: string := ", " + KwName + "=" + "TEAM_ID_VALUE" + ")"

  /** `render_template\(` + `[^)]*` + `\)`: up to the first `)` after the opening parenthesis. */
  function RenderMatch(s: string): (n: nat)
    ensures n <= |s|
  {
    if RenderOpen <= s then
      var j := SkipUntil(s, 16, ')');
      if j < |s| then j + 1 else 0
    else 0
  }

  /** `\bTEAM_ID\s*=` matches at index `i` of the argument text. */
  predicate TeamIdKwAt(inside: string, i: nat)
  {
    && OccursAt(inside, KwName, i)
    && (i == 0 || !IsWordChar(inside[i - 1]))
    && var j := SkipSpaces(inside, i + 7);
       j < |inside| && inside[j] == '='
  }

  /** `re.search(r"\bTEAM_ID\s*=", inside)` succeeds. */
  predicate HasTeamIdKw(inside: string)
  {
    exists i | 0 <= i <= |inside| :: TeamIdKwAt(inside, i)
  }

  predicate IsQuote(c: char)
  {
    c == '\'' || c == '"'
  }

  /** `['"](?:index|productpage)\.html['"]` matches at index `i`; the two quotes need not agree. */
  predicate TemplateNameAt(inside: string, i: nat)
  {
    && i < |inside| && IsQuote(inside[i])
    && (|| (OccursAt(inside, "index.html", i + 1) && i + 11 < |inside| && IsQuote(inside[i + 11]))
        || (OccursAt(inside, "productpage.html", i + 1) && i + 17 < |inside| && IsQuote(inside[i + 17])))
  }

  /** The argument text names `index.html` or `productpage.html`. */
  predicate NamesTemplate(inside: string)
  {
    exists i | 0 <= i <= |inside| :: TemplateNameAt(inside, i)
  }

  /** The argument text of a matched call: what lies between `render_template(` and the closing `)`. */
  function Inside(m: string): string
    requires |m| >= 17
  {
    m[16..|m| - 1]
  }

  /** A call gets the keyword when it renders a recognised template and does not pass TEAM_ID yet. */
  predicate NeedsKw(m: string)
  {
    |m| >= 17 && !HasTeamIdKw(Inside(m)) && NamesTemplate(Inside(m))
  }

  /** add_kw: the replacement for one matched call. */
  function AddKw(m: string): string
  {
    if NeedsKw(m) then RenderOpen + Inside(m) + KwSuffix else m
  }

  /** The substitution rule of the step. */
  const RenderRule: Rule := Rule(RenderMatch, AddKw)

  /** The step on the whole text. */
  function AddTeamIdKw(text: string): string
  {
    Sub(RenderRule, text)
  }

  // ---------------------------------------------------------------------------
  // What a match is, and what add_kw does with it

  /** `m` is one whole call that the pattern describes. */
  predicate IsRenderCall(m: string)
  {
    |m| >= 17 && RenderOpen <= m && ')' !in Inside(m) && m[|m| - 1] == ')'
  }

  /** The matcher finds a call of length `n` exactly when the first `n` characters form a call. */
  lemma RenderMatchIff(s: string, n: nat)
    requires 0 < n <= |s|
    ensures RenderMatch(s) == n <==> IsRenderCall(s[..n])
  {
    var m := s[..n];
    if RenderMatch(s) == n {
      assert m[..16] == s[..16];
      assert forall k | 0 <= k < |Inside(m)| :: Inside(m)[k] == s[16 + k];
    }
    if IsRenderCall(m) {
      assert s[..16] == m[..16];
      forall k | 16 <= k < n - 1 ensures s[k] != ')' {
        assert s[k] == Inside(m)[k - 16];
      }
      SkipUntilAt(s, 16, ')', n - 1);
    }
  }

  /** Two texts that agree on their first `n` characters have a call of length `n` at the start alike. */
  lemma RenderSamePrefix(a: string, b: string, n: nat)
    requires n <= |a| && n <= |b| && a[..n] == b[..n]
    ensures n > 0 && RenderMatch(a) == n <==> n > 0 && RenderMatch(b) == n
  {
    if n > 0 {
      RenderMatchIff(a, n);
      RenderMatchIff(b, n);
    }
  }

  lemma RenderWindow(t: string, u: string)
    requires 0 < RenderMatch(t) <= |u| && u[..RenderMatch(t)] == t[..RenderMatch(t)]
    ensures RenderMatch(u) == RenderMatch(t)
  {
    RenderSamePrefix(t, u, RenderMatch(t));
  }

  /** A match depends only on the characters it covers. */
  lemma RenderLocal()
    ensures Local(RenderRule)
  {
    forall t, u ensures SameWindow(RenderRule, t, u) {
      if 0 < RenderRule.len(t) <= |u| && u[..RenderRule.len(t)] == t[..RenderRule.len(t)] {
        RenderWindow(t, u);
      }
    }
  }

  /**
   * add_kw changes a call exactly when the call names a recognised template
   * and passes no TEAM_ID; the changed call keeps the argument text and adds
   * the keyword before the closing parenthesis.
   */
  lemma AddKwEffect(m: string)
    requires IsRenderCall(m)
    ensures AddKw(m) != m <==> NamesTemplate(Inside(m)) && !HasTeamIdKw(Inside(m))
    ensures AddKw(m) != m ==> AddKw(m) == RenderOpen + Inside(m) + KwSuffix
    ensures RenderOpen + Inside(m) <= AddKw(m)
  {
    assert m == RenderOpen + Inside(m) + ")";
    assert |KwSuffix| > 1;
  }

  // ---------------------------------------------------------------------------
  // Idempotence

  /** A call whose argument text passes TEAM_ID is left alone. */
  lemma ExtendedCallHasKw(inside: string)
    requires ')' !in inside
    ensures HasTeamIdKw(Inside(RenderOpen + inside + KwSuffix))
  {
    var c := RenderOpen + inside + KwSuffix;
    var arg := Inside(c);
    assert arg == inside + ", " + KwName + "=" + "TEAM_ID_VALUE";
    var i := |inside| + 2;
    assert arg[i..i + 7] == KwName;
    assert arg[i - 1] == ' ';
    assert arg[i + 7] == '=';
    SkipSpacesAt(arg, i + 7, i + 7);
    assert TeamIdKwAt(arg, i);
  }

  /** A whole call is matched in full. */
  lemma CallMatchesWhole(m: string)
    requires IsRenderCall(m)
    ensures RenderMatch(m) == |m|
  {
    assert m[..|m|] == m;
    RenderMatchIff(m, |m|);
  }

  /** Adding the keyword to a call's argument text gives a call again. */
  lemma ExtendedIsCall(inside: string)
    requires ')' !in inside
    ensures IsRenderCall(RenderOpen + inside + KwSuffix)
  {
    var c := RenderOpen + inside + KwSuffix;
    var arg := ", " + KwName + "=" + "TEAM_ID_VALUE";
    assert c == RenderOpen + (inside + arg) + ")";
    assert ')' !in arg;
    assert Inside(c) == inside + arg;
  }

  /** The rewrite of a call is itself one whole call, and rewriting it gives it back. */
  lemma RewriteStable(m: string)
    requires IsRenderCall(m)
    ensures StableChunk(RenderRule, AddKw(m))
  {
    if NeedsKw(m) {
      var c := RenderOpen + Inside(m) + KwSuffix;
      ExtendedIsCall(Inside(m));
      CallMatchesWhole(c);
      ExtendedCallHasKw(Inside(m));
    } else {
      CallMatchesWhole(m);
    }
  }

  lemma RenderChunksStable()
    ensures ChunksStable(RenderRule)
  {
    forall t | RenderRule.len(t) > 0
      ensures StableChunk(RenderRule, RenderRule.rewrite(t[..RenderRule.len(t)]))
    {
      var n := RenderMatch(t);
      RenderMatchIff(t, n);
      RewriteStable(t[..n]);
    }
  }

  /** `render_template(` does not overlap itself: no proper suffix of it is a prefix of it. */
  lemma RenderOpenNoBorder(q: nat)
    requires 0 < q < 16
    ensures !(RenderOpen[q..] <= RenderOpen)
  {
    assert RenderOpen == "rende" + "r" + "_" + "template(";
    assert 'r' !in "ende";
    assert 'r' !in "_template(";
    assert CharAt(RenderOpen, q, 'r') ==> q == 5;
    assert RenderOpen[q..][0] == RenderOpen[q];
    if q == 5 {
      assert RenderOpen[q..][1] == '_';
    }
  }

  /** Every rewrite of a call starts with `render_template(`. */
  lemma RewriteStartsWithOpen(m: string)
    requires IsRenderCall(m)
    ensures RenderOpen <= AddKw(m)
  {
    AddKwEffect(m);
    assert (RenderOpen + Inside(m))[..16] == RenderOpen;
  }

  /** After a kept first character, the output is `s` up to the next call, then text starting with a call's rewrite; or `s` itself. */
  lemma RenderFrontLayout(s: string) returns (j: nat, y: string)
    requires |s| > 0
    ensures j < |s|
    ensures [s[0]] + Sub(RenderRule, s[1..]) == s[..j + 1] + y
    ensures j + 1 < |s| ==> RenderOpen <= y
    ensures j + 1 == |s| ==> y == []
  {
    j, y := SubFrontLayout(RenderRule, s);
    if j + 1 < |s| {
      var u := s[j + 1..];
      var n := RenderMatch(u);
      RenderMatchIff(u, n);
      RewriteStartsWithOpen(u[..n]);
      assert y == AddKw(u[..n]) + Sub(RenderRule, u[n..]);
    }
  }

  /** `s` followed at `j + 1 < 16` by `render_template(` cannot itself start with it. */
  lemma NoOpenAcross(a: string, y: string)
    requires 0 < |a| < 16 && RenderOpen <= y
    ensures !(RenderOpen <= a + y)
  {
    var q := |a|;
    RenderOpenNoBorder(q);
    assert (a + y)[q..16] == RenderOpen[..16 - q];
    assert RenderOpen[q..] == RenderOpen[q..16];
  }

  /** With no `)` in `s`, nothing matches in it. */
  lemma NoCloseNoMatch(s: string)
    requires ')' !in s
    ensures NoMatch(RenderRule, s)
  {
    forall i | 0 <= i <= |s| ensures RenderMatch(s[i..]) == 0 {
      var t := s[i..];
      assert forall k | 0 <= k < |t| :: t[k] == s[i + k];
    }
  }

  /** Rewriting what follows a character where no call starts never makes a call start there. */
  lemma RenderKept(s: string)
    requires |s| > 0 && RenderMatch(s) == 0
    ensures RenderMatch([s[0]] + Sub(RenderRule, s[1..])) == 0
  {
    if RenderOpen <= s {
      // The call is never closed: no `)` anywhere, so nothing changes.
      var j := SkipUntil(s, 16, ')');
      assert j == |s|;
      assert forall k | 0 <= k < 16 :: s[k] == RenderOpen[k];
      assert ')' !in RenderOpen;
      assert ')' !in s[1..];
      NoCloseNoMatch(s[1..]);
      SubNoMatch(RenderRule, s[1..]);
      assert [s[0]] + s[1..] == s;
    } else {
      var j, y := RenderFrontLayout(s);
      KeptNoOpen(s, j, y);
    }
  }

  /** Without `render_template(` at the start of `s`, the layout after a kept character has none either. */
  lemma KeptNoOpen(s: string, j: nat, y: string)
    requires !(RenderOpen <= s) && j < |s|
    requires j + 1 < |s| ==> RenderOpen <= y
    requires j + 1 == |s| ==> y == []
    ensures RenderMatch(s[..j + 1] + y) == 0
  {
    var a := s[..j + 1];
    if j + 1 < 16 && j + 1 < |s| {
      NoOpenAcross(a, y);
    } else if j + 1 < |s| {
      PrefixOfConcat(a, y, 16);
      assert a[..16] == s[..16];
    } else {
      assert a + y == s;
    }
  }

  lemma RenderKeptStable()
    ensures KeptStable(RenderRule)
  {
    forall s | |s| > 0 && RenderRule.len(s) == 0
      ensures RenderRule.len([s[0]] + Sub(RenderRule, s[1..])) == 0
    {
      RenderKept(s);
    }
  }

  /** Running the step a second time changes nothing: each rewritten call now passes TEAM_ID. */
  lemma AddTeamIdKwIdempotent(text: string)
    ensures AddTeamIdKw(AddTeamIdKw(text)) == AddTeamIdKw(text)
  {
    RenderLocal();
    RenderChunksStable();
    RenderKeptStable();
    SubIdempotent(RenderRule, text);
  }

  // ---------------------------------------------------------------------------
  // Framing

  /**
   * Every call is replaced by add_kw's result for it and every other
   * character is copied: the result renders the text's leftmost pieces, whose
   * matched pieces are exactly the calls.
   */
  lemma AddTeamIdKwPieces(ps: seq<Piece>)
    requires Leftmost(RenderRule, ps)
    ensures forall k | 0 <= k < |ps| && ps[k].Matched? :: IsRenderCall(ps[k].text)
    ensures AddTeamIdKw(Source(ps)) == Target(RenderRule, ps)
  {
    MatchedPiecesMatch(RenderRule, ps);
    forall k | 0 <= k < |ps| && ps[k].Matched? ensures IsRenderCall(ps[k].text) {
      var t := ps[k].text;
      var s := t + Source(ps[k + 1..]);
      assert s[..|t|] == t;
      RenderMatchIff(s, |t|);
    }
    SubByPieces(RenderRule, ps);
  }

  // ---------------------------------------------------------------------------
  // What the step cannot destroy

  /**
   * A text that survives the step wherever it occurs: it has no `)`, it does
   * not run into the start of a call, and it does not start inside a call's
   * `render_template(`.
   */
  predicate SurvivesCalls(p: string)
  {
    && |p| > 0 && ')' !in p
    && (forall d | 0 < d < |p| :: !Compatible(p[d..], RenderOpen))
    && (forall q | 0 < q < 16 :: !Compatible(RenderOpen[q..], p))
  }

  /** An occurrence of `p` at `i` that reaches past a call starting at `j` is compatible with `render_template(` from `j - i` on. */
  lemma RunsIntoCall(text: string, p: string, i: nat, j: nat)
    requires OccursAt(text, p, i) && j <= |text|
    requires j < |text| ==> RenderMatch(text[j..]) > 0
    ensures i < j < i + |p| ==> Compatible(p[j - i..], RenderOpen)
  {
    if i < j < i + |p| {
      var d := j - i;
      assert p[d..] == text[j..i + |p|];
      assert RenderOpen <= text[j..];
      if |p[d..]| <= 16 {
        assert p[d..] == RenderOpen[..|p| - d];
      } else {
        assert RenderOpen == p[d..][..16];
      }
    }
  }

  /** An occurrence at `i` inside a leading `render_template(` is compatible with the rest of it. */
  lemma StartsInsideOpen(text: string, p: string, i: nat)
    requires OccursAt(text, p, i) && RenderOpen <= text
    ensures 0 < i < 16 ==> Compatible(RenderOpen[i..], p)
  {
    if 0 < i < 16 {
      if |p| <= 16 - i {
        assert p == text[i..i + |p|] == RenderOpen[i..][..|p|];
      } else {
        assert RenderOpen[i..] == text[i..16] == p[..16 - i];
      }
    }
  }

  /** An occurrence inside a call's argument text, or at its very start, lies within what add_kw keeps. */
  lemma KeptInCall(m: string, p: string, i: nat)
    requires IsRenderCall(m) && OccursAt(m, p, i) && |p| > 0 && ')' !in p
    requires i == 0 || i >= 16
    ensures Contains(AddKw(m), p)
  {
    var keep := RenderOpen + Inside(m);
    assert m == keep + ")";
    assert forall k | 0 <= k < |p| :: p[k] == m[i + k];
    assert i + |p| == |m| ==> CharAt(p, |p| - 1, ')');
    assert keep[i..i + |p|] == p;
    AddKwEffect(m);
    ContainsAt(keep, p, i);
    assert keep == AddKw(m)[..|keep|];
    ContainsAt(AddKw(m), p, i);
  }

  /** An occurrence that starts inside the first call of the text lies within what add_kw keeps of it. */
  lemma KeepsInFirstCall(text: string, p: string, i: nat)
    requires SurvivesCalls(p) && OccursAt(text, p, i)
    requires 0 < RenderMatch(text) && i < RenderMatch(text)
    ensures Contains(AddKw(text[..RenderMatch(text)]), p)
  {
    var n := RenderMatch(text);
    var m := text[..n];
    RenderMatchIff(text, n);
    assert text[n - 1] == m[n - 1] == ')';
    assert forall k | 0 <= k < |p| :: p[k] == text[i + k];
    assert i + |p| >= n ==> CharAt(p, n - 1 - i, ')');
    StartsInsideOpen(text, p, i);
    assert m[i..i + |p|] == p;
    KeptInCall(m, p, i);
  }

  /** When the text starts with `p` and no call, the next call starts after `p` ends. */
  lemma NextCallAfter(text: string, p: string) returns (j: nat)
    requires SurvivesCalls(p) && p <= text && RenderMatch(text) == 0
    ensures |p| <= j <= |text|
    ensures forall k | 0 <= k < j :: RenderRule.len(text[k..]) == 0
  {
    j := NextMatch(RenderRule, text, 1);
    assert text[0..] == text;
    assert OccursAt(text, p, 0);
    RunsIntoCall(text, p, 0, j);
  }

  /** A kept first character where the occurrence starts: it lies before the next call. */
  lemma KeepsAtKept(text: string, p: string)
    requires SurvivesCalls(p) && p <= text && RenderMatch(text) == 0
    ensures Contains(AddTeamIdKw(text), p)
  {
    var j := NextCallAfter(text, p);
    SubSkip(RenderRule, text, j);
    PrefixOfConcat(text[..j], Sub(RenderRule, text[j..]), |p|);
    assert text[..j][..|p|] == p;
    ContainsAt(AddTeamIdKw(text), p, 0);
  }

  /** The step at a call: add_kw's result for it, then the step on the rest. */
  lemma AtCall(text: string)
    requires RenderMatch(text) > 0
    ensures AddTeamIdKw(text) == AddKw(text[..RenderMatch(text)]) + AddTeamIdKw(text[RenderMatch(text)..])
  {
  }

  /** The step at a kept character: the character, then the step on the rest. */
  lemma AtKept(text: string)
    requires |text| > 0 && RenderMatch(text) == 0
    ensures AddTeamIdKw(text) == [text[0]] + AddTeamIdKw(text[1..])
  {
  }

  /** An occurrence inside the first call survives. */
  lemma KeepsAtCall(text: string, p: string, i: nat)
    requires SurvivesCalls(p) && OccursAt(text, p, i)
    requires 0 < RenderMatch(text) && i < RenderMatch(text)
    ensures Contains(AddTeamIdKw(text), p)
  {
    var n := RenderMatch(text);
    AtCall(text);
    KeepsInFirstCall(text, p, i);
    ContainsConcat(AddKw(text[..n]), AddTeamIdKw(text[n..]), p);
  }

  /** What survives after a call survives in the whole text. */
  lemma KeepsAfterCall(text: string, p: string)
    requires 0 < RenderMatch(text) && Contains(AddTeamIdKw(text[RenderMatch(text)..]), p)
    ensures Contains(AddTeamIdKw(text), p)
  {
    var n := RenderMatch(text);
    AtCall(text);
    ContainsConcat(AddKw(text[..n]), AddTeamIdKw(text[n..]), p);
  }

  /** What survives after a kept character survives in the whole text. */
  lemma KeepsAfterKept(text: string, p: string)
    requires |text| > 0 && RenderMatch(text) == 0 && Contains(AddTeamIdKw(text[1..]), p)
    ensures Contains(AddTeamIdKw(text), p)
  {
    AtKept(text);
    ContainsConcat([text[0]], AddTeamIdKw(text[1..]), p);
  }

  /** A text that survives calls, once present, is still present after the step. */
  lemma {:induction false} AddTeamIdKwKeeps(text: string, p: string, i: nat)
    requires SurvivesCalls(p) && OccursAt(text, p, i)
    ensures Contains(AddTeamIdKw(text), p)
    decreases |text|
  {
    var n := RenderMatch(text);
    if n > 0 && i >= n {
      OccursAfter(text, p, i, n);
      AddTeamIdKwKeeps(text[n..], p, i - n);
      KeepsAfterCall(text, p);
    } else if n > 0 {
      KeepsAtCall(text, p, i);
    } else if i > 0 {
      OccursAfter(text, p, i, 1);
      AddTeamIdKwKeeps(text[1..], p, i - 1);
      KeepsAfterKept(text, p);
    } else {
      KeepsAtKept(text, p);
    }
  }

  /** A text without `render_template(` comes back unchanged. */
  lemma AddTeamIdKwNoCall(text: string)
    requires !Contains(text, RenderOpen)
    ensures AddTeamIdKw(text) == text
  {
    forall i | 0 <= i <= |text| ensures RenderRule.len(text[i..]) == 0 {
      if RenderOpen <= text[i..] {
        assert text[i..i + 16] == text[i..][..16];
        assert OccursAt(text, RenderOpen, i);
      }
    }
    SubNoMatch(RenderRule, text);
  }
}
