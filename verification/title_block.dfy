/**
 * `patch_template_block_title` and `patch_templates` in pc2_punto1.py: the
 * first Jinja `title` block of a template is replaced by a fixed block that
 * shows the team id; a template without one is an error.
 *
 * The pattern is `\{%\s*block\s+title\s*%\}.*?\{%\s*endblock\s*%\}` with
 * `re.I | re.S` and `count=1`: an opening tag, then the shortest stretch of
 * any characters (line breaks included) up to the first closing tag.
 */
module TitleBlock {
  import opened Wrappers
  import opened Strings

  /**
   * One element of a Jinja tag pattern: a literal, a word compared up to
   * ASCII case (`re.I`), or a greedy run of `\s` (`\s+` when `atLeastOne`).
   * In both tag patterns a run is followed by a word or literal that does not
   * start with whitespace, so the greedy run is the only way to match.
   */
  datatype Token = Lit(s: string) | Word(s: string) | Spaces(atLeastOne: bool)

  /** Where one token's match starting at `i` ends, if it matches. */
  function Step(w: string, i: nat, t: Token): (r: Option<nat>)
    requires i <= |w|
    ensures r.Some? ==> i <= r.value <= |w|
  {
    match t
    case Lit(s) => if OccursAt(w, s, i) then Some(i + |s|) else None
    case Word(s) => if WordAtIgnoreCase(w, i, s) then Some(i + |s|) else None
    case Spaces(one) =>
      var j := SkipSpaces(w, i);
      if one && j == i then None else Some(j)
  }

  /** Where the tokens' match starting at `i` ends, if they all match in turn. */
  function Scan(w: string, i: nat, toks: seq<Token>): (r: Option<nat>)
    requires i <= |w|
    ensures r.Some? ==> i <= r.value <= |w|
    decreases |toks|
  {
    if |toks| == 0 then Some(i)
    else match Step(w, i, toks[0])
      case None => None
      case Some(j) => Scan(w, j, toks[1..])
  }

  /**
   * Every literal and word is non-empty and does not start with whitespace,
   * and every run of spaces is followed by one of them.
   */
  predicate WellFormed(toks: seq<Token>)
    decreases |toks|
  {
    || |toks| == 0
    || (&& (if toks[0].Spaces? then |toks| > 1 && !toks[1].Spaces?
            else |toks[0].s| > 0 && !IsSpace(toks[0].s[0]))
        && WellFormed(toks[1..]))
  }

  /** `\s*block\s+title\s*%}`: the opening tag after its `{%`. */
  const OpenRest: seq<Token> := [Spaces(false), Word("block"), Spaces(true), Word("title"), Spaces(false), Lit("%}")]
  /** `\s*endblock\s*%}`: the closing tag after its `{%`. */
  const CloseRest: seq<Token> := [Spaces(false), Word("endblock"), Spaces(false), Lit("%}")]

  /** The length of a tag, `{%` followed by a match of `rest`, at the start of `w`; 0 when there is none. */
  function TagLen(w: string, rest: seq<Token>): (n: nat)
    ensures n <= |w|
    ensures n > 0 ==> n >= 2 && w[0] == '{' && w[1] == '%'
  {
    if |w| >= 2 && w[0] == '{' && w[1] == '%' then
      match Scan(w, 2, rest)
      case None => 0
      case Some(e) => e
    else 0
  }

  /** The length of `{%\s*block\s+title\s*%}` at the start of `w`, 0 when it does not match. */
  function OpenLen(w: string): (n: nat)
    ensures n <= |w|
    ensures n > 0 ==> n >= 2 && w[0] == '{' && w[1] == '%'
  {
    TagLen(w, OpenRest)
  }

  /** The length of `{%\s*endblock\s*%}` at the start of `w`, 0 when it does not match. */
  function CloseLen(w: string): (n: nat)
    ensures n <= |w|
    ensures n > 0 ==> n >= 2 && w[0] == '{' && w[1] == '%'
  {
    TagLen(w, CloseRest)
  }

  /** The lazy `.*?`: the first position at or after `i` where a closing tag starts. */
  function FirstClose(w: string, i: nat): (r: Option<nat>)
    requires i <= |w|
    ensures r.Some? ==> i <= r.value < |w| && CloseLen(w[r.value..]) > 0
    decreases |w| - i
  {
    if CloseLen(w[i..]) > 0 then Some(i)
    else if i == |w| then None
    else FirstClose(w, i + 1)
  }

  /** The length of a whole title block at the start of `w`, 0 when there is none. */
  function BlockLen(w: string): (n: nat)
    ensures n <= |w|
  {
    var o := OpenLen(w);
    if o == 0 then 0
    else match FirstClose(w, o)
      case None => 0
      case Some(q) => q + CloseLen(w[q..])
  }

  // Long literals are written as concatenations of short pieces: the verifier unfolds
  // short literals character by character far more cheaply than one long literal.
  /** What the first block is replaced by. */
  const OpenTag: string := "{% block " + "title %}"
  const Body: string := "{{ TEAM_ID }}" + " - Simple " + "Bookstore App"
  const CloseTag: string := "{% end" + "block %}"
  const Replacement: string := OpenTag + Body + CloseTag

  /** Whether a title block starts anywhere in `html`. */
  predicate HasBlock(html: string)
  {
    exists k | 0 <= k < |html| :: BlockLen(html[k..]) > 0
  }

  /** The leftmost start of a title block at or after `i`, or `|html|` when there is none. */
  function FirstBlock(html: string, i: nat): (j: nat)
    requires i <= |html|
    ensures i <= j <= |html|
    ensures j < |html| ==> BlockLen(html[j..]) > 0
    ensures forall k | i <= k < j :: BlockLen(html[k..]) == 0
    decreases |html| - i
  {
    if i == |html| || BlockLen(html[i..]) > 0 then i else FirstBlock(html, i + 1)
  }

  datatype TitleError = NoTitleBlock

  /** `patch_template_block_title` on the template's text: the first block replaced, or an error when there is none. */
  function PatchBlockTitle(html: string): (r: Result<string, TitleError>)
    ensures r.Err? <==> !HasBlock(html)
  {
    var j := FirstBlock(html, 0);
    if j == |html| then Err(NoTitleBlock)
    else
      Ok(Splice(html, j, BlockLen(html[j..])))
  }

  /** `html` with its `n` characters from `j` on replaced by the fixed block. */
  function Splice(html: string, j: nat, n: nat): string
    requires j + n <= |html|
  {
    html[..j] + Replacement + html[j + n..]
  }

  // ---------------------------------------------------------------------------
  // Where the replacement goes


  /**
   * On success the text before the first block and the text after it are
   * kept, the first block is replaced, and any later block stays as it was.
   */
  lemma PatchBlockTitleLayout(html: string) returns (j: nat, n: nat)
    requires PatchBlockTitle(html).Ok?
    ensures j + n <= |html| && n > 0 && n == BlockLen(html[j..])
    ensures forall k | 0 <= k < j :: BlockLen(html[k..]) == 0
    ensures PatchBlockTitle(html) == Ok(Splice(html, j, n))
  {
    j := FirstBlock(html, 0);
    n := BlockLen(html[j..]);
  }

  // ---------------------------------------------------------------------------
  // The tags depend only on their own characters

  /** A match of well-formed tokens depends only on the characters it covers. */
  lemma {:induction false} ScanWindow(w: string, v: string, i: nat, toks: seq<Token>, e: nat)
    requires WellFormed(toks) && i <= |w| && Scan(w, i, toks) == Some(e)
    requires e <= |v| && forall k | i <= k < e :: v[k] == w[k]
    ensures Scan(v, i, toks) == Some(e)
    decreases |toks|
  {
    if |toks| > 0 {
      var j := Step(w, i, toks[0]).value;
      var rest := toks[1..];
      ScanWindow(w, v, j, rest, e);
      match toks[0]
      case Lit(s) =>
        assert v[i..j] == w[i..j];
      case Word(s) =>
      case Spaces(one) =>
        ScanPastSpaces(w, j, rest, e);
        SkipSpacesAt(v, i, j);
    }
  }

  /** After a run of spaces comes a non-empty word or literal, so the match goes on past the run. */
  lemma ScanPastSpaces(w: string, j: nat, rest: seq<Token>, e: nat)
    requires j <= |w| && |rest| > 0 && !rest[0].Spaces? && |rest[0].s| > 0
    requires Scan(w, j, rest) == Some(e)
    ensures j < e
  {
    var j2 := Step(w, j, rest[0]).value;
    assert j2 == j + |rest[0].s|;
  }

  /** No token of a well-formed list without `{` matches a `{`. */
  lemma {:induction false} ScanNoBrace(w: string, i: nat, toks: seq<Token>, e: nat)
    requires i <= |w| && Scan(w, i, toks) == Some(e)
    requires forall k | 0 <= k < |toks| && !toks[k].Spaces? :: '{' !in toks[k].s
    ensures forall t | i <= t < e :: w[t] != '{'
    decreases |toks|
  {
    if |toks| > 0 {
      var j := Step(w, i, toks[0]).value;
      var rest := toks[1..];
      forall k | 0 <= k < |rest| && !rest[k].Spaces? ensures '{' !in rest[k].s {
        assert rest[k] == toks[k + 1];
      }
      ScanNoBrace(w, j, rest, e);
      match toks[0]
      case Lit(s) =>
        assert forall t | i <= t < j :: w[t] == s[t - i];
      case Word(s) =>
        assert forall t | i <= t < j :: Lower(w[t]) == s[t - i];
      case Spaces(_) =>
        assert !IsSpace('{');
    }
  }

  lemma TokensFacts()
    ensures WellFormed(OpenRest) && WellFormed(CloseRest)
    ensures forall k | 0 <= k < |OpenRest| && !OpenRest[k].Spaces? :: '{' !in OpenRest[k].s
  {
  }

  lemma OpenWindow(w: string, v: string)
    requires 0 < OpenLen(w) <= |v| && v[..OpenLen(w)] == w[..OpenLen(w)]
    ensures OpenLen(v) == OpenLen(w)
  {
    var n := OpenLen(w);
    assert forall k | 0 <= k < n :: v[k] == w[k] by {
      forall k | 0 <= k < n ensures v[k] == w[k] {
        assert v[..n][k] == w[..n][k];
      }
    }
    TokensFacts();
    ScanWindow(w, v, 2, OpenRest, n);
  }

  lemma CloseWindow(w: string, v: string)
    requires 0 < CloseLen(w) <= |v| && v[..CloseLen(w)] == w[..CloseLen(w)]
    ensures CloseLen(v) == CloseLen(w)
  {
    var n := CloseLen(w);
    assert forall k | 0 <= k < n :: v[k] == w[k] by {
      forall k | 0 <= k < n ensures v[k] == w[k] {
        assert v[..n][k] == w[..n][k];
      }
    }
    TokensFacts();
    ScanWindow(w, v, 2, CloseRest, n);
  }

  /** An opening tag has no `{` after its first character. */
  lemma OpenNoBrace(w: string)
    ensures forall t | 0 < t < OpenLen(w) :: w[t] != '{'
  {
    if OpenLen(w) > 0 {
      TokensFacts();
      ScanNoBrace(w, 2, OpenRest, OpenLen(w));
    }
  }

  // ---------------------------------------------------------------------------
  // The replacement is a block of its own

  /** One token of a list matched: the rest of the list goes on from where it ended. */
  lemma ScanAt(w: string, i: nat, toks: seq<Token>, m: nat, j: nat)
    requires i <= |w| && m < |toks| && Step(w, i, toks[m]) == Some(j)
    ensures Scan(w, i, toks[m..]) == Scan(w, j, toks[m + 1..])
  {
    assert toks[m..][0] == toks[m];
    assert toks[m..][1..] == toks[m + 1..];
  }

  /** How each token of the opening tag matches the fixed `{% block title %}`. */
  lemma OpenTagWords()
    ensures Step(OpenTag, 3, OpenRest[1]) == Some(8)
    ensures Step(OpenTag, 9, OpenRest[3]) == Some(14)
  {
    assert OpenTag == "{% block title %}";
    assert WordAtIgnoreCase(OpenTag, 3, "block");
    assert WordAtIgnoreCase(OpenTag, 9, "title");
  }

  lemma OpenTagSpaces()
    ensures Step(OpenTag, 2, OpenRest[0]) == Some(3)
    ensures Step(OpenTag, 8, OpenRest[2]) == Some(9)
    ensures Step(OpenTag, 14, OpenRest[4]) == Some(15)
    ensures Step(OpenTag, 15, OpenRest[5]) == Some(17)
  {
    var w := OpenTag;
    assert w == "{% block title %}";
    SkipSpacesAt(w, 2, 3);
    SkipSpacesAt(w, 8, 9);
    SkipSpacesAt(w, 14, 15);
    assert OccursAt(w, "%}", 15);
  }

  lemma OpenTagLen()
    ensures OpenLen(OpenTag) == 17
  {
    var w := OpenTag;
    var r := OpenRest;
    assert |w| == 17 && w[0] == '{' && w[1] == '%';
    OpenTagWords();
    OpenTagSpaces();
    assert r[0..] == r;
    ScanAt(w, 2, r, 0, 3);
    ScanAt(w, 3, r, 1, 8);
    ScanAt(w, 8, r, 2, 9);
    ScanAt(w, 9, r, 3, 14);
    ScanAt(w, 14, r, 4, 15);
    ScanAt(w, 15, r, 5, 17);
    assert |r[6..]| == 0;
  }

  /** How each token of the closing tag matches the fixed `{% endblock %}`. */
  lemma CloseTagSteps()
    ensures Step(CloseTag, 2, CloseRest[0]) == Some(3)
    ensures Step(CloseTag, 3, CloseRest[1]) == Some(11)
    ensures Step(CloseTag, 11, CloseRest[2]) == Some(12)
    ensures Step(CloseTag, 12, CloseRest[3]) == Some(14)
  {
    var w := CloseTag;
    assert w == "{% endblock %}";
    SkipSpacesAt(w, 2, 3);
    assert WordAtIgnoreCase(w, 3, "endblock");
    SkipSpacesAt(w, 11, 12);
    assert OccursAt(w, "%}", 12);
  }

  lemma CloseTagLen()
    ensures CloseLen(CloseTag) == 14
  {
    var w := CloseTag;
    var r := CloseRest;
    assert |w| == 14 && w[0] == '{' && w[1] == '%';
    CloseTagSteps();
    assert r[0..] == r;
    ScanAt(w, 2, r, 0, 3);
    ScanAt(w, 3, r, 1, 11);
    ScanAt(w, 11, r, 2, 12);
    ScanAt(w, 12, r, 3, 14);
    assert |r[4..]| == 0;
  }

  lemma ReplacementStart()
    ensures |Replacement| > 0 && Replacement[0] == '{'
  {
    assert Replacement[0] == OpenTag[0];
  }

  /** The replacement's characters that decide where its closing tag is. */
  lemma ReplacementChars()
    ensures |Replacement| == 17 + |Body| + 14
    ensures Replacement[..17] == OpenTag
    ensures Replacement[17 + |Body|..] == CloseTag
    ensures forall t | 18 <= t < 17 + |Body| + 1 :: Replacement[t] != '%'
  {
    assert '%' !in Body;
    assert |OpenTag| == 17 && |CloseTag| == 14;
    assert forall t | 17 <= t < 17 + |Body| :: Replacement[t] == Body[t - 17];
    assert Replacement[17 + |Body|] == '{';
  }

  /** The lazy search stops at the first closing tag. */
  lemma {:induction false} FirstCloseAt(w: string, i: nat, q: nat)
    requires i <= q < |w| && CloseLen(w[q..]) > 0
    requires forall k | i <= k < q :: CloseLen(w[k..]) == 0
    ensures FirstClose(w, i) == Some(q)
    decreases q - i
  {
    if i < q {
      FirstCloseAt(w, i + 1, q);
    }
  }

  /** No closing tag at or after `i` is missed: the search finds it or an earlier one. */
  lemma {:induction false} FirstCloseBefore(w: string, i: nat, p: nat)
    requires i <= p < |w| && CloseLen(w[p..]) > 0
    ensures FirstClose(w, i).Some? && FirstClose(w, i).value <= p
    decreases p - i
  {
    if i < p && CloseLen(w[i..]) == 0 {
      FirstCloseBefore(w, i + 1, p);
    }
  }

  lemma ReplacementOpens(rest: string)
    ensures OpenLen(Replacement + rest) == 17
  {
    var v := Replacement + rest;
    ReplacementChars();
    OpenTagLen();
    assert v[..17] == OpenTag[..17];
    OpenWindow(OpenTag, v);
  }

  lemma ReplacementCloses(rest: string)
    ensures CloseLen((Replacement + rest)[17 + |Body|..]) == 14
  {
    var v := Replacement + rest;
    var q := 17 + |Body|;
    ReplacementChars();
    CloseTagLen();
    assert v[q..][..14] == CloseTag[..14];
    CloseWindow(CloseTag, v[q..]);
  }

  lemma ReplacementBodyNoClose(rest: string)
    ensures forall k | 17 <= k < 17 + |Body| :: CloseLen((Replacement + rest)[k..]) == 0
  {
    var v := Replacement + rest;
    var q := 17 + |Body|;
    ReplacementChars();
    forall k | 17 <= k < q ensures CloseLen(v[k..]) == 0 {
      assert v[k..][1] == Replacement[k + 1];
    }
  }

  /** The replacement followed by any text starts with a block that is exactly the replacement. */
  lemma ReplacementIsBlock(rest: string)
    ensures BlockLen(Replacement + rest) == |Replacement|
  {
    var v := Replacement + rest;
    var q := 17 + |Body|;
    ReplacementChars();
    ReplacementOpens(rest);
    ReplacementCloses(rest);
    ReplacementBodyNoClose(rest);
    FirstCloseAt(v, 17, q);
  }

  // ---------------------------------------------------------------------------
  // What the scanner matches, stated without the scanner

  /** `t` is exactly one match of the token. */
  predicate TokenMatches(t: string, tok: Token)
  {
    match tok
    case Lit(s) => t == s
    case Word(s) => |t| == |s| && forall k | 0 <= k < |t| :: Lower(t[k]) == s[k]
    case Spaces(one) => (one ==> |t| > 0) && forall k | 0 <= k < |t| :: IsSpace(t[k])
  }

  /** `t` splits into consecutive matches of the tokens, in order: the pattern with backtracking. */
  predicate Matches(t: string, toks: seq<Token>)
    decreases |toks|
  {
    if |toks| == 0 then |t| == 0
    else exists k | 0 <= k <= |t| :: TokenMatches(t[..k], toks[0]) && Matches(t[k..], toks[1..])
  }

  /**
   * `t` is a whole tag: `{%` followed by a match of `rest`, and nothing more.
   * With `OpenRest` it is `{%\s*block\s+title\s*%}`, with `CloseRest` `{%\s*endblock\s*%}`.
   */
  predicate IsTag(t: string, rest: seq<Token>)
  {
    |t| >= 2 && t[0] == '{' && t[1] == '%' && Matches(t[2..], rest)
  }

  /** No closing tag lies inside `m` starting in `[o, q)`. */
  predicate NoCloseBetween(m: string, o: nat, q: nat)
  {
    forall p, e | o <= p < q && p < e <= |m| :: !IsTag(m[p..e], CloseRest)
  }

  /** `m` is an opening tag of length `o`, a body without closing tags, and a closing tag from `q` to the end. */
  predicate BlockShape(m: string, o: nat, q: nat)
  {
    && 0 < o <= q < |m|
    && IsTag(m[..o], OpenRest) && IsTag(m[q..], CloseRest)
    && NoCloseBetween(m, o, q)
  }

  /** `m` is one whole title block as the lazy pattern takes it. */
  predicate IsTitleBlock(m: string)
  {
    exists o, q | 0 < o <= q < |m| :: BlockShape(m, o, q)
  }

  /** A text that matches tokens starting with a word or literal starts with a non-space. */
  lemma MatchesStart(t: string, toks: seq<Token>)
    requires WellFormed(toks) && |toks| > 0 && !toks[0].Spaces? && Matches(t, toks)
    ensures |t| > 0 && !IsSpace(t[0])
  {
    var k :| 0 <= k <= |t| && TokenMatches(t[..k], toks[0]) && Matches(t[k..], toks[1..]);
    var s := toks[0].s;
    assert t[..k][0] == t[0];
    assert Lower(t[0]) == s[0] || t[0] == s[0];
  }

  /** One token: the scanner's step ends at `j` when `w[i..j]` matches the token and the rest can follow. */
  lemma StepMatches(w: string, i: nat, toks: seq<Token>, j: nat, e: nat)
    requires i <= j <= e <= |w| && WellFormed(toks) && |toks| > 0
    requires TokenMatches(w[i..j], toks[0]) && Matches(w[j..e], toks[1..])
    ensures Step(w, i, toks[0]) == Some(j)
  {
    if toks[0].Spaces? {
      assert WellFormed(toks[1..]) && |toks[1..]| > 0 && !toks[1..][0].Spaces?;
      MatchesStart(w[j..e], toks[1..]);
      assert w[j..e][0] == w[j];
      SpacesStep(w, i, toks[0].atLeastOne, j);
    } else {
      WordStep(w, i, toks[0], j);
    }
  }

  /** A greedy run of spaces stops exactly at the first non-space. */
  lemma SpacesStep(w: string, i: nat, one: bool, j: nat)
    requires i <= j < |w| && !IsSpace(w[j]) && TokenMatches(w[i..j], Spaces(one))
    ensures Step(w, i, Spaces(one)) == Some(j)
  {
    assert forall k | i <= k < j :: w[k] == w[i..j][k - i];
    SkipSpacesAt(w, i, j);
  }

  lemma WordStep(w: string, i: nat, tok: Token, j: nat)
    requires i <= j <= |w| && !tok.Spaces? && TokenMatches(w[i..j], tok)
    ensures Step(w, i, tok) == Some(j)
  {
    if tok.Word? {
      assert forall k | 0 <= k < |tok.s| :: w[i + k] == w[i..j][k];
    }
  }

  /** The scanner ends at `e` exactly when the text it covers splits into the tokens' matches. */
  lemma ScanMatches(w: string, i: nat, toks: seq<Token>, e: nat)
    requires WellFormed(toks) && i <= e <= |w|
    ensures Scan(w, i, toks) == Some(e) <==> Matches(w[i..e], toks)
  {
    if Scan(w, i, toks) == Some(e) {
      ScanGivesMatches(w, i, toks, e);
    }
    if Matches(w[i..e], toks) {
      MatchesGiveScan(w, i, toks, e);
    }
  }

  lemma {:induction false} ScanGivesMatches(w: string, i: nat, toks: seq<Token>, e: nat)
    requires i <= e <= |w| && Scan(w, i, toks) == Some(e)
    ensures Matches(w[i..e], toks)
    decreases |toks|
  {
    if |toks| > 0 {
      var t := w[i..e];
      var j := Step(w, i, toks[0]).value;
      ScanGivesMatches(w, j, toks[1..], e);
      StepGivesMatch(w, i, toks[0], j);
      assert t[..j - i] == w[i..j] && t[j - i..] == w[j..e];
    }
  }

  lemma StepGivesMatch(w: string, i: nat, tok: Token, j: nat)
    requires i <= |w| && Step(w, i, tok) == Some(j)
    ensures TokenMatches(w[i..j], tok)
  {
    match tok
    case Lit(s) =>
    case Word(s) =>
      assert forall k | 0 <= k < |s| :: w[i..j][k] == w[i + k];
    case Spaces(_) =>
      assert forall k | 0 <= k < j - i :: w[i..j][k] == w[i + k];
  }

  /** Where the first token's match ends in a split of `w[i..e]`. */
  lemma MatchesFirst(w: string, i: nat, toks: seq<Token>, e: nat) returns (j: nat)
    requires i <= e <= |w| && |toks| > 0 && Matches(w[i..e], toks)
    ensures i <= j <= e && TokenMatches(w[i..j], toks[0]) && Matches(w[j..e], toks[1..])
  {
    var t := w[i..e];
    var k :| 0 <= k <= |t| && TokenMatches(t[..k], toks[0]) && Matches(t[k..], toks[1..]);
    j := i + k;
    assert t[..k] == w[i..j] && t[k..] == w[j..e];
  }

  lemma {:induction false} MatchesGiveScan(w: string, i: nat, toks: seq<Token>, e: nat)
    requires WellFormed(toks) && i <= e <= |w| && Matches(w[i..e], toks)
    ensures Scan(w, i, toks) == Some(e)
    decreases |toks|
  {
    if |toks| > 0 {
      var j := MatchesFirst(w, i, toks, e);
      StepMatches(w, i, toks, j, e);
      MatchesGiveScan(w, j, toks[1..], e);
    }
  }

  /** The scanner finds a tag of length `n` exactly when the first `n` characters are one. */
  lemma TagLenIff(w: string, n: nat, rest: seq<Token>)
    requires WellFormed(rest)
    ensures TagLen(w, rest) == n > 0 <==> n <= |w| && IsTag(w[..n], rest)
  {
    if n <= |w| && n >= 2 {
      ScanMatches(w, 2, rest, n);
      assert w[..n][2..] == w[2..n];
    }
  }

  /** A tag inside the first `n` characters of `w`, from `p` to `e`, is one that the scanner finds at `p`. */
  lemma TagWithin(w: string, n: nat, p: nat, e: nat, rest: seq<Token>)
    requires p <= e <= n <= |w| && WellFormed(rest)
    ensures IsTag(w[..n][p..e], rest) <==> TagLen(w[p..], rest) == e - p > 0
  {
    assert w[..n][p..e] == w[p..][..e - p];
    TagLenIff(w[p..], e - p, rest);
  }

  lemma TagAtStart(w: string, n: nat, o: nat, rest: seq<Token>)
    requires o <= n <= |w| && WellFormed(rest)
    ensures IsTag(w[..n][..o], rest) <==> TagLen(w, rest) == o > 0
  {
    assert w[..n][..o] == w[..o];
    TagLenIff(w, o, rest);
  }

  lemma TagAtEnd(w: string, n: nat, q: nat, rest: seq<Token>)
    requires q <= n <= |w| && WellFormed(rest)
    ensures IsTag(w[..n][q..], rest) <==> TagLen(w[q..], rest) == n - q > 0
  {
    assert w[..n][q..] == w[..n][q..n];
    TagWithin(w, n, q, n, rest);
  }

  /** A closing tag has no `{` after its first character. */
  lemma CloseNoBrace(w: string)
    ensures forall t | 0 < t < CloseLen(w) :: w[t] != '{'
  {
    if CloseLen(w) > 0 {
      TokensFacts();
      ScanNoBrace(w, 2, CloseRest, CloseLen(w));
    }
  }

  /** `BlockLen` finds a block of length `n` exactly when the first `n` characters are one title block. */
  lemma BlockLenIff(w: string, n: nat)
    ensures BlockLen(w) == n > 0 <==> n <= |w| && IsTitleBlock(w[..n])
  {
    if BlockLen(w) == n > 0 {
      BlockIsTitleBlock(w);
    }
    if n <= |w| && IsTitleBlock(w[..n]) {
      TitleBlockIsBlock(w, n);
    }
  }

  lemma BlockIsTitleBlock(w: string)
    requires BlockLen(w) > 0
    ensures IsTitleBlock(w[..BlockLen(w)])
  {
    var n := BlockLen(w);
    var o := OpenLen(w);
    var q := FirstClose(w, o).value;
    BlockShapeOf(w, n, o, q);
  }

  lemma BlockShapeOf(w: string, n: nat, o: nat, q: nat)
    requires 0 < o <= |w| && OpenLen(w) == o && FirstClose(w, o) == Some(q)
    requires n == q + CloseLen(w[q..])
    ensures BlockShape(w[..n], o, q)
  {
    TokensFacts();
    TagAtStart(w, n, o, OpenRest);
    TagAtEnd(w, n, q, CloseRest);
    BodyHasNoClose(w, n, o, q);
  }

  /** Before the first closing tag the body holds no closing tag, not even one inside the block. */
  lemma BodyHasNoClose(w: string, n: nat, o: nat, q: nat)
    requires n <= |w| && o <= |w| && FirstClose(w, o) == Some(q)
    ensures NoCloseBetween(w[..n], o, q)
  {
    TokensFacts();
    forall p, e | o <= p < q && p < e <= n ensures !IsTag(w[..n][p..e], CloseRest) {
      TagWithin(w, n, p, e, CloseRest);
      if CloseLen(w[p..]) > 0 {
        FirstCloseBefore(w, o, p);
      }
    }
  }

  lemma TitleBlockIsBlock(w: string, n: nat)
    requires n <= |w| && IsTitleBlock(w[..n])
    ensures BlockLen(w) == n
  {
    var o, q :| 0 < o <= q < n && BlockShape(w[..n], o, q);
    BlockOfShape(w, n, o, q);
  }

  lemma BlockOfShape(w: string, n: nat, o: nat, q: nat)
    requires n <= |w| && BlockShape(w[..n], o, q)
    ensures BlockLen(w) == n
  {
    TokensFacts();
    TagAtStart(w, n, o, OpenRest);
    TagAtEnd(w, n, q, CloseRest);
    NoCloseBefore(w, n, o, q);
    FirstCloseAt(w, o, q);
  }

  /**
   * A closing tag starting in the body cannot end inside the block, and it
   * cannot reach past the block either: it would cover the `{` at `q`.
   */
  lemma NoCloseBefore(w: string, n: nat, o: nat, q: nat)
    requires o <= q < n <= |w| && CloseLen(w[q..]) > 0 && NoCloseBetween(w[..n], o, q)
    ensures forall p | o <= p < q :: CloseLen(w[p..]) == 0
  {
    TokensFacts();
    forall p | o <= p < q ensures CloseLen(w[p..]) == 0 {
      var c := CloseLen(w[p..]);
      if c > 0 {
        if p + c <= n {
          TagWithin(w, n, p, p + c, CloseRest);
        } else {
          CloseNoBrace(w[p..]);
        }
      }
    }
  }

  const MixedOpen: string := "{%BLOCK\n title%}"
  const MixedClose: string := "{%EndBlock%}"
  /** A block with tags in mixed case and line breaks in a tag and in the body. */
  const MixedBlock: string := MixedOpen + "a\nb" + MixedClose

  /** How each token of the opening tag matches `{%BLOCK\n title%}`. */
  lemma MixedOpenWords()
    ensures Step(MixedOpen, 2, OpenRest[1]) == Some(7)
    ensures Step(MixedOpen, 9, OpenRest[3]) == Some(14)
  {
    assert MixedOpen == "{%BLOCK\n title%}";
    assert WordAtIgnoreCase(MixedOpen, 2, "block");
    assert WordAtIgnoreCase(MixedOpen, 9, "title");
  }

  lemma MixedOpenSpaces()
    ensures Step(MixedOpen, 2, OpenRest[0]) == Some(2)
    ensures Step(MixedOpen, 7, OpenRest[2]) == Some(9)
    ensures Step(MixedOpen, 14, OpenRest[4]) == Some(14)
    ensures Step(MixedOpen, 14, OpenRest[5]) == Some(16)
  {
    var w := MixedOpen;
    assert w == "{%BLOCK\n title%}";
    SkipSpacesAt(w, 2, 2);
    SkipSpacesAt(w, 7, 9);
    SkipSpacesAt(w, 14, 14);
    assert OccursAt(w, "%}", 14);
  }

  lemma MixedOpenLen()
    ensures OpenLen(MixedOpen) == 16
  {
    var w := MixedOpen;
    var r := OpenRest;
    assert |w| == 16 && w[0] == '{' && w[1] == '%';
    MixedOpenWords();
    MixedOpenSpaces();
    assert r[0..] == r;
    ScanAt(w, 2, r, 0, 2);
    ScanAt(w, 2, r, 1, 7);
    ScanAt(w, 7, r, 2, 9);
    ScanAt(w, 9, r, 3, 14);
    ScanAt(w, 14, r, 4, 14);
    ScanAt(w, 14, r, 5, 16);
    assert |r[6..]| == 0;
  }

  /** How each token of the closing tag matches `{%EndBlock%}`. */
  lemma MixedCloseSteps()
    ensures Step(MixedClose, 2, CloseRest[0]) == Some(2)
    ensures Step(MixedClose, 2, CloseRest[1]) == Some(10)
    ensures Step(MixedClose, 10, CloseRest[2]) == Some(10)
    ensures Step(MixedClose, 10, CloseRest[3]) == Some(12)
  {
    var w := MixedClose;
    assert w == "{%EndBlock%}";
    assert WordAtIgnoreCase(w, 2, "endblock");
    SkipSpacesAt(w, 2, 2);
    SkipSpacesAt(w, 10, 10);
    assert OccursAt(w, "%}", 10);
  }

  lemma MixedCloseLen()
    ensures CloseLen(MixedClose) == 12
  {
    var w := MixedClose;
    var r := CloseRest;
    assert |w| == 12 && w[0] == '{' && w[1] == '%';
    MixedCloseSteps();
    assert r[0..] == r;
    ScanAt(w, 2, r, 0, 2);
    ScanAt(w, 2, r, 1, 10);
    ScanAt(w, 10, r, 2, 10);
    ScanAt(w, 10, r, 3, 12);
    assert |r[4..]| == 0;
  }

  /** The mixed-case block is found whole: its opening tag, then the first closing tag after the body. */
  lemma MixedBlockLen()
    ensures BlockLen(MixedBlock) == |MixedBlock| == 31
  {
    var v := MixedBlock;
    MixedOpenLen();
    MixedCloseLen();
    assert |v| == 31;
    assert v[..16] == MixedOpen[..16];
    OpenWindow(MixedOpen, v);
    assert v[19..][..12] == MixedClose[..12];
    CloseWindow(MixedClose, v[19..]);
    forall k | 16 <= k < 19 ensures CloseLen(v[k..]) == 0 {
      assert v[k..][0] == v[k] != '{';
    }
    FirstCloseAt(v, 16, 19);
  }

  /** The tags are matched up to ASCII case, and whitespace and the body may span lines. */
  lemma MixedBlockIsBlock()
    ensures IsTitleBlock(MixedBlock)
  {
    MixedBlockLen();
    WholeBlock(MixedBlock);
  }

  /** A text that `BlockLen` takes whole is a title block. */
  lemma WholeBlock(m: string)
    requires BlockLen(m) == |m| > 0
    ensures IsTitleBlock(m)
  {
    BlockLenIff(m, |m|);
    assert m[..|m|] == m;
  }

  // ---------------------------------------------------------------------------
  // Idempotence

  /** An opening tag followed, anywhere later, by a closing tag makes a block. */
  lemma CloseLaterGivesBlock(u: string, p: nat)
    requires OpenLen(u) > 0 && OpenLen(u) <= p < |u| && CloseLen(u[p..]) > 0
    ensures BlockLen(u) > 0
  {
    FirstCloseBefore(u, OpenLen(u), p);
  }

  /** A block's closing tag lies inside it. */
  lemma BlockHasClose(w: string) returns (p: nat)
    requires BlockLen(w) > 0
    ensures p < |w| && CloseLen(w[p..]) > 0 && OpenLen(w) <= p
  {
    p := FirstClose(w, OpenLen(w)).value;
  }

  /**
   * An opening tag that starts in the kept text before a spliced-in text
   * that begins with `{` ends before it, so it is an opening tag of the
   * original too.
   */
  lemma OpenBeforeKept(html: string, j: nat, n: nat, r: string, k: nat)
    requires j < |html| && j + n <= |html| && k < j && |r| > 0 && r[0] == '{'
    ensures var w := (html[..j] + r + html[j + n..])[k..];
            OpenLen(w) > 0 ==> OpenLen(w) <= j - k && OpenLen(html[k..]) == OpenLen(w)
  {
    var out := html[..j] + r + html[j + n..];
    var w := out[k..];
    var o := OpenLen(w);
    if o > 0 {
      OpenNoBrace(w);
      assert w[j - k] == '{';
      var u := html[k..];
      assert u[..o] == w[..o];
      OpenWindow(w, u);
    }
  }

  /** A closing tag at `p` in `html[j..]` is one at `j - k + p` in `html[k..]`. */
  lemma CloseShift(html: string, j: nat, k: nat, p: nat)
    requires k < j && j + p < |html| && CloseLen(html[j..][p..]) > 0
    ensures CloseLen(html[k..][j - k + p..]) > 0
  {
    assert html[k..][j - k + p..] == html[j..][p..];
  }

  /** An opening tag that ends before a block starts makes a block of its own. */
  lemma OpenBeforeBlock(html: string, j: nat, k: nat)
    requires j < |html| && BlockLen(html[j..]) > 0 && k < j
    requires 0 < OpenLen(html[k..]) <= j - k
    ensures BlockLen(html[k..]) > 0
  {
    var p := BlockHasClose(html[j..]);
    CloseShift(html, j, k, p);
    var u := html[k..];
    var q := j - k + p;
    assert q < |u|;
    assert CloseLen(u[q..]) > 0;
    assert 0 < OpenLen(u) <= q;
    CloseLaterGivesBlock(u, q);
  }

  /** An opening tag before the replaced block would, in the original, open a block that ends at or before that block's end. */
  lemma OpenBefore(html: string, j: nat, n: nat, r: string, k: nat)
    requires j < |html| && n == BlockLen(html[j..]) > 0 && k < j && |r| > 0 && r[0] == '{'
    ensures OpenLen((html[..j] + r + html[j + n..])[k..]) > 0 ==> BlockLen(html[k..]) > 0
  {
    OpenBeforeKept(html, j, n, r, k);
    var w := (html[..j] + r + html[j + n..])[k..];
    if OpenLen(w) > 0 {
      assert 0 < OpenLen(html[k..]) <= j - k;
      OpenBeforeBlock(html, j, k);
    }
  }

  /** No block starts before a spliced-in text that begins with `{` unless one started there in the original. */
  lemma NoBlockBefore(html: string, j: nat, n: nat, r: string, out: string)
    requires j < |html| && n == BlockLen(html[j..]) > 0 && |r| > 0 && r[0] == '{'
    requires forall k | 0 <= k < j :: BlockLen(html[k..]) == 0
    requires out == html[..j] + r + html[j + n..]
    ensures forall k | 0 <= k < j :: BlockLen(out[k..]) == 0
  {
    forall k | 0 <= k < j ensures BlockLen(out[k..]) == 0 {
      OpenBefore(html, j, n, r, k);
    }
  }

  /** The pieces of a spliced text. */
  lemma SpliceParts(html: string, j: nat, n: nat)
    requires j + n <= |html|
    ensures var out := Splice(html, j, n);
            && |out| == |html| - n + |Replacement|
            && out[..j] == html[..j]
            && out[j..] == Replacement + html[j + n..]
            && out[j + |Replacement|..] == html[j + n..]
  {
    Parts(html[..j], Replacement, html[j + n..]);
  }

  lemma Parts(a: string, r: string, b: string)
    ensures var t := a + r + b;
            && t[..|a|] == a
            && t[|a|..] == r + b
            && t[|a| + |r|..] == b
  {
    assert (a + r + b)[|a|..] == r + b;
  }

  /** Splicing the replacement over itself changes nothing. */
  lemma SpliceSelf(html: string, j: nat, n: nat)
    requires j + n <= |html|
    ensures Splice(Splice(html, j, n), j, |Replacement|) == Splice(html, j, n)
  {
    SpliceParts(html, j, n);
  }

  /** The search for the first block stops at `j` when a block starts there and none starts before. */
  lemma FirstBlockAt(s: string, j: nat)
    requires j < |s| && BlockLen(s[j..]) > 0
    requires forall k | 0 <= k < j :: BlockLen(s[k..]) == 0
    ensures FirstBlock(s, 0) == j
  {
  }

  /** The output's first block is the replacement itself, at the same place. */
  lemma FirstBlockOfOutput(html: string, j: nat, n: nat)
    requires j < |html| && n == BlockLen(html[j..]) > 0
    requires forall k | 0 <= k < j :: BlockLen(html[k..]) == 0
    ensures j + |Replacement| <= |Splice(html, j, n)|
    ensures FirstBlock(Splice(html, j, n), 0) == j
    ensures BlockLen(Splice(html, j, n)[j..]) == |Replacement|
  {
    var out := Splice(html, j, n);
    ReplacementStart();
    assert out == html[..j] + Replacement + html[j + n..];
    NoBlockBefore(html, j, n, Replacement, out);
    SpliceParts(html, j, n);
    ReplacementIsBlock(html[j + n..]);
    FirstBlockAt(out, j);
  }

  /** A second run gives the same text: it replaces the replacement by itself. */
  lemma PatchBlockTitleIdempotent(html: string)
    requires PatchBlockTitle(html).Ok?
    ensures PatchBlockTitle(PatchBlockTitle(html).value) == PatchBlockTitle(html)
  {
    var j, n := PatchBlockTitleLayout(html);
    FirstBlockOfOutput(html, j, n);
    SpliceSelf(html, j, n);
  }

  // ---------------------------------------------------------------------------
  // patch_templates: both templates, productpage first

  datatype TemplateName = Productpage | Index

  datatype TemplatesError = Missing(name: TemplateName) | NoBlock(name: TemplateName)

  /** The two template files after the run (`None` when a file does not exist) and how the run ended. */
  datatype TemplatesRun = TemplatesRun(productpage: Option<string>, index: Option<string>, outcome: Result<(), TemplatesError>)

  /**
   * Both files must exist before either is touched; then productpage is
   * patched and written, then index. The step is not atomic: when only
   * index lacks a title block, productpage has already been rewritten.
   */
  function PatchTemplates(productpage: Option<string>, index: Option<string>): (r: TemplatesRun)
    ensures r.productpage.Some? == productpage.Some? && r.index.Some? == index.Some?
    ensures r.outcome == Err(Missing(Productpage)) <==> productpage.None?
    ensures r.outcome == Err(Missing(Index)) <==> productpage.Some? && index.None?
    ensures r.outcome.Err? && r.outcome.error.Missing? ==> r.productpage == productpage && r.index == index
    ensures r.outcome == Err(NoBlock(Productpage)) <==>
              productpage.Some? && index.Some? && !HasBlock(productpage.value)
    ensures r.outcome == Err(NoBlock(Index)) <==>
              productpage.Some? && index.Some? && HasBlock(productpage.value) && !HasBlock(index.value)
    ensures r.outcome.Ok? <==>
              productpage.Some? && index.Some? && HasBlock(productpage.value) && HasBlock(index.value)
    ensures if productpage.Some? && index.Some? && HasBlock(productpage.value)
            then r.productpage == Some(PatchBlockTitle(productpage.value).value)
            else r.productpage == productpage
    ensures if r.outcome.Ok? then index.Some? && r.index == Some(PatchBlockTitle(index.value).value)
            else r.index == index
  {
    if productpage.None? then TemplatesRun(productpage, index, Err(Missing(Productpage)))
    else if index.None? then TemplatesRun(productpage, index, Err(Missing(Index)))
    else match PatchBlockTitle(productpage.value)
      case Err(_) => TemplatesRun(productpage, index, Err(NoBlock(Productpage)))
      case Ok(p) =>
        match PatchBlockTitle(index.value)
        case Err(_) => TemplatesRun(Some(p), index, Err(NoBlock(Index)))
        case Ok(i) => TemplatesRun(Some(p), Some(i), Ok(()))
  }

  /**
   * Running the step again on what it left behind changes nothing and ends
   * the same way, also after a partial failure: the already patched
   * productpage is patched into itself.
   */
  lemma PatchTemplatesRerun(productpage: Option<string>, index: Option<string>)
    ensures var r := PatchTemplates(productpage, index);
            PatchTemplates(r.productpage, r.index) == r
  {
    if productpage.Some? && index.Some? && PatchBlockTitle(productpage.value).Ok? {
      PatchBlockTitleIdempotent(productpage.value);
      if PatchBlockTitle(index.value).Ok? {
        PatchBlockTitleIdempotent(index.value);
      }
    }
  }
}
