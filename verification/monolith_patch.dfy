/**
 * `patch_monolith_team_id` in pc2_punto1.py: find the end of the
 * `from __future__ import` block, put `import os` and the `TEAM_ID_VALUE`
 * assignment there, pass `TEAM_ID=TEAM_ID_VALUE` to the render calls of the
 * two pages, write the file, and validate it.
 */
module MonolithPatch {
  import opened Wrappers
  import opened Strings
  import opened Substitution
  import opened RenderCalls

  // ---------------------------------------------------------------------------
  // Step 1: the end of the `from __future__ import` block

  // Long literals are written as concatenations of short pieces: the verifier unfolds
  // short literals character by character far more cheaply than one long literal.
  const FutureHead: string := "from " + "__future__" + " import "

  /** `from __future__ import .+\n` matches at `i`: the head, at least one more character, and a line end. */
  predicate FutureLineAt(text: string, i: nat)
  {
    && OccursAt(text, FutureHead, i)
    && var k := SkipUntil(text, i + 23, '\n');
       i + 23 < k < |text|
  }

  /** Where the line that starts at `i` continues: just after its `\n`. */
  function LineEnd(text: string, i: nat): (e: nat)
    requires FutureLineAt(text, i)
    ensures i + 23 < e <= |text| && text[e - 1] == '\n'
    ensures forall q | i <= q < e - 1 :: text[q] != '\n'
    ensures forall q | i < q < e :: !LineStart(text, q)
  {
    assert text[i..i + 23] == FutureHead;
    assert forall q | i <= q < i + 23 :: text[q] == FutureHead[q - i];
    assert '\n' !in FutureHead;
    SkipUntil(text, i + 23, '\n') + 1
  }

  /**
   * The end of the greedy run `(from __future__ import .+\n)+` from `i`:
   * every line in between is a future import, and the line at the end is not.
   */
  function RunEnd(text: string, i: nat): (e: nat)
    requires i <= |text|
    ensures i <= e <= |text| && !FutureLineAt(text, e)
    ensures e > i ==> FutureLineAt(text, i) && text[e - 1] == '\n'
    ensures forall q | i <= q < e && (q == i || LineStart(text, q)) :: FutureLineAt(text, q)
    decreases |text| - i
  {
    if FutureLineAt(text, i) then
      var next := LineEnd(text, i);
      RunEnd(text, next)
    else i
  }

  /** The first line start at or after `i` where a future import begins; re.search with `^` under re.M. */
  function FirstFuture(text: string, i: nat): (r: Option<nat>)
    requires i <= |text|
    ensures r.Some? ==> i <= r.value <= |text| && LineStart(text, r.value) && FutureLineAt(text, r.value)
    ensures forall q | i <= q <= |text| && (r.None? || q < r.value) :: !(LineStart(text, q) && FutureLineAt(text, q))
    decreases |text| - i
  {
    if LineStart(text, i) && FutureLineAt(text, i) then Some(i)
    else if i == |text| then None
    else FirstFuture(text, i + 1)
  }

  /** `insert_at`: the end of the first run of future imports, or 0 when there is none. */
  function InsertPoint(text: string): (at: nat)
    ensures at <= |text|
  {
    match FirstFuture(text, 0)
    case None => 0
    case Some(p) => RunEnd(text, p)
  }

  /** A line start where future imports begin, with no earlier one. */
  predicate FirstFutureAt(text: string, p: nat)
  {
    && p <= |text| && LineStart(text, p) && FutureLineAt(text, p)
    && forall q | 0 <= q < p :: !(LineStart(text, q) && FutureLineAt(text, q))
  }

  /**
   * The insertion point is a line start. Without any future import it is 0;
   * otherwise it ends the maximal run of future-import lines that starts at
   * the first one.
   */
  lemma InsertPointSpec(text: string)
    ensures InsertPoint(text) <= |text| && LineStart(text, InsertPoint(text))
    ensures (forall q | 0 <= q <= |text| :: !(LineStart(text, q) && FutureLineAt(text, q))) <==> InsertPoint(text) == 0
    ensures InsertPoint(text) > 0 ==>
              !FutureLineAt(text, InsertPoint(text))
              && exists p | 0 <= p < InsertPoint(text) :: FirstFutureAt(text, p)
                   && forall q | p <= q < InsertPoint(text) && LineStart(text, q) :: FutureLineAt(text, q)
  {
    match FirstFuture(text, 0)
    case None =>
    case Some(p) =>
      assert FirstFutureAt(text, p);
  }

  // ---------------------------------------------------------------------------
  // Step 2: does the text before the insertion point already import os?

  /** `^\s*import\s+os(\s|,|$)` matches at line start `i`. */
  predicate ImportOsAt(h: string, i: nat)
  {
    && LineStart(h, i)
    && var j := SkipSpaces(h, i);
       && OccursAt(h, "import", j)
       && var k := SkipSpaces(h, j + 6);
          && k > j + 6 && OccursAt(h, "os", k)
          && (k + 2 == |h| || IsSpace(h[k + 2]) || h[k + 2] == ',')
  }

  /** `^\s*from\s+os\s+import\s+` matches at line start `i`. */
  predicate FromOsAt(h: string, i: nat)
  {
    && LineStart(h, i)
    && var j := SkipSpaces(h, i);
       && OccursAt(h, "from", j)
       && var k := SkipSpaces(h, j + 4);
          && k > j + 4 && OccursAt(h, "os", k)
          && var l := SkipSpaces(h, k + 2);
             && l > k + 2 && OccursAt(h, "import", l)
             && l + 6 < |h| && IsSpace(h[l + 6])
  }

  /** `has_import_os_before or has_from_os_before`. */
  predicate ImportsOs(h: string)
  {
    exists i | 0 <= i <= |h| :: ImportOsAt(h, i) || FromOsAt(h, i)
  }

  const ImportOsLine: string := "import os\n"

  /** The check accepts the line the step inserts. */
  lemma ImportsOsLine()
    ensures ImportsOs(ImportOsLine)
  {
    var a := ImportOsLine;
    SkipSpacesAt(a, 0, 0);
    SkipSpacesAt(a, 6, 7);
    assert a[0..6] == "import" && a[7..9] == "os";
    assert ImportOsAt(a, 0);
  }

  /** The check accepts a `from os import` line. */
  lemma ImportsOsFrom()
    ensures ImportsOs("from os import " + "environ\n")
  {
    var b := "from os import " + "environ\n";
    SkipSpacesAt(b, 0, 0);
    SkipSpacesAt(b, 4, 5);
    SkipSpacesAt(b, 7, 8);
    assert b[0..4] == "from" && b[5..7] == "os" && b[8..14] == "import";
    assert FromOsAt(b, 0);
  }

  /** The check rejects a module whose name merely starts with `os`. */
  lemma ImportsOsNotSubmodule()
    ensures !ImportsOs("import os." + "path\n")
  {
    var c := "import os." + "path\n";
    assert '\n' !in "import os." + "path";
    forall i | 0 <= i <= |c| ensures !ImportOsAt(c, i) && !FromOsAt(c, i) {
      assert LineStart(c, i) ==> i == 0 || i == |c|;
      if i == 0 {
        SkipSpacesAt(c, 0, 0);
        SkipSpacesAt(c, 6, 7);
        assert c[0..4] != "from";
      }
    }
  }

  // ---------------------------------------------------------------------------
  // Step 3: the TEAM_ID_VALUE line, once

  /** The text whose presence means the assignment is already there. */
  const Marker: string := "TEAM_ID_VALUE = " + "os.environ.get(" + "\"TEAM_ID\""
  /** The assignment line that is inserted. */
  const TeamIdLine: string := Marker + ", \"UNKNOWN_" + "TEAM\")\n"

  /** `import os\n` when the text before the insertion point does not import os; nothing otherwise. */
  function ImportPart(text: string): string
  {
    if ImportsOs(text[..InsertPoint(text)]) then "" else ImportOsLine
  }

  /** Steps 1 to 3 as the source runs them: the marker is looked for after `import os` went in. */
  function InsertLines(text: string): string
  {
    var at := InsertPoint(text);
    var t1 := text[..at] + ImportPart(text) + text[at..];
    var at1 := at + |ImportPart(text)|;
    if Contains(t1, Marker) then t1 else t1[..at1] + TeamIdLine + t1[at1..]
  }

  /** Steps 1 to 4: the text that is written back. */
  function PatchMonolithText(text: string): string
  {
    AddTeamIdKw(InsertLines(text))
  }

  /**
   * Inserting `x` at a line start neither creates nor destroys an occurrence
   * of a text `p` without line breaks that cannot start inside `x`.
   */
  lemma InsertAtLineStart(text: string, at: nat, x: string, p: string)
    requires LineStart(text, at)
    requires |p| > 0 && '\n' !in p && p[0] !in x
    ensures Contains(text[..at] + x + text[at..], p) <==> Contains(text, p)
  {
    var u := text[..at] + x + text[at..];
    forall i | 0 <= i <= |u| ensures OccursAt(u, p, i) ==> Contains(text, p) {
      if i + |p| <= at {
        assert u[i..i + |p|] == text[i..i + |p|];
        if OccursAt(u, p, i) {
          ContainsAt(text, p, i);
        }
      } else if i >= at + |x| {
        if i + |p| <= |u| {
          assert text[i - |x|..i - |x| + |p|] == u[i..i + |p|];
        }
        if OccursAt(u, p, i) {
          ContainsAt(text, p, i - |x|);
        }
      } else if i < at {
        assert OccursAt(u, p, i) ==> CharAt(p, at - 1 - i, '\n');
      } else {
        assert u[i] == x[i - at];
      }
    }
    forall i | 0 <= i <= |text| ensures OccursAt(text, p, i) ==> Contains(u, p) {
      if i + |p| <= at {
        assert u[i..i + |p|] == text[i..i + |p|];
        if OccursAt(text, p, i) {
          ContainsAt(u, p, i);
        }
      } else if i >= at {
        if i + |p| <= |text| {
          assert u[i + |x|..i + |x| + |p|] == text[i..i + |p|];
        }
        if OccursAt(text, p, i) {
          ContainsAt(u, p, i + |x|);
        }
      } else {
        assert OccursAt(text, p, i) ==> CharAt(p, at - 1 - i, '\n');
      }
    }
  }

  /** The characters of the marker that the proofs below rely on. */
  lemma MarkerChars()
    ensures |Marker| == 40 && Marker[0] == 'T' && Marker[39] == '"'
    ensures '\n' !in Marker && ')' !in Marker && 'd' !in Marker
  {
    assert Marker == "TEAM_ID_VALUE = " + "os.environ.get(" + "\"TEAM_ID\"";
  }

  lemma MarkerFacts()
    ensures |Marker| == 40 && '\n' !in Marker && Marker[0] !in ImportOsLine
    ensures Contains(TeamIdLine, Marker)
  {
    MarkerChars();
    assert TeamIdLine[..|Marker|] == Marker;
    ContainsAt(TeamIdLine, Marker, 0);
  }

  /**
   * Both lines go in at the insertion point, `import os` first, and the rest
   * of the text is unchanged; the assignment goes in exactly when the
   * original text lacks the marker.
   */
  lemma InsertionLayout(text: string)
    ensures var at := InsertPoint(text);
            InsertLines(text)
            == text[..at] + ImportPart(text) + (if Contains(text, Marker) then "" else TeamIdLine) + text[at..]
  {
    var at := InsertPoint(text);
    var x := ImportPart(text);
    var t1 := text[..at] + x + text[at..];
    var at1 := at + |x|;
    InsertPointSpec(text);
    MarkerFacts();
    InsertAtLineStart(text, at, x, Marker);
    assert t1[..at1] == text[..at] + x;
    assert t1[at1..] == text[at..];
  }

  /** After steps 1 to 3 the marker is present. */
  lemma MarkerAfterInsert(text: string)
    ensures Contains(InsertLines(text), Marker)
  {
    var at := InsertPoint(text);
    var rest := text[at..];
    InsertionLayout(text);
    if Contains(text, Marker) {
      InsertPointSpec(text);
      MarkerFacts();
      InsertAtLineStart(text, at, ImportPart(text), Marker);
      assert InsertLines(text) == text[..at] + ImportPart(text) + rest;
    } else {
      MarkerFacts();
      ContainsConcat(text[..at] + ImportPart(text), TeamIdLine, Marker);
      ContainsConcat(text[..at] + ImportPart(text) + TeamIdLine, rest, Marker);
    }
  }

  /** The characters of `render_template(` that the proofs below rely on. */
  lemma OpenChars()
    ensures |RenderOpen| == 16 && RenderOpen[3] == 'd' && '"' !in RenderOpen && 'T' !in RenderOpen
  {
    assert RenderOpen == "render_" + "template(";
  }

  /** No proper suffix of the marker lines up with the start of a call. */
  lemma MarkerNotIntoCall()
    ensures forall d | 0 < d < |Marker| :: !Compatible(Marker[d..], RenderOpen)
  {
    MarkerChars();
    OpenChars();
    forall d | 0 < d < |Marker| ensures !Compatible(Marker[d..], RenderOpen) {
      assert Marker[d..] <= RenderOpen ==> CharAt(RenderOpen, |Marker| - d - 1, '"');
      assert RenderOpen <= Marker[d..] ==> CharAt(Marker, d + 3, 'd');
    }
  }

  /** The marker never starts inside `render_template(`. */
  lemma MarkerNotInOpen()
    ensures forall q | 0 < q < 16 :: !Compatible(RenderOpen[q..], Marker)
  {
    MarkerChars();
    OpenChars();
    forall q | 0 < q < 16 ensures !Compatible(RenderOpen[q..], Marker) {
      assert RenderOpen[q..] <= Marker ==> CharAt(RenderOpen, q, 'T');
    }
  }

  /** The marker holds no `)`, does not run into a call and does not start inside `render_template(`. */
  lemma MarkerSurvivesCalls()
    ensures SurvivesCalls(Marker)
  {
    MarkerChars();
    MarkerNotIntoCall();
    MarkerNotInOpen();
  }

  /** The written text always has the marker, so the final check of the step never fails. */
  lemma MarkerAfterPatch(text: string)
    ensures Contains(PatchMonolithText(text), Marker)
  {
    MarkerAfterInsert(text);
    MarkerSurvivesCalls();
    var i :| 0 <= i <= |InsertLines(text)| && OccursAt(InsertLines(text), Marker, i);
    AddTeamIdKwKeeps(InsertLines(text), Marker, i);
  }

  /** Running the step again inserts no second assignment: only the `import os` part can be added. */
  lemma RerunAddsNoLine(text: string)
    ensures var out := PatchMonolithText(text);
            var at := InsertPoint(out);
            InsertLines(out) == out[..at] + ImportPart(out) + out[at..]
  {
    MarkerAfterPatch(text);
    InsertionLayout(PatchMonolithText(text));
  }

  /** A text without a `d` holds no `render_template(`, so the render pass keeps it. */
  lemma NoCallWithoutD(s: string)
    requires 'd' !in s
    ensures AddTeamIdKw(s) == s
  {
    OpenChars();
    forall i | 0 <= i <= |s| ensures !OccursAt(s, RenderOpen, i) {
      assert OccursAt(s, RenderOpen, i) ==> CharAt(s, i + 3, 'd');
    }
    AddTeamIdKwNoCall(s);
  }

  /** Texts without a `d` and an `f` hold no call and no future import. */
  lemma PlainText(s: string)
    requires 'd' !in s && 'f' !in s
    ensures AddTeamIdKw(s) == s
    ensures InsertPoint(s) == 0
  {
    NoCallWithoutD(s);
    assert FutureHead[0] == 'f';
    forall q | 0 <= q <= |s| ensures !FutureLineAt(s, q) {
      assert FutureLineAt(s, q) ==> CharAt(s, q, 'f');
    }
  }

  lemma LineChars()
    ensures 'd' !in ImportOsLine && 'f' !in ImportOsLine
    ensures 'd' !in TeamIdLine && 'f' !in TeamIdLine
  {
    assert TeamIdLine == "TEAM_ID_VALUE = " + "os.environ.get(" + "\"TEAM_ID\"" + ", \"UNKNOWN_" + "TEAM\")\n";
  }

  /**
   * Without future imports the check looks at an empty head, so every run,
   * the first or a later one, puts `import os` at the very start.
   */
  lemma RunWithoutFutureImports(text: string)
    requires InsertPoint(text) == 0
    ensures PatchMonolithText(text)
            == AddTeamIdKw(ImportOsLine + (if Contains(text, Marker) then "" else TeamIdLine) + text)
  {
    NoImportInEmptyHead(text);
    InsertionLayout(text);
    assert text[..0] + ImportOsLine == ImportOsLine;
    assert text[0..] == text;
  }

  /** An empty head imports nothing. */
  lemma NoImportInEmptyHead(text: string)
    requires InsertPoint(text) == 0
    ensures ImportPart(text) == ImportOsLine
  {
    assert text[..0] == "";
    forall i | 0 <= i <= 0 ensures !ImportOsAt("", i) && !FromOsAt("", i) {
      assert SkipSpaces("", i) == 0;
    }
  }

  /** On a text with neither calls nor future imports a run only prepends the lines. */
  lemma RunOnPlain(text: string)
    requires 'd' !in text && 'f' !in text
    ensures Contains(text, Marker) ==> PatchMonolithText(text) == ImportOsLine + text
    ensures !Contains(text, Marker) ==> PatchMonolithText(text) == ImportOsLine + TeamIdLine + text
  {
    PlainText(text);
    RunWithoutFutureImports(text);
    LineChars();
    PlainText(ImportOsLine + (if Contains(text, Marker) then "" else TeamIdLine) + text);
    assert ImportOsLine + "" == ImportOsLine;
  }

  /** A first run on an empty file writes the two lines. */
  lemma FirstRunOnEmpty()
    ensures PatchMonolithText("") == ImportOsLine + TeamIdLine
  {
    MarkerFacts();
    assert !OccursAt("", Marker, 0);
    RunOnPlain("");
    assert ImportOsLine + TeamIdLine + "" == ImportOsLine + TeamIdLine;
  }

  /**
   * The `import os` check reads only the text before the insertion point,
   * which never includes the `import os` a previous run put at that point:
   * a second run on the result for an empty file adds a second `import os`.
   */
  lemma RerunDuplicatesImport()
    ensures PatchMonolithText("") == ImportOsLine + TeamIdLine
    ensures PatchMonolithText(ImportOsLine + TeamIdLine) == ImportOsLine + ImportOsLine + TeamIdLine
  {
    FirstRunOnEmpty();
    OnceFacts();
    RunOnPlain(ImportOsLine + TeamIdLine);
    Assoc(ImportOsLine, ImportOsLine, TeamIdLine);
  }

  /** A file that holds a single future import. */
  const FutureOnly: string := "from __future__ import x\n"

  /** In a text that starts with that line, the line is the first future import and ends at 25. */
  lemma FutureOnlyFirst(s: string)
    requires FutureOnly <= s
    ensures FutureLineAt(s, 0) && LineEnd(s, 0) == 25
    ensures FirstFuture(s, 0) == Some(0)
  {
    FutureOnlyChars();
    assert s[..25] == FutureOnly;
    assert s[0..23] == FutureOnly[..23];
    SkipUntilAt(s, 23, '\n', 24);
  }

  /** When nothing or a line that is not a future import follows, the insertion point is the end of that line. */
  lemma FutureOnlyPoint(s: string)
    requires FutureOnly <= s && (|s| == 25 || s[25] == 'i')
    ensures InsertPoint(s) == 25
  {
    FutureOnlyFirst(s);
    assert FutureHead[0] == 'f';
    assert FutureLineAt(s, 25) ==> CharAt(s, 25, 'f');
  }

  /** The future-import line imports no os: the head check fails on it. */
  lemma FutureOnlyNoOs()
    ensures !ImportsOs(FutureOnly)
  {
    FutureOnlyChars();
    FutureOnlyLacks();
    NoOsInFromLine(FutureOnly);
  }

  /** A single line that starts with `from _` imports no os. */
  lemma NoOsInFromLine(t: string)
    requires |t| > 6 && t[0] == 'f' && t[4] == ' ' && t[5] == '_'
    requires '\n' !in t[..|t| - 1]
    ensures !ImportsOs(t)
  {
    forall i | 0 <= i <= |t| ensures !ImportOsAt(t, i) && !FromOsAt(t, i) {
      if 0 < i < |t| {
        assert t[i - 1] == t[..|t| - 1][i - 1];
      }
      if i == 0 {
        NoOsAtFromLine(t);
      } else if i == |t| {
        SkipSpacesAt(t, i, i);
      }
    }
  }

  /** At the start of such a line neither form of the os import matches. */
  lemma NoOsAtFromLine(t: string)
    requires |t| > 6 && t[0] == 'f' && t[4] == ' ' && t[5] == '_'
    ensures !ImportOsAt(t, 0) && !FromOsAt(t, 0)
  {
    SkipSpacesAt(t, 0, 0);
    SkipSpacesAt(t, 4, 5);
    assert OccursAt(t, "import", 0) ==> CharAt(t, 0, 'i');
    assert OccursAt(t, "os", 5) ==> CharAt(t, 5, 'o');
  }

  /** The characters of that line the proofs rely on. */
  lemma FutureOnlyChars()
    ensures |FutureOnly| == 25 && FutureOnly[..23] == FutureHead
    ensures FutureOnly[0] == 'f' && FutureOnly[4] == ' ' && FutureOnly[5] == '_'
    ensures FutureOnly[23] == 'x' && FutureOnly[24] == '\n'
  {
  }

  lemma FutureOnlyLacks()
    ensures 'd' !in FutureOnly && 'T' !in FutureOnly && '\n' !in FutureOnly[..24]
  {
    assert FutureOnly[..24] == "from __future__ import x";
  }

  /**
   * A text whose insertion point is its end and whose head does not import
   * os (nor holds the marker or a call) gets both lines appended.
   */
  lemma RunAtEnd(t: string)
    requires InsertPoint(t) == |t| && !ImportsOs(t) && !Contains(t, Marker) && 'd' !in t
    ensures PatchMonolithText(t) == t + ImportOsLine + TeamIdLine
  {
    LineChars();
    assert t[..|t|] == t && t[|t|..] == [];
    InsertionLayout(t);
    assert InsertLines(t) == t + ImportOsLine + TeamIdLine;
    NoCallWithoutD(t + ImportOsLine + TeamIdLine);
  }

  /**
   * Running again on that result: the head is the same text, which still
   * does not import os, so a second `import os` goes in after it.
   */
  lemma RerunAtEnd(t: string)
    requires InsertPoint(t + ImportOsLine + TeamIdLine) == |t| && !ImportsOs(t) && 'd' !in t
    ensures PatchMonolithText(t + ImportOsLine + TeamIdLine) == t + ImportOsLine + ImportOsLine + TeamIdLine
  {
    RerunLayout(t);
    LinesWithoutD(t);
    NoCallWithoutD(t + ImportOsLine + ImportOsLine + TeamIdLine);
  }

  lemma RerunLayout(t: string)
    requires InsertPoint(t + ImportOsLine + TeamIdLine) == |t| && !ImportsOs(t)
    ensures InsertLines(t + ImportOsLine + TeamIdLine) == t + ImportOsLine + ImportOsLine + TeamIdLine
  {
    var I, L := ImportOsLine, TeamIdLine;
    var out := t + I + L;
    RerunParts(t);
    InsertionLayout(out);
    assert InsertLines(out) == t + I + "" + (I + L);
    assert t + I + "" + (I + L) == t + I + I + L;
  }

  /** The pieces of a first run's output that the second run's layout is made of. */
  lemma RerunParts(t: string)
    requires InsertPoint(t + ImportOsLine + TeamIdLine) == |t| && !ImportsOs(t)
    ensures var out := t + ImportOsLine + TeamIdLine;
            && out[..|t|] == t && out[|t|..] == ImportOsLine + TeamIdLine
            && ImportPart(out) == ImportOsLine && Contains(out, Marker)
  {
    var I, L := ImportOsLine, TeamIdLine;
    var out := t + I + L;
    assert out[..|t|] == t;
    assert out[|t|..] == I + L;
    MarkerFacts();
    ContainsConcat(t + I, L, Marker);
  }

  lemma LinesWithoutD(t: string)
    requires 'd' !in t
    ensures 'd' !in t + ImportOsLine + ImportOsLine + TeamIdLine
  {
    LineChars();
  }

  /**
   * The `import os` check reads only the text before the insertion point,
   * which never includes the `import os` a previous run put at that point,
   * also after a future-import block: a second run on a file that holds a
   * single future import adds a second `import os`.
   */
  lemma RerunDuplicatesAfterFutureImport()
    ensures PatchMonolithText(FutureOnly) == FutureOnly + ImportOsLine + TeamIdLine
    ensures PatchMonolithText(FutureOnly + ImportOsLine + TeamIdLine)
            == FutureOnly + ImportOsLine + ImportOsLine + TeamIdLine
  {
    var t := FutureOnly;
    FutureOnlyChars();
    FutureOnlyLacks();
    FutureOnlyPoint(t);
    FutureOnlyNoOs();
    NoMarkerWithoutT(t);
    RunAtEnd(t);
    FutureOnlyRerunPoint();
    RerunAtEnd(t);
  }

  /** The marker starts with `T`, so a text without one lacks it. */
  lemma NoMarkerWithoutT(t: string)
    requires 'T' !in t
    ensures !Contains(t, Marker)
  {
    MarkerChars();
    forall i | 0 <= i <= |t| ensures !OccursAt(t, Marker, i) {
      assert OccursAt(t, Marker, i) ==> CharAt(t, i, 'T');
    }
  }

  /** After the first run the insertion point is still the end of the future import. */
  lemma FutureOnlyRerunPoint()
    ensures InsertPoint(FutureOnly + ImportOsLine + TeamIdLine) == |FutureOnly|
  {
    var out := FutureOnly + ImportOsLine + TeamIdLine;
    FutureOnlyChars();
    assert out[..25] == FutureOnly && out[25] == ImportOsLine[0] == 'i';
    FutureOnlyPoint(out);
  }

  lemma OnceFacts()
    ensures 'd' !in ImportOsLine + TeamIdLine && 'f' !in ImportOsLine + TeamIdLine
    ensures Contains(ImportOsLine + TeamIdLine, Marker)
  {
    LineChars();
    MarkerFacts();
    ContainsConcat(ImportOsLine, TeamIdLine, Marker);
  }

  // ---------------------------------------------------------------------------
  // Steps 5 to 7: write, compile, check the marker

  datatype MonolithError =
    | MonolithMissing  // the file does not exist
    | CompileFailed    // `python -m py_compile` exits with an error
    | MarkerMissing    // the marker is not in the file read back

  /** What a run leaves on disk and how it ends. */
  datatype MonolithRun = MonolithRun(written: Option<string>, outcome: Result<(), MonolithError>)

  /**
   * `patch_monolith_team_id`: `file` is the monolith's content if it exists,
   * and `compiles` stands for the byte-compilation check. The file is written
   * before it is validated, and the marker check can never fail.
   */
  function PatchMonolithTeamId(file: Option<string>, compiles: string -> bool): (r: MonolithRun)
    ensures file.None? ==> r.written.None? && r.outcome == Err(MonolithMissing)
    ensures file.Some? ==> r.written == Some(PatchMonolithText(file.value))
    ensures file.Some? ==> (r.outcome.Ok? <==> compiles(PatchMonolithText(file.value)))
    ensures r.outcome != Err(MarkerMissing)
  {
    match file
    case None => MonolithRun(None, Err(MonolithMissing))
    case Some(text) =>
      var out := PatchMonolithText(text);
      MarkerAfterPatch(text);
      var outcome :=
        if !compiles(out) then Err(CompileFailed)
        else if !Contains(out, Marker) then Err(MarkerMissing)
        else Ok(());
      MonolithRun(Some(out), outcome)
  }
}
