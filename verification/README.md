# Text-patching passes of the Bookinfo productpage deployment scripts

Two deployment scripts prepare the Bookinfo `productpage` service. Before
starting it, each one rewrites the cloned application source and its Jinja
templates as plain text, using fixed regular expressions and `str.replace`.
This project models those rewrites as pure functions on `string`
(`seq<char>`) and proves what they promise.

`pc2_punto1.py` has three passes:

- **Bind address** (`modify_host_in_productpage`, module `BindAddress`).
  Every `app.run(host='<host>', port=p, debug=True, threaded=True)` is
  rebound to `0.0.0.0`.
- **TEAM_ID injection** (`patch_monolith_team_id`, modules `MonolithPatch`
  and `RenderCalls`):
  - It finds the end of the first `from __future__ import` block.
  - It puts `import os` there, unless the text before that point already
    imports os.
  - It adds the `TEAM_ID_VALUE` assignment once, guarded by a marker.
  - It passes `TEAM_ID=TEAM_ID_VALUE` to the `render_template(...)` calls of
    the two pages.
  - It writes the file, compiles it and checks the marker.
- **Title block** (`patch_template_block_title` and `patch_templates`, module
  `TitleBlock`). The first `{% block title %}…{% endblock %}` of each
  template is replaced by a fixed block that shows the team id. A template
  without such a block is an error.

`deploy_productpage_docker.py` (module `DockerPatch`) has two passes:

- `patch_productpage_py` makes three `str.replace` edits. They add the
  `TEAM_ID`/`APP_OWNER` globals and the `team_id`/`app_owner` keyword
  arguments.
- `patch_template` replaces the page title.

The modules shared by both scripts:

- `Substitution` holds the scan that `re.sub` and `str.replace` share: left
  to right, with non-overlapping matches. It is generic over a `Rule` (a
  matcher and a rewrite of a match). It is related to an independent
  description: the unique decomposition of a text into kept characters and
  matched pieces (`Leftmost`). It also holds a generic idempotence theorem.
- `LiteralReplace` is `str.replace` as an instance of that scan.
- `Strings` holds character classes and occurrence predicates. `Wrappers`
  holds `Option` and `Result`.

File reads and writes become parameters and results. The external
byte-compilation check becomes the `compiles` parameter.

## Model

| member | source | states |
|---|---|---|
| Substitution.Parse | pc2_punto1.py:133 | Every text has a decomposition into kept characters and matched pieces that spells it back and in which a piece is a match exactly where the pattern matches (the scan re.sub performs). |
| Substitution.LeftmostUnique | pc2_punto1.py:133 | That decomposition is unique: any leftmost decomposition of a text is the one the scan finds. |
| Substitution.SubByPieces | pc2_punto1.py:133 | The substitution renders the leftmost decomposition: kept characters copied, each match replaced by its rewrite. |
| Substitution.SubNoMatch | pc2_punto1.py:133 | A text in which the pattern matches nowhere is returned unchanged. |
| Substitution.SubIdempotent | pc2_punto1.py:133 | If matches depend only on the characters they cover, a rewritten match is rewritten to itself, and a kept character cannot start a match after the pass, then applying the substitution twice equals applying it once. |
| LiteralReplace.MatchIffOccurs | deploy_productpage_docker.py:64-67 | The str.replace matcher matches at a position exactly when the searched text occurs there, and then covers exactly that text. |
| LiteralReplace.NoMatchIffAbsent | deploy_productpage_docker.py:64-67 | The searched text matches nowhere iff the text does not contain it. |
| LiteralReplace.ReplaceAbsent | deploy_productpage_docker.py:64-69 | Replacing a text that does not occur is the identity; zero occurrences is not an error. |
| LiteralReplace.ReplacePresent | deploy_productpage_docker.py:64-67 | When the searched text occurs, the result contains the replacement. |
| LiteralReplace.ReplaceRendersPieces | deploy_productpage_docker.py:64-69 | Every matched piece of the leftmost decomposition is the searched text, and the result keeps all other text and replaces exactly those pieces. |
| LiteralReplace.ReplaceLeavesNone | deploy_productpage_docker.py:64-67 | When the replacement cannot recreate the searched text with its surroundings, no occurrence is left afterwards. |
| LiteralReplace.ReplaceIdempotent | deploy_productpage_docker.py:64-67 | Under the same condition, replacing twice equals replacing once. |
| BindAddress.HostMatchIff | pc2_punto1.py:87 | The hand-written matcher matches a prefix of length n exactly when that prefix is an `app.run(host='…', port=p, debug=True, threaded=True)` call: `app`, any non-newline character, `run(host='`, one or more non-quote characters, then the fixed tail. |
| BindAddress.ModifyHostPieces | pc2_punto1.py:87-89 | Every replaced piece is such a call and becomes the call bound to 0.0.0.0; all text outside the calls is kept. |
| BindAddress.ModifyHostNoCall | pc2_punto1.py:87-89 | A text without such a call is written back unchanged. |
| BindAddress.ModifyHostIdempotent | pc2_punto1.py:87-89 | Applying the rewrite twice equals applying it once. |
| RenderCalls.RenderMatchIff | pc2_punto1.py:133 | The matcher matches a prefix of length n exactly when it is `render_template(` + text without `)` + `)`. |
| RenderCalls.AddKwEffect | pc2_punto1.py:125-131 | A call changes iff its argument text names `index.html` or `productpage.html` in either quote style and has no `TEAM_ID\s*=` keyword. A changed call becomes `render_template(<inside>, TEAM_ID=TEAM_ID_VALUE)`. |
| RenderCalls.AddTeamIdKwPieces | pc2_punto1.py:125-133 | Every matched piece of the pass is a render call rewritten by add_kw; every other character is kept. |
| RenderCalls.AddTeamIdKwIdempotent | pc2_punto1.py:127-133 | A rewritten call now passes `TEAM_ID=`, so a second pass returns the text unchanged. |
| RenderCalls.AddTeamIdKwKeeps | pc2_punto1.py:125-133 | A text that has no `)` and no overlap with `render_template(` (such as the marker) survives the pass wherever it occurs. |
| RenderCalls.AddTeamIdKwNoCall | pc2_punto1.py:133 | A text without `render_template(` is unchanged. |
| MonolithPatch.LineEnd | pc2_punto1.py:105 | A `from __future__ import .+` line ends at its first newline, and no line starts within it. |
| MonolithPatch.RunEnd | pc2_punto1.py:105 | The run from a position ends at the first line start that is not a future-import line, and every line in the run is one. |
| MonolithPatch.FirstFuture | pc2_punto1.py:105 | It finds the first line start that begins a future-import line, or reports that there is none. |
| MonolithPatch.InsertPointSpec | pc2_punto1.py:105-106 | The insertion point is a line start. It is 0 iff no line is a future import; otherwise it is the end of the maximal run of future-import lines that starts at the first one. |
| MonolithPatch.ImportsOsLine | pc2_punto1.py:111 | The head check recognises `import os` as importing os. |
| MonolithPatch.ImportsOsFrom | pc2_punto1.py:112 | The head check recognises `from os import environ` as importing os. |
| MonolithPatch.ImportsOsNotSubmodule | pc2_punto1.py:111 | `import os.path` does not count, because `os` must be followed by whitespace, a comma or a line end. |
| MonolithPatch.InsertAtLineStart | pc2_punto1.py:115 | Inserting text at a line start neither creates nor removes an occurrence of the marker. So the marker test after inserting `import os` sees what it would have seen before. |
| MonolithPatch.InsertionLayout | pc2_punto1.py:105-122 | The text before the insertion point, then `import os` (iff the head does not import os), then the assignment line (iff the marker is absent), then the rest of the text unchanged. |
| MonolithPatch.MarkerAfterInsert | pc2_punto1.py:118-122 | After the insertions the marker is present. |
| MonolithPatch.MarkerAfterPatch | pc2_punto1.py:118-133 | The marker is still present after the render-call pass, so the text written back contains it. |
| MonolithPatch.RerunAddsNoLine | pc2_punto1.py:118-122 | Running the insertions again on the written text adds no second assignment line (at most `import os` again). |
| MonolithPatch.RunWithoutFutureImports | pc2_punto1.py:106-116 | Without a future-import block the head is empty, so `import os` is always put at the very top. |
| MonolithPatch.RunOnPlain | pc2_punto1.py:105-133 | On a text without the letters `d` and `f` (hence without future imports or render calls), the result is `import os`, then the assignment line if the marker was absent, then the text. |
| MonolithPatch.RerunDuplicatesImport | pc2_punto1.py:110-116 | A concrete re-run on the first run's output adds a second `import os` line: the head check is not idempotent. |
| MonolithPatch.RunAtEnd | pc2_punto1.py:105-122 | When the insertion point is the end of a text that has no `import os` in its head, no marker and no render call, one run appends `import os` and then the assignment line. |
| MonolithPatch.RerunAtEnd | pc2_punto1.py:110-122 | Re-running on such a first run's output puts a second `import os` before the first and no second assignment line, because the insertion point is still the end of the original head. |
| MonolithPatch.RerunDuplicatesAfterFutureImport | pc2_punto1.py:106-122 | The duplicate also appears after a future-import block: for `from __future__ import x` the first run adds `import os` and the assignment line after it, and a second run adds one more `import os` there. |
| MonolithPatch.PatchMonolithTeamId | pc2_punto1.py:97-146 | A missing file stops the run before anything is written. Otherwise the patched text is written before validation, and the run succeeds iff it compiles. The marker check never fails. |
| TitleBlock.ScanMatches | pc2_punto1.py:153 | For well-formed token lists, the greedy scanner ends at `e` exactly when the text it covers splits into consecutive token matches, that is, exactly when the backtracking pattern matches it: greedy `\s*` and `\s+` lose nothing, because the next word or literal cannot start with whitespace. |
| TitleBlock.TagLenIff | pc2_punto1.py:153 | The scanner finds a tag of length `n` at the start of a text exactly when the first `n` characters are `{%` followed by a match of the tag's tokens. |
| TitleBlock.BlockLenIff | pc2_punto1.py:153-157 | `BlockLen` reports `n > 0` exactly when the first `n` characters are one title block: an opening tag, a body in which no closing tag starts, and a closing tag that ends the span. This is the lazy `.*?` under `re.S`. |
| TitleBlock.MixedBlockIsBlock | pc2_punto1.py:153-157 | `{%BLOCK` + line break + ` title%}a` + line break + `b{%EndBlock%}` is a title block: words are compared up to ASCII case, and both `\s` and the body may span lines. |
| TitleBlock.FirstBlock | pc2_punto1.py:152-158 | It finds the leftmost position where a title block starts, searching from a given position, or the text's end when there is none. |
| TitleBlock.PatchBlockTitle | pc2_punto1.py:152-160 | The pass fails iff the template has no `{% block title %}…{% endblock %}` span (tags compared up to ASCII case, body across lines). |
| TitleBlock.PatchBlockTitleLayout | pc2_punto1.py:152-158 | On success only the first block (from its opening tag to the nearest closing tag) is replaced by the fixed block; the text before it and after it, later blocks included, is kept. |
| TitleBlock.ReplacementIsBlock | pc2_punto1.py:153-154 | The fixed block is itself exactly one title block, whatever follows it. |
| TitleBlock.PatchBlockTitleIdempotent | pc2_punto1.py:152-158 | Re-applying the pass to its output gives the same text: the fixed block is the first block and is replaced by itself. |
| TitleBlock.PatchTemplates | pc2_punto1.py:165-176 | Both files must exist before either is touched. Productpage is then patched and written before index, so a missing block in index leaves productpage already patched. The outcome names the first failure. |
| TitleBlock.PatchTemplatesRerun | pc2_punto1.py:165-176 | Running the step again on what it left behind changes nothing and ends the same way, also after a partial failure. |
| DockerPatch.AddGlobalsEffect | deploy_productpage_docker.py:38-42 | With the `TEAM_ID = os.getenv` marker present, the step is the identity. Without it, the globals follow every `import os`, and the marker is then present if `import os` occurred. |
| DockerPatch.AddGlobalsIdempotent | deploy_productpage_docker.py:38-42 | A second application adds nothing, although the inserted text itself contains `import os`. |
| DockerPatch.AddProductpageKwargsEffect | deploy_productpage_docker.py:44-48 | The multi-line productpage.html call is extended only when its opener is present and `app_owner=APP_OWNER` is absent; afterwards that marker is present. |
| DockerPatch.AddProductpageKwargsIdempotent | deploy_productpage_docker.py:44-48 | The guard prevents a second extension, although the extended call starts with the searched text. |
| DockerPatch.AddIndexKwargsEffect | deploy_productpage_docker.py:50-53 | No exact index.html call is left, a second run changes nothing, and a text without the call is unchanged. |
| DockerPatch.PatchProductpagePyEffect | deploy_productpage_docker.py:33-56 | After the three edits no exact index.html call is left; a text containing none of the three searched texts is written back unchanged. |
| DockerPatch.PatchTemplateEffect | deploy_productpage_docker.py:64-69 | No `Simple Bookstore App` is left, a second run changes nothing, a text without it is written back unchanged, and one with it now shows the parameterised title. |
| DockerPatch.PatchTemplateFrame | deploy_productpage_docker.py:64-67 | Only occurrences of `Simple Bookstore App` are replaced; all other text is kept. |

## Left out

- File reads and writes, printing, argument parsing, subprocesses, packages, git, the virtual environment, systemd, Docker and the curl health checks. Each pass is modelled on in-memory text; a missing file is `None`.
- The byte-compilation check (`python -m py_compile`) is the `compiles` parameter of `MonolithPatch.PatchMonolithTeamId`; Python's grammar is not modelled.
- Python `re` in general. Each fixed pattern has a hand-written matcher. `\s` is the set of characters `str.isspace` accepts. `\b` treats only ASCII letters, digits and `_` as word characters. `re.I` is ASCII case folding, so non-ASCII case pairs (such as the Kelvin sign and `k`) are not folded.
- The `[^)]*` argument text of render calls stops at the first `)`, so a call with nested parentheses is cut short. This behaviour is kept as in the source, not fixed.
- The unescaped `.` in the `app.run` pattern matches any character but a newline, and the replacement is always the literal `app.run(...)`. A call written `appXrun(...)` is therefore rewritten to `app.run(...)`; the model does the same.
- MonolithPatch.RerunAddsNoLine: the `import os` check reads only the text before the insertion point, and an earlier run puts its `import os` at that point, outside what the check reads. A second run therefore adds another `import os` whenever that head does not import os, with or without a future-import block (`RerunDuplicatesImport`, `RerunDuplicatesAfterFutureImport`, `RerunAtEnd`). Idempotence of the whole pass is not claimed.
- The title pass follows the code: `count=1` replaces the first block and leaves later ones alone, and only zero blocks is an error. Several blocks are not an error.
- DockerPatch.PatchProductpagePyEffect: idempotence of the three edits taken together is not proved. Each edit is proved idempotent on its own (`AddGlobalsIdempotent`, `AddProductpageKwargsIdempotent`, `AddIndexKwargsEffect`).
