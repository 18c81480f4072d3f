/**
 * The text edits of deploy_productpage_docker.py: `patch_productpage_py`
 * (three `str.replace` edits, two of them guarded by a containment test) and
 * `patch_template` (one `str.replace` on the index template).
 */
module DockerPatch {
  import opened Strings
  import opened Substitution
  import opened LiteralReplace

  // ---------------------------------------------------------------------------
  // Step 1: the TEAM_ID / APP_OWNER globals after `import os`

  // Long literals are written as concatenations of short pieces: the verifier unfolds
  // short literals character by character far more cheaply than one long literal.
  /** The marker whose presence means the globals are already there. */
  const GlobalsMarker: string := "TEAM_ID = " + "os.getenv"
  const ImportOs: Needle := "import os"
  /** `import os`, a blank line and the two `os.getenv` globals. */
  const GlobalsBlock: string :=
    "import os\n\n" + GlobalsMarker + "(\"TEAM_ID\", " + "\"unknown\")\n"
    + "APP_OWNER = " + "os.getenv(" + "\"APP_OWNER\", " + "\"unknown\")"

  /** Unless the marker is present, put the globals after every `import os`. */
  function AddGlobals(content: string): string
  {
    if Contains(content, GlobalsMarker) then content else Replace(content, ImportOs, GlobalsBlock)
  }

  lemma GlobalsBlockHasMarker()
    ensures Contains(GlobalsBlock, GlobalsMarker)
  {
    var before := "import os\n\n";
    assert GlobalsBlock[|before|..|before| + |GlobalsMarker|] == GlobalsMarker;
    ContainsAt(GlobalsBlock, GlobalsMarker, |before|);
  }

  /**
   * The step is the identity when the marker is present and the literal
   * replacement otherwise; once it has acted on content with an `import os`,
   * the marker is there.
   */
  lemma AddGlobalsEffect(content: string)
    ensures Contains(content, GlobalsMarker) ==> AddGlobals(content) == content
    ensures !Contains(content, GlobalsMarker) ==> AddGlobals(content) == Replace(content, ImportOs, GlobalsBlock)
    ensures !Contains(content, ImportOs) ==> AddGlobals(content) == content
    ensures Contains(content, ImportOs) ==> Contains(AddGlobals(content), GlobalsMarker)
  {
    if !Contains(content, ImportOs) {
      ReplaceAbsent(content, ImportOs, GlobalsBlock);
    }
    if Contains(content, ImportOs) && !Contains(content, GlobalsMarker) {
      ReplacePresent(content, ImportOs, GlobalsBlock);
      GlobalsBlockHasMarker();
      ContainsTrans(AddGlobals(content), GlobalsBlock, GlobalsMarker);
    }
  }

  /** Running the step twice inserts nothing more, though the inserted block itself contains `import os`. */
  lemma AddGlobalsIdempotent(content: string)
    ensures AddGlobals(AddGlobals(content)) == AddGlobals(content)
  {
    AddGlobalsEffect(content);
    AddGlobalsEffect(AddGlobals(content));
  }

  // ---------------------------------------------------------------------------
  // Step 2: keyword arguments of the multi-line productpage.html call

  /** The opener the guard looks for (without the leading `return `). */
  const KwargsGuard: string := "render_template(\n" + "        'productpage.html',"
  /** The text that is replaced. */
  const KwargsCall: Needle := "return " + KwargsGuard
  /** The marker whose presence means the arguments are already there. */
  const OwnerMarker: string := "app_owner=" + "APP_OWNER"
  /** The call with `team_id` and `app_owner` added on their own lines. */
  const KwargsCallExtended: string :=
    KwargsCall + "\n        team_id=" + "TEAM_ID," + "\n        " + OwnerMarker + ","

  /** Extend the productpage.html call when its opener is present and `app_owner=APP_OWNER` is not. */
  function AddProductpageKwargs(content: string): string
  {
    if Contains(content, KwargsGuard) && !Contains(content, OwnerMarker) then
      Replace(content, KwargsCall, KwargsCallExtended)
    else content
  }

  lemma KwargsFacts()
    ensures Contains(KwargsCall, KwargsGuard)
    ensures Contains(KwargsCallExtended, OwnerMarker)
  {
    assert KwargsCall[7..7 + |KwargsGuard|] == KwargsGuard;
    ContainsAt(KwargsCall, KwargsGuard, 7);
    var at := |KwargsCallExtended| - |OwnerMarker| - 1;
    assert KwargsCallExtended[at..at + |OwnerMarker|] == OwnerMarker;
    ContainsAt(KwargsCallExtended, OwnerMarker, at);
  }

  /**
   * The call is extended exactly when the guard holds and the call occurs;
   * an extended result carries the marker, and otherwise the content is unchanged.
   */
  lemma AddProductpageKwargsEffect(content: string)
    ensures !Contains(content, KwargsGuard) || Contains(content, OwnerMarker) ==> AddProductpageKwargs(content) == content
    ensures !Contains(content, KwargsCall) ==> AddProductpageKwargs(content) == content
    ensures Contains(content, KwargsCall) && !Contains(content, OwnerMarker) ==>
              AddProductpageKwargs(content) == Replace(content, KwargsCall, KwargsCallExtended)
              && Contains(AddProductpageKwargs(content), OwnerMarker)
  {
    KwargsFacts();
    if !Contains(content, KwargsCall) {
      ReplaceAbsent(content, KwargsCall, KwargsCallExtended);
    } else if !Contains(content, OwnerMarker) {
      ContainsTrans(content, KwargsCall, KwargsGuard);
      ReplacePresent(content, KwargsCall, KwargsCallExtended);
      ContainsTrans(AddProductpageKwargs(content), KwargsCallExtended, OwnerMarker);
    }
  }

  /** The guard prevents a second extension, although the extended call starts with the searched text. */
  lemma AddProductpageKwargsIdempotent(content: string)
    ensures AddProductpageKwargs(AddProductpageKwargs(content)) == AddProductpageKwargs(content)
  {
    AddProductpageKwargsEffect(content);
    AddProductpageKwargsEffect(AddProductpageKwargs(content));
  }

  // ---------------------------------------------------------------------------
  // Step 3: keyword arguments of the index.html call

  const IndexCall: Needle :=
    "return render_" + "template(" + "'index.html', " + "serviceTable=table" + ")"
  const IndexCallExtended: string :=
    "return render_" + "template(" + "'index.html', " + "serviceTable=table"
    + ", team_id=TEAM_ID" + ", app_owner=APP_OWNER" + ")"

  /** Extend every exact occurrence of the index.html call. */
  function AddIndexKwargs(content: string): string
  {
    Replace(content, IndexCall, IndexCallExtended)
  }

  /** The extended call ends in the only `)` of either text, so it cannot recreate the original call. */
  lemma IndexCallNoOverlap()
    ensures NoOverlap(IndexCall, IndexCallExtended)
  {
    var body := "return render_" + "template(" + "'index.html', " + "serviceTable=table";
    assert IndexCall == body + ")";
    assert IndexCallExtended == body + ", team_id=TEAM_ID" + ", app_owner=APP_OWNER" + ")";
    assert ')' !in body;
    assert ')' !in body + ", team_id=TEAM_ID" + ", app_owner=APP_OWNER";
    assert IndexCallExtended[|IndexCallExtended| - 2] != IndexCall[|IndexCall| - 2];
    NoOverlapByLastChar(IndexCall, IndexCallExtended);
  }

  /** No exact index.html call is left, and a second run changes nothing. */
  lemma AddIndexKwargsEffect(content: string)
    ensures !Contains(AddIndexKwargs(content), IndexCall)
    ensures AddIndexKwargs(AddIndexKwargs(content)) == AddIndexKwargs(content)
    ensures !Contains(content, IndexCall) ==> AddIndexKwargs(content) == content
  {
    IndexCallNoOverlap();
    ReplaceLeavesNone(content, IndexCall, IndexCallExtended);
    ReplaceIdempotent(content, IndexCall, IndexCallExtended);
    if !Contains(content, IndexCall) {
      ReplaceAbsent(content, IndexCall, IndexCallExtended);
    }
  }

  /** patch_productpage_py: the three steps in order. */
  function PatchProductpagePy(content: string): string
  {
    AddIndexKwargs(AddProductpageKwargs(AddGlobals(content)))
  }

  /**
   * After the whole step no exact index.html call is left, and a text that
   * has none of the three searched texts is written back as it was.
   */
  lemma PatchProductpagePyEffect(content: string)
    ensures !Contains(PatchProductpagePy(content), IndexCall)
    ensures !Contains(content, ImportOs) && !Contains(content, KwargsCall) && !Contains(content, IndexCall)
            ==> PatchProductpagePy(content) == content
  {
    AddGlobalsEffect(content);
    AddProductpageKwargsEffect(AddGlobals(content));
    AddIndexKwargsEffect(AddProductpageKwargs(AddGlobals(content)));
  }

  // ---------------------------------------------------------------------------
  // patch_template

  const OldTitle: Needle := "Simple Bookstore " + "App"
  const NewTitle: string := "Product Page - " + "{{ app_owner }}" + " - Team " + "{{ team_id }}"

  /** patch_template: the parameterised title in place of every `Simple Bookstore App`. */
  function PatchTemplate(content: string): string
  {
    Replace(content, OldTitle, NewTitle)
  }

  lemma TitleNoOverlap()
    ensures NoOverlap(OldTitle, NewTitle)
  {
    assert 'S' !in NewTitle;
    assert 'P' !in OldTitle;
    NoOverlapByFirstChars(OldTitle, NewTitle);
  }

  /**
   * No old title is left; a second run changes nothing; zero occurrences is
   * not an error and gives the content back unchanged.
   */
  lemma PatchTemplateEffect(content: string)
    ensures !Contains(PatchTemplate(content), OldTitle)
    ensures PatchTemplate(PatchTemplate(content)) == PatchTemplate(content)
    ensures !Contains(content, OldTitle) ==> PatchTemplate(content) == content
    ensures Contains(content, OldTitle) ==> Contains(PatchTemplate(content), NewTitle)
  {
    TitleNoOverlap();
    ReplaceLeavesNone(content, OldTitle, NewTitle);
    ReplaceIdempotent(content, OldTitle, NewTitle);
    if !Contains(content, OldTitle) {
      ReplaceAbsent(content, OldTitle, NewTitle);
    } else {
      ReplacePresent(content, OldTitle, NewTitle);
    }
  }

  /** Text outside the replaced occurrences is copied: the result renders the leftmost pieces of the content. */
  lemma PatchTemplateFrame(ps: seq<Piece>)
    requires Leftmost(Replacing(OldTitle, NewTitle), ps)
    ensures forall k | 0 <= k < |ps| && ps[k].Matched? :: ps[k].text == OldTitle
    ensures PatchTemplate(Source(ps)) == Target(Replacing(OldTitle, NewTitle), ps)
  {
    ReplaceRendersPieces(OldTitle, NewTitle, ps);
  }
}
