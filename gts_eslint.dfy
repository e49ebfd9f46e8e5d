/**
 * The ESLint bridge for `.gts` (Glimmer TypeScript) files: the relabelling
 * view that makes ESLint treat a `.gts` file as a `.ts` file, the staleness
 * guard of the single-error fix, the error-to-intention converter, the
 * problem-group selector, and the acceptance predicates of the annotator and
 * of the fix-file action.
 *
 * Platform objects (virtual files, PSI files, documents, editors, foreign
 * intention actions) are values whose observable attributes are fields;
 * platform services the code calls are parameters.
 */
module GtsEslint {
  import opened Wrappers
  import opened KotlinStdlib

  /** Kotlin `Long`. */
  newtype Long = x: int | -0x8000_0000_0000_0000 <= x < 0x8000_0000_0000_0000

  /** Kotlin `Byte`, the element type of `contentsToByteArray()`. */
  newtype Byte = x: int | -128 <= x < 128

  /** How a Kotlin call ends: with a value, or with a `NullPointerException` from a null check. */
  datatype Outcome<+T> = Returns(value: T) | ThrowsNullPointer

  /** Platform handles the model only compares, never inspects. */
  type FileSystem(==)
  type FileHandle(==)
  type ForeignAction(==)
  type InspectionClass(==)

  // ---------------------------------------------------------------------------
  // Files

  datatype FileType = GtsFileType | OtherFileType(name: string)

  /** What a `VirtualFile` answers to the queries the linter makes of it. */
  datatype VirtualFile = VirtualFile(
    name: string,
    path: string,
    extension: Option<string>,
    inLocalFileSystem: bool,
    fileSystem: FileSystem,
    writable: bool,
    directory: bool,
    valid: bool,
    parent: Option<FileHandle>,
    children: seq<FileHandle>,
    contents: seq<Byte>,
    timeStamp: Long,
    length: Long,
    fileType: FileType,
    modificationStamp: Long)

  const GtsSuffix: string := ".gts"
  const TsSuffix: string := ".ts"

  /**
   * `FakeVirtualVile(virtualFile)`: the answers of the relabelling view in
   * terms of the wrapped file's. Extension, path, local-file-system flag and
   * modification stamp are overridden; the other queries recorded in
   * `VirtualFile` are forwarded. Queries the view does not override run on
   * the view itself and are not part of this record.
   */
  function FakeVirtualFile(f: VirtualFile): (v: VirtualFile)
    ensures v.extension == Some("ts")
    ensures v.modificationStamp == 0
    ensures v.inLocalFileSystem
    ensures v.path == Replace(f.path, GtsSuffix, TsSuffix)
    ensures v.name == f.name
    ensures v.contents == f.contents && v.length == f.length && v.timeStamp == f.timeStamp
    ensures v.fileSystem == f.fileSystem && v.writable == f.writable && v.directory == f.directory
    ensures v.valid == f.valid && v.parent == f.parent && v.children == f.children
    ensures v.fileType == f.fileType
  {
    f.(extension := Some("ts"),
       inLocalFileSystem := true,
       path := Replace(f.path, GtsSuffix, TsSuffix),
       modificationStamp := 0)
  }

  /** If the replacement output does not start with '.', its first character came from the input unreplaced. */
  lemma ReplaceGtsHead(t: string)
    requires |Replace(t, GtsSuffix, TsSuffix)| > 0
    requires Replace(t, GtsSuffix, TsSuffix)[0] != '.'
    ensures |t| > 0
    ensures t[0] == Replace(t, GtsSuffix, TsSuffix)[0]
    ensures Replace(t, GtsSuffix, TsSuffix)[1..] == Replace(t[1..], GtsSuffix, TsSuffix)
  {
    if |t| < |GtsSuffix| {
      assert Replace(t[1..], GtsSuffix, TsSuffix) == t[1..];
    }
  }

  /** Prefixing `.ts` to a string without `.gts` creates none. */
  lemma NoGtsAfterTs(rt: string)
    requires !Contains(rt, GtsSuffix)
    ensures !Contains(TsSuffix + rt, GtsSuffix)
  {
    var r := TsSuffix + rt;
    forall i: nat | i <= |r| && OccursAt(r, GtsSuffix, i) ensures false {
      assert r[i] == '.' && r[i + 1] == 'g' by {
        assert r[i..i + 4][0] == r[i] && r[i..i + 4][1] == r[i + 1];
      }
      assert i >= 3;
      assert r[i..i + 4] == rt[i - 3..i + 1];
      assert OccursAt(rt, GtsSuffix, i - 3);
    }
  }

  /**
   * Keeping an unmatched first character in front of the rewritten rest
   * creates no `.gts`: one starting there would have matched at the front.
   */
  lemma NoGtsAfterUnmatched(s: string)
    requires |s| >= |GtsSuffix| && s[..4] != GtsSuffix
    requires !Contains(Replace(s[1..], GtsSuffix, TsSuffix), GtsSuffix)
    ensures !Contains([s[0]] + Replace(s[1..], GtsSuffix, TsSuffix), GtsSuffix)
  {
    var rs := Replace(s[1..], GtsSuffix, TsSuffix);
    var r := [s[0]] + rs;
    forall i: nat | i <= |r| && OccursAt(r, GtsSuffix, i) ensures false {
      if i >= 1 {
        assert r[i..i + 4] == rs[i - 1..i + 3];
        assert OccursAt(rs, GtsSuffix, i - 1);
      } else {
        assert s[0] == '.' && rs[0] == 'g' && rs[1] == 't' && rs[2] == 's' by {
          assert r[..4][0] == r[0] && r[..4][1] == r[1] && r[..4][2] == r[2] && r[..4][3] == r[3];
        }
        ReplaceGtsHead(s[1..]);
        ReplaceGtsHead(s[2..]);
        assert s[2..][1..] == s[3..];
        ReplaceGtsHead(s[3..]);
      }
    }
  }

  /** Replacing `.gts` by `.ts` never leaves or creates a `.gts`. */
  lemma {:induction false} ReplaceGtsLeavesNone(s: string)
    ensures !Contains(Replace(s, GtsSuffix, TsSuffix), GtsSuffix)
    decreases |s|
  {
    if |s| < |GtsSuffix| {
      assert Replace(s, GtsSuffix, TsSuffix) == s;
    } else if s[..4] == GtsSuffix {
      ReplaceGtsLeavesNone(s[4..]);
      NoGtsAfterTs(Replace(s[4..], GtsSuffix, TsSuffix));
    } else {
      ReplaceGtsLeavesNone(s[1..]);
      NoGtsAfterUnmatched(s);
    }
  }

  /** A trailing `.gts` becomes a trailing `.ts`; no occurrence straddles the join. */
  lemma {:induction false} ReplaceGtsAppend(s: string)
    ensures Replace(s + GtsSuffix, GtsSuffix, TsSuffix) == Replace(s, GtsSuffix, TsSuffix) + TsSuffix
    decreases |s|
  {
    var sg := s + GtsSuffix;
    if s == [] {
      assert sg == GtsSuffix && sg[4..] == [];
    } else if |s| < |GtsSuffix| {
      assert sg[|s|] == '.';
      assert sg[..4][|s|] == sg[|s|];
      assert sg[..4] != GtsSuffix;
      assert sg[1..] == s[1..] + GtsSuffix;
      ReplaceGtsAppend(s[1..]);
      assert Replace(s, GtsSuffix, TsSuffix) == s;
      assert Replace(s[1..], GtsSuffix, TsSuffix) == s[1..];
    } else if s[..4] == GtsSuffix {
      assert sg[..4] == GtsSuffix && sg[4..] == s[4..] + GtsSuffix;
      ReplaceGtsAppend(s[4..]);
    } else {
      assert sg[..4] == s[..4];
      assert sg[1..] == s[1..] + GtsSuffix;
      ReplaceGtsAppend(s[1..]);
    }
  }

  /**
   * The view's path contains no `.gts`, and it equals the wrapped path
   * exactly when the wrapped path contains no `.gts`.
   */
  lemma FakePathRewrite(f: VirtualFile)
    ensures !Contains(FakeVirtualFile(f).path, GtsSuffix)
    ensures FakeVirtualFile(f).path == f.path <==> !Contains(f.path, GtsSuffix)
  {
    ReplaceGtsLeavesNone(f.path);
    if !Contains(f.path, GtsSuffix) {
      ReplaceWithoutOccurrence(f.path, GtsSuffix, TsSuffix);
    }
  }

  /**
   * A hybrid file `<dir>/<base>.gts` (no other `.gts` in the path) is seen by
   * the linter at `<dir>/<base>.ts`, with extension `ts`; its name is still
   * the `.gts` name.
   */
  lemma FakeViewOfHybridFile(f: VirtualFile, stem: string)
    requires f.path == stem + GtsSuffix && !Contains(stem, GtsSuffix)
    ensures FakeVirtualFile(f).path == stem + TsSuffix
    ensures FakeVirtualFile(f).extension == Some("ts")
    ensures FakeVirtualFile(f).name == f.name
  {
    ReplaceGtsAppend(stem);
    ReplaceWithoutOccurrence(stem, GtsSuffix, TsSuffix);
  }

  /** Every occurrence is rewritten, also one inside a directory name. */
  lemma FakePathRewritesDirectories(f: VirtualFile)
    requires f.path == "a.gts/b.gts"
    ensures FakeVirtualFile(f).path == "a.ts/b.ts"
  {
    assert f.path == "a.gts/b" + GtsSuffix;
    ReplaceGtsAppend("a.gts/b");
    assert Replace("/b", GtsSuffix, TsSuffix) == "/b";
    assert ".gts/b"[..4] == GtsSuffix && ".gts/b"[4..] == "/b";
    assert "a.gts/b"[..4] != GtsSuffix && "a.gts/b"[1..] == ".gts/b";
  }

  /** A half-open range of offsets into a file's contents. */
  datatype TextRange = TextRange(startOffset: nat, endOffset: nat)

  predicate RangeWithin(r: TextRange, contents: seq<Byte>) {
    r.startOffset <= r.endOffset <= |contents|
  }

  /** A range computed against the view is valid on, and addresses the same bytes of, the wrapped file. */
  lemma RangePassthrough(f: VirtualFile, r: TextRange)
    ensures RangeWithin(r, FakeVirtualFile(f).contents) <==> RangeWithin(r, f.contents)
    ensures RangeWithin(r, f.contents) ==>
      FakeVirtualFile(f).contents[r.startOffset..r.endOffset] == f.contents[r.startOffset..r.endOffset]
  {
  }

  /**
   * PSI files: a `GtsFile`, any other PSI file, or the delegating wrapper
   * `FakeFile(psiFile)`. Kotlin's `by` delegation does not make the wrapper
   * a `GtsFile`, so it is its own kind here.
   */
  datatype PsiFile =
    | GtsFile(file: Option<VirtualFile>)
    | OtherPsiFile(file: Option<VirtualFile>)
    | FakeFile(psiFile: PsiFile)

  /**
   * `getVirtualFile()`, nullable (a PSI file held only in memory has none).
   * The wrapper passes the wrapped file's answer to the non-null parameter of
   * `FakeVirtualVile`, so it throws when that answer is null or itself threw.
   */
  function VirtualFileOf(p: PsiFile): (r: Outcome<Option<VirtualFile>>)
    ensures !p.FakeFile? ==> r == Returns(p.file)
    ensures p.FakeFile? ==>
      (r.Returns? <==> VirtualFileOf(p.psiFile).Returns? && VirtualFileOf(p.psiFile).value.Some?)
    ensures p.FakeFile? && r.Returns? ==>
      r.value == Some(FakeVirtualFile(VirtualFileOf(p.psiFile).value.value))
  {
    match p
    case GtsFile(f) => Returns(f)
    case OtherPsiFile(f) => Returns(f)
    case FakeFile(w) =>
      match VirtualFileOf(w)
      case Returns(Some(f)) => Returns(Some(FakeVirtualFile(f)))
      case Returns(None) => ThrowsNullPointer
      case ThrowsNullPointer => ThrowsNullPointer
  }

  /** Wrapping a PSI file without a virtual file makes the wrapper's `getVirtualFile()` throw. */
  lemma FakeFileOfInMemoryFileThrows(p: PsiFile)
    requires VirtualFileOf(p) == Returns(None)
    ensures VirtualFileOf(FakeFile(p)) == ThrowsNullPointer
  {
  }

  /** `GtsEslintExternalAnnotator.acceptPsiFile`: only `.gts` PSI files, never the wrapper. */
  predicate AcceptPsiFile(p: PsiFile)
    ensures AcceptPsiFile(p) <==> p.GtsFile?
    ensures p.FakeFile? ==> !AcceptPsiFile(p)
  {
    p.GtsFile?
  }

  /** `GtsEsLintFixAction.isFileAccepted`: files of the `.gts` file type. */
  predicate IsFileAccepted(f: VirtualFile)
    ensures IsFileAccepted(f) <==> f.fileType == GtsFileType
  {
    f.fileType == GtsFileType
  }

  /** The view forwards the file type, so acceptance by file type survives relabelling. */
  lemma FakeViewKeepsAcceptance(f: VirtualFile)
    ensures IsFileAccepted(FakeVirtualFile(f)) <==> IsFileAccepted(f)
  {
  }

  // ---------------------------------------------------------------------------
  // Findings and intention actions

  /** `EslintError.FixInfo`: a textual patch. */
  datatype FixInfo = FixInfo(range: TextRange, text: string)

  /** An ESLint finding: its rule code (nullable), its fix (nullable) and its suggestions. */
  datatype EslintError = EslintError(code: Option<string>, fixInfo: Option<FixInfo>, suggestions: seq<FixInfo>)

  /** A `JSLinterErrorBase`: an `EslintError` or an error of another linter. */
  datatype LinterError = Eslint(error: EslintError) | OtherLinterError

  datatype Document = Document(modificationStamp: Long)

  datatype Editor = Editor(document: Document)

  /** `MyEslintFixSingleErrorAction(toolName, file, fixInfo, errorCode, modificationStamp)`. */
  datatype SingleFixAction = SingleFixAction(fixInfo: FixInfo, errorCode: Option<string>, modificationStamp: Long)

  /**
   * Intention actions: the single-error fix, the fix-file action of
   * `GtsEsLintFixAction().asIntentionAction()`, or one built by foreign code
   * (suppressions, another caller's fix-file action).
   */
  datatype IntentionAction =
    | SingleFix(action: SingleFixAction)
    | FixFile
    | Foreign(foreign: ForeignAction)

  /** `ESLintSuppressionUtil`, a foreign service, as two functions of the error and the captured stamp. */
  datatype SuppressionUtil = SuppressionUtil(
    suppressForLineAction: (EslintError, Long) -> Option<IntentionAction>,
    suppressionsForError: (EslintError, Long) -> seq<IntentionAction>)

  const LinebreakStyle: string := "linebreak-style"

  /** `MyEslintFixSingleErrorAction.isAvailable`. */
  predicate IsAvailable(a: SingleFixAction, editor: Option<Editor>)
    ensures a.errorCode == Some(LinebreakStyle) ==> !IsAvailable(a, editor)
    ensures a.errorCode != Some(LinebreakStyle) ==>
      (IsAvailable(a, editor) <==> editor.Some? && editor.value.document.modificationStamp == a.modificationStamp)
  {
    if a.errorCode == Some(LinebreakStyle) then false
    else editor.Some? && editor.value.document.modificationStamp == a.modificationStamp
  }

  /** The availability override of `GtsEsLintFixAction.asIntentionAction()`: the PSI file is a `GtsFile`. */
  predicate FixFileAvailable(file: Option<PsiFile>)
    ensures FixFileAvailable(file) <==> file.Some? && AcceptPsiFile(file.value)
  {
    file.Some? && file.value.GtsFile?
  }

  /** `document?.modificationStamp ?: -1L`. */
  function CapturedStamp(document: Option<Document>): (s: Long)
    ensures document.Some? ==> s == document.value.modificationStamp
    ensures document.None? ==> s == -1
  {
    match document
    case Some(d) => d.modificationStamp
    case None => -1
  }

  /** One single-error fix per suggestion, in suggestion order. */
  function SuggestionFixes(suggestions: seq<FixInfo>, code: Option<string>, stamp: Long): (r: seq<IntentionAction>)
    ensures |r| == |suggestions|
    ensures forall k :: 0 <= k < |r| ==> r[k] == SingleFix(SingleFixAction(suggestions[k], code, stamp))
  {
    if suggestions == [] then []
    else [SingleFix(SingleFixAction(suggestions[0], code, stamp))] + SuggestionFixes(suggestions[1..], code, stamp)
  }

  /**
   * What the error-to-intention converter returns for one error, where
   * `batchMode` is `holder.isBatchMode` and `document` the file's document.
   */
  function Intentions(
    error: LinterError, batchMode: bool, document: Option<Document>,
    fixFileAction: IntentionAction, util: SuppressionUtil): (r: seq<IntentionAction>)
    // not an ESLint error: nothing
    ensures error.OtherLinterError? ==> r == []
    // with fix info: [single fix], then the fix-file action (also in batch mode)
    ensures error.Eslint? && error.error.fixInfo.Some? ==>
      && 1 <= |r| <= 2
      && r[|r| - 1] == fixFileAction
      && (|r| == 2 <==> document.Some? && !batchMode)
      && (|r| == 2 ==> r[0] == SingleFix(SingleFixAction(error.error.fixInfo.value, error.error.code, CapturedStamp(document))))
    // no fix info, some suggestions: one single fix per suggestion, in order, also in batch mode
    ensures error.Eslint? && error.error.fixInfo.None? && error.error.suggestions != [] ==>
      && |r| == |error.error.suggestions|
      && forall k :: 0 <= k < |r| ==>
           r[k] == SingleFix(SingleFixAction(error.error.suggestions[k], error.error.code, CapturedStamp(document)))
    // neither: nothing in batch mode, otherwise at most the suppress-for-line action
    ensures error.Eslint? && error.error.fixInfo.None? && error.error.suggestions == [] ==>
      && |r| <= 1
      && (batchMode ==> r == [])
      && (!batchMode ==> r == ToSeq(util.suppressForLineAction(error.error, CapturedStamp(document))))
  {
    match error
    case OtherLinterError => []
    case Eslint(e) =>
      var stamp := CapturedStamp(document);
      if e.fixInfo.Some? then
        (if document.Some? && !batchMode then [SingleFix(SingleFixAction(e.fixInfo.value, e.code, stamp))] else [])
        + [fixFileAction]
      else if e.suggestions != [] then
        SuggestionFixes(e.suggestions, e.code, stamp)
      else if !batchMode then
        ToSeq(util.suppressForLineAction(e, stamp))
      else
        []
  }

  /** The converter lambda of the companion `apply`, building its result list step by step. */
  method ConvertError(
    error: LinterError, batchMode: bool, document: Option<Document>,
    fixFileAction: IntentionAction, util: SuppressionUtil) returns (result: seq<IntentionAction>)
    ensures result == Intentions(error, batchMode, document, fixFileAction, util)
  {
    var stamp := CapturedStamp(document);
    if error.OtherLinterError? {
      return [];
    }
    var e := error.error;
    result := [];
    if e.fixInfo.Some? {
      if document.Some? && !batchMode {
        result := result + [SingleFix(SingleFixAction(e.fixInfo.value, e.code, stamp))];
      }
      result := result + [fixFileAction];
    } else if e.suggestions != [] {
      var i := 0;
      while i < |e.suggestions|
        invariant 0 <= i <= |e.suggestions|
        invariant |result| == i
        invariant forall k :: 0 <= k < i ==> result[k] == SingleFix(SingleFixAction(e.suggestions[k], e.code, stamp))
      {
        result := result + [SingleFix(SingleFixAction(e.suggestions[i], e.code, stamp))];
        i := i + 1;
      }
    } else if !batchMode {
      var suppress := util.suppressForLineAction(e, stamp);
      if suppress.Some? {
        result := result + [suppress.value];
      }
    }
  }

  /** With fix info present the suggestions are never consulted. */
  lemma SuggestionsIgnoredWithFixInfo(
    e: EslintError, others: seq<FixInfo>, batchMode: bool, document: Option<Document>,
    fixFileAction: IntentionAction, util: SuppressionUtil)
    requires e.fixInfo.Some?
    ensures Intentions(Eslint(e), batchMode, document, fixFileAction, util)
         == Intentions(Eslint(e.(suggestions := others)), batchMode, document, fixFileAction, util)
  {
  }

  /**
   * Exclusivity: for an error with fix info, every single-error fix offered
   * carries that fix info, never one of the suggestions.
   */
  lemma FixInfoExcludesSuggestions(
    e: EslintError, batchMode: bool, document: Option<Document>, util: SuppressionUtil, k: nat)
    requires e.fixInfo.Some?
    requires k < |Intentions(Eslint(e), batchMode, document, FixFile, util)|
    requires Intentions(Eslint(e), batchMode, document, FixFile, util)[k].SingleFix?
    ensures Intentions(Eslint(e), batchMode, document, FixFile, util)[k].action.fixInfo == e.fixInfo.value
  {
  }

  /** Suggestions are offered whether or not the holder is in batch mode. */
  lemma SuggestionsIndependentOfBatchMode(
    e: EslintError, document: Option<Document>, fixFileAction: IntentionAction, util: SuppressionUtil)
    requires e.fixInfo.None? && e.suggestions != []
    ensures Intentions(Eslint(e), true, document, fixFileAction, util)
         == Intentions(Eslint(e), false, document, fixFileAction, util)
  {
  }

  /**
   * The single-error fix offered for an error with fix info, outside batch
   * mode, is available exactly when its rule is not `linebreak-style` and the
   * editor's document still has the stamp the document had at analysis time.
   */
  lemma OfferedFixAvailability(
    e: EslintError, d: Document, fixFileAction: IntentionAction, util: SuppressionUtil, editor: Option<Editor>)
    requires e.fixInfo.Some?
    ensures var r := Intentions(Eslint(e), false, Some(d), fixFileAction, util);
      && r[0].SingleFix?
      && (IsAvailable(r[0].action, editor) <==>
            e.code != Some(LinebreakStyle) && editor.Some? && editor.value.document.modificationStamp == d.modificationStamp)
  {
  }

  /** `JSAnnotatorProblemGroup(intentionActions, null)`. */
  datatype ProblemGroup = ProblemGroup(suppressions: seq<IntentionAction>, problemName: Option<string>)

  /** The problem-group selector of the companion `apply`; `error` is nullable. */
  function ProblemGroupFor(error: Option<LinterError>, batchMode: bool, document: Option<Document>, util: SuppressionUtil)
    : (g: Option<ProblemGroup>)
    ensures g.Some? <==> !batchMode && error.Some? && error.value.Eslint?
    ensures g.Some? ==>
      g.value == ProblemGroup(util.suppressionsForError(error.value.error, CapturedStamp(document)), None)
  {
    if batchMode then None
    else if error.Some? && error.value.Eslint? then
      Some(ProblemGroup(util.suppressionsForError(error.value.error, CapturedStamp(document)), None))
    else None
  }

  // ---------------------------------------------------------------------------
  // Annotating a file

  /** The part of `JSLinterAnnotationResult` the converter sees: the errors, in order. */
  datatype AnnotationResult = AnnotationResult(errors: seq<LinterError>)

  /** How one error is annotated: its intentions and its problem group. */
  datatype Annotation = Annotation(error: LinterError, intentions: seq<IntentionAction>, problemGroup: Option<ProblemGroup>)

  /** The state of the host at the time of `apply`. */
  datatype Host = Host(batchMode: bool, document: Option<Document>, util: SuppressionUtil)

  /** The per-error work the builder does: each error annotated with the converter's intentions and its problem group, in order. */
  function AnnotationsFor(errors: seq<LinterError>, fixFileAction: IntentionAction, host: Host): (r: seq<Annotation>)
    ensures |r| == |errors|
    ensures forall k :: 0 <= k < |r| ==>
      && r[k].error == errors[k]
      && r[k].intentions == Intentions(errors[k], host.batchMode, host.document, fixFileAction, host.util)
      && r[k].problemGroup == ProblemGroupFor(Some(errors[k]), host.batchMode, host.document, host.util)
  {
    if errors == [] then []
    else
      [Annotation(errors[0],
                  Intentions(errors[0], host.batchMode, host.document, fixFileAction, host.util),
                  ProblemGroupFor(Some(errors[0]), host.batchMode, host.document, host.util))]
      + AnnotationsFor(errors[1..], fixFileAction, host)
  }

  /**
   * The companion `apply`. Its `inspectionClass!!` throws on a null
   * inspection class before the builder annotates anything; otherwise every
   * error is annotated.
   */
  function AnnotateErrors(
    errors: seq<LinterError>, fixFileAction: IntentionAction, host: Host,
    inspectionClass: Option<InspectionClass>): (r: Outcome<seq<Annotation>>)
    ensures inspectionClass.None? <==> r == ThrowsNullPointer
    ensures r.Returns? ==> r.value == AnnotationsFor(errors, fixFileAction, host)
  {
    if inspectionClass.None? then ThrowsNullPointer
    else Returns(AnnotationsFor(errors, fixFileAction, host))
  }

  /**
   * The annotator's `apply`: nothing (and no throw) without a result,
   * otherwise the companion with the `.gts` fix-file action and the
   * annotator's inspection class.
   */
  function Apply(annotationResult: Option<AnnotationResult>, host: Host, inspectionClass: Option<InspectionClass>)
    : (r: Outcome<seq<Annotation>>)
    ensures annotationResult.None? ==> r == Returns([])
    ensures annotationResult.Some? ==> r == AnnotateErrors(annotationResult.value.errors, FixFile, host, inspectionClass)
  {
    match annotationResult
    case None => Returns([])
    case Some(res) => AnnotateErrors(res.errors, FixFile, host, inspectionClass)
  }

  /**
   * Every ESLint error with fix info gets the `.gts` fix-file action as its
   * last intention, in batch mode too.
   */
  lemma ApplyOffersFixFile(res: AnnotationResult, host: Host, ic: InspectionClass, k: nat)
    requires k < |res.errors| && res.errors[k].Eslint? && res.errors[k].error.fixInfo.Some?
    ensures Apply(Some(res), host, Some(ic)).Returns?
    ensures var a := Apply(Some(res), host, Some(ic)).value[k].intentions;
      |a| > 0 && a[|a| - 1] == FixFile
  {
  }
}
