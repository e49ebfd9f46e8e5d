# Ember.js IntelliJ plugin: ESLint bridge for `.gts` files and goto-class resolution

This project models two pieces of decision logic of the Ember.js IntelliJ
plugin in Dafny and proves what they promise.

1. **The ESLint bridge for Glimmer TypeScript (`.gts`) files**
   (`GtsEslintExternalAnnotator.kt`, module `GtsEslint` in `gts_eslint.dfy`).
   - `FakeVirtualFile` is the relabelling view `FakeVirtualVile`. ESLint sees a
     file with extension `ts`, modification stamp `0`, and a path in which
     every `.gts` is replaced by `.ts`, and it reports that it lives in the
     local file system. The other queries recorded in the `VirtualFile`
     datatype are forwarded to the wrapped file.
   - `FakeFile` is the PSI wrapper whose virtual file is that view. Its
     `getVirtualFile()` throws when the wrapped PSI file has no virtual file.
   - `IsAvailable` is the staleness guard of the single-error fix.
   - `ConvertError` is the imperative error-to-intention converter. It is
     proved equal to the specification function `Intentions`.
   - `ProblemGroupFor` is the problem-group selector.
   - `AcceptPsiFile`, `IsFileAccepted` and `FixFileAvailable` are the
     acceptance predicates.
   - `Apply` and `AnnotateErrors` are the annotator's two `apply` functions.
     `AnnotateErrors` throws on a null inspection class; `Outcome` records
     such a `NullPointerException`.
2. **Goto-class symbol resolution** (`EmberGotoClassContributor.kt`, module
   `EmberGotoClass` in `ember_goto_class.dfy`). The pipeline runs: index keys
   → names → containing files → the module's content roots → `EmberName.from`
   → presentation entries.

`kotlin_stdlib.dfy` states the Kotlin library operations the code relies on:
`String.replace` (a left-to-right scan that replaces non-overlapping
occurrences), `filterNotNull` and `flatMap`. `wrappers.dfy` holds `Option`,
which stands for Kotlin's nullable types.

Platform objects are values holding their observable attributes. Platform
services are parameters: the `SuppressionUtil` and `Host` records on the
ESLint side, and the `Platform` record of uninterpreted functions on the
navigation side. Foreign handles that are only compared are opaque types.
Kotlin `Long` is a 64-bit `newtype` and Kotlin `Byte` an 8-bit signed one.

The model follows the code where it differs from what the code evidently intends:
- The fix-file action is added for an error with fix info in batch mode too
  (`GtsEslintExternalAnnotator.kt:121`).
- The view's name is forwarded unchanged, so it still ends in `.gts` (line 45).
- The path rewrite replaces every occurrence of `.gts`, including ones inside
  directory names (line 47; see `FakePathRewritesDirectories`).
- The `linebreak-style` exception lives in `isAvailable`, not in the
  converter. The converter still builds a single-error fix for that rule, and
  that fix is never available (`OfferedFixAvailability`).
- `FakeFile` delegates to the wrapped PSI file, but it is not a `GtsFile`, so
  `acceptPsiFile` rejects it.

## Model

| member | source | states |
|---|---|---|
| GtsEslint.IsAvailable | src/main/kotlin/com/emberjs/gts/GtsEslintExternalAnnotator.kt:31-37 | a fix whose error code is `linebreak-style` is never available; for any other code (including none) it is available iff an editor is present and its document's stamp equals the captured stamp |
| GtsEslint.FakeVirtualFile | src/main/kotlin/com/emberjs/gts/GtsEslintExternalAnnotator.kt:41-61 | the view reports extension `ts`, stamp 0 and local file system; its path is the `.gts`-to-`.ts` replacement of the wrapped path; its name, contents, length, timestamp, file system, flags, parent, children and file type equal the wrapped file's |
| GtsEslint.ReplaceGtsLeavesNone | src/main/kotlin/com/emberjs/gts/GtsEslintExternalAnnotator.kt:47 | after replacing `.gts` by `.ts`, the string contains no `.gts`, including none formed across a replacement |
| GtsEslint.ReplaceGtsAppend | src/main/kotlin/com/emberjs/gts/GtsEslintExternalAnnotator.kt:47 | a path ending in `.gts` is rewritten to the rewrite of its stem followed by `.ts` |
| GtsEslint.FakePathRewrite | src/main/kotlin/com/emberjs/gts/GtsEslintExternalAnnotator.kt:47 | the view's path contains no `.gts`, and it equals the wrapped path iff the wrapped path contains no `.gts` |
| GtsEslint.FakeViewOfHybridFile | src/main/kotlin/com/emberjs/gts/GtsEslintExternalAnnotator.kt:44-47 | for `<stem>.gts` with no other `.gts`, the view's path is `<stem>.ts` and its extension is `ts`, while its name is still the wrapped name |
| GtsEslint.FakePathRewritesDirectories | src/main/kotlin/com/emberjs/gts/GtsEslintExternalAnnotator.kt:47 | every occurrence is replaced, not only the extension: `a.gts/b.gts` becomes `a.ts/b.ts` |
| KotlinStdlib.Replace | src/main/kotlin/com/emberjs/gts/GtsEslintExternalAnnotator.kt:47 | replacing by a value no longer than the pattern never lengthens the string, and by one of equal length keeps its length |
| KotlinStdlib.ReplaceWithoutOccurrence | src/main/kotlin/com/emberjs/gts/GtsEslintExternalAnnotator.kt:47 | a string with no occurrence of the pattern is returned unchanged by `replace` |
| GtsEslint.RangePassthrough | src/main/kotlin/com/emberjs/gts/GtsEslintExternalAnnotator.kt:54-56 | a range is valid on the view iff it is valid on the wrapped file, and it addresses the same bytes there |
| GtsEslint.VirtualFileOf | src/main/kotlin/com/emberjs/gts/GtsEslintExternalAnnotator.kt:63-65 | other PSI files report their own, possibly null, virtual file; `FakeFile(p)` returns iff `p`'s answer returns a non-null file, and then answers with the relabelling view of it; otherwise it throws, because the view's constructor parameter is non-null |
| GtsEslint.FakeFileOfInMemoryFileThrows | src/main/kotlin/com/emberjs/gts/GtsEslintExternalAnnotator.kt:64 | wrapping a PSI file that has no virtual file makes the wrapper's `getVirtualFile()` throw |
| GtsEslint.IsFileAccepted | src/main/kotlin/com/emberjs/gts/GtsEslintExternalAnnotator.kt:73-75 | the fix-file action accepts a file iff its file type is the `.gts` file type |
| GtsEslint.FakeViewKeepsAcceptance | src/main/kotlin/com/emberjs/gts/GtsEslintExternalAnnotator.kt:59 | because the view forwards the file type, the view is accepted iff the wrapped file is, even though its extension is `ts` |
| GtsEslint.FixFileAvailable | src/main/kotlin/com/emberjs/gts/GtsEslintExternalAnnotator.kt:80-82 | the fix-file intention is available iff the PSI file is present and is a `GtsFile` |
| GtsEslint.AcceptPsiFile | src/main/kotlin/com/emberjs/gts/GtsEslintExternalAnnotator.kt:92-94 | only `GtsFile` PSI files are annotated; the `FakeFile` wrapper never is |
| GtsEslint.Apply | src/main/kotlin/com/emberjs/gts/GtsEslintExternalAnnotator.kt:96-103 | a null annotation result yields no annotations and no throw; otherwise the companion runs with the `.gts` fix-file action and the annotator's inspection class |
| Wrappers.ToSeq | src/main/kotlin/com/emberjs/gts/GtsEslintExternalAnnotator.kt:129 | a nullable value becomes an empty list when null and a one-element list otherwise, as `addIfNotNull` adds it |
| GtsEslint.CapturedStamp | src/main/kotlin/com/emberjs/gts/GtsEslintExternalAnnotator.kt:107-108 | the captured stamp is the document's modification stamp, or -1 when there is no document |
| GtsEslint.AnnotateErrors | src/main/kotlin/com/emberjs/gts/GtsEslintExternalAnnotator.kt:106-143 | it throws iff the inspection class is null, before anything is annotated; otherwise it returns the annotations of `AnnotationsFor` |
| GtsEslint.AnnotationsFor | src/main/kotlin/com/emberjs/gts/GtsEslintExternalAnnotator.kt:107-143 | one annotation per error, in order: the k-th holds the k-th error, the converter's intentions for it and its problem group under the same batch mode, document and stamp |
| GtsEslint.Intentions | src/main/kotlin/com/emberjs/gts/GtsEslintExternalAnnotator.kt:111-132 | a non-ESLint error gets nothing. With fix info, the list has 1 or 2 entries and ends with the fix-file action; the single fix (error code, captured stamp) comes first iff a document exists and not in batch mode. Otherwise, with suggestions, there is exactly one single fix per suggestion, in order (also in batch mode). With neither, nothing in batch mode and else at most the suppress-for-line action |
| GtsEslint.ConvertError | src/main/kotlin/com/emberjs/gts/GtsEslintExternalAnnotator.kt:111-132 | the list built step by step, walking the suggestions with a loop, equals `Intentions` for every error, batch mode and document |
| GtsEslint.SuggestionFixes | src/main/kotlin/com/emberjs/gts/GtsEslintExternalAnnotator.kt:122-127 | one single fix per suggestion, the k-th carrying the k-th suggestion, the error code and the captured stamp |
| GtsEslint.SuggestionsIgnoredWithFixInfo | src/main/kotlin/com/emberjs/gts/GtsEslintExternalAnnotator.kt:116-122 | when fix info is present, replacing the suggestions by any others leaves the converter's result unchanged |
| GtsEslint.FixInfoExcludesSuggestions | src/main/kotlin/com/emberjs/gts/GtsEslintExternalAnnotator.kt:116-127 | for an error with fix info, every single fix offered carries that fix info, never a suggestion |
| GtsEslint.SuggestionsIndependentOfBatchMode | src/main/kotlin/com/emberjs/gts/GtsEslintExternalAnnotator.kt:122-127 | suggestion fixes are offered identically in and out of batch mode |
| GtsEslint.OfferedFixAvailability | src/main/kotlin/com/emberjs/gts/GtsEslintExternalAnnotator.kt:30-37 | the single fix offered outside batch mode is available iff its rule is not `linebreak-style` and the editor's document still has the stamp captured at analysis time; any later edit that changes the stamp makes it unavailable |
| GtsEslint.ApplyOffersFixFile | src/main/kotlin/com/emberjs/gts/GtsEslintExternalAnnotator.kt:98-121 | with an inspection class, `apply` returns, and every ESLint error with fix info ends its intentions with the `.gts` fix-file action, in batch mode too |
| GtsEslint.ProblemGroupFor | src/main/kotlin/com/emberjs/gts/GtsEslintExternalAnnotator.kt:133-141 | the problem group is null in batch mode, for a null error and for a non-ESLint error; otherwise it holds the suppressions for the error at the captured stamp and no problem name |
| EmberGotoClass.GetNames | src/main/kotlin/com/emberjs/navigation/EmberGotoClassContributor.kt:21-22 | the names are exactly the index's keys, in index order, unfiltered |
| EmberGotoClass.GetItemsByName | src/main/kotlin/com/emberjs/navigation/EmberGotoClassContributor.kt:24-25 | an entry is in the result iff it is an entry of some file the index holds for the name in the scope derived from `includeNonProjectItems` |
| EmberGotoClass.GetItemsByNameIgnoresPattern | src/main/kotlin/com/emberjs/navigation/EmberGotoClassContributor.kt:24-25 | two calls that differ only in the typed pattern return the same list |
| EmberGotoClass.GetItemsByNameInScope | src/main/kotlin/com/emberjs/navigation/EmberGotoClassContributor.kt:27-31 | an entry is in the result iff it is an entry of some file the index holds for the name in that scope |
| EmberGotoClass.ItemsOf | src/main/kotlin/com/emberjs/navigation/EmberGotoClassContributor.kt:29-30 | an entry is in the items of a file list iff it is an entry of one of its files |
| EmberGotoClass.ItemsFollowFileOrder | src/main/kotlin/com/emberjs/navigation/EmberGotoClassContributor.kt:27-31 | when the index holds files `a + b` for the name and scope, `getItemsByName` returns the entries for `a` followed by those for `b`, so the index's file order is kept |
| KotlinStdlib.FlatMap | src/main/kotlin/com/emberjs/navigation/EmberGotoClassContributor.kt:30 | every element of the image of every input element is in the result |
| KotlinStdlib.FlatMapMembership | src/main/kotlin/com/emberjs/navigation/EmberGotoClassContributor.kt:30 | an element is in `flatMap`'s result iff it is in the image of some input element |
| KotlinStdlib.FlatMapAppend | src/main/kotlin/com/emberjs/navigation/EmberGotoClassContributor.kt:30 | `flatMap` distributes over concatenation |
| EmberGotoClass.Convert | src/main/kotlin/com/emberjs/navigation/EmberGotoClassContributor.kt:34-51 | no Ember module or no PSI file gives no entries; otherwise there is one entry per content-root position where `EmberName.from` succeeds; no entry has a location string |
| EmberGotoClass.NamesPerRoot | src/main/kotlin/com/emberjs/navigation/EmberGotoClassContributor.kt:40-41 | the i-th derived value is `EmberName.from` of the i-th content root and the file |
| KotlinStdlib.FilterNotNull | src/main/kotlin/com/emberjs/navigation/EmberGotoClassContributor.kt:42 | the result is no longer than the input and each of its elements occurs non-null in the input |
| KotlinStdlib.FilterNotNullLength | src/main/kotlin/com/emberjs/navigation/EmberGotoClassContributor.kt:42 | `filterNotNull` keeps exactly one element per non-null position |
| KotlinStdlib.FilterNotNullMembership | src/main/kotlin/com/emberjs/navigation/EmberGotoClassContributor.kt:42 | a value is kept iff it occurs non-null in the input |
| KotlinStdlib.FilterNotNullAppend | src/main/kotlin/com/emberjs/navigation/EmberGotoClassContributor.kt:42 | `filterNotNull` distributes over concatenation, so relative order is kept and duplicates stay |
| EmberGotoClass.Entries | src/main/kotlin/com/emberjs/navigation/EmberGotoClassContributor.kt:43-50 | one entry per derived name, in order; each targets the PSI file, shows the name's display name, has a null location string and the icon of `IconOf` |
| EmberGotoClass.Entry | src/main/kotlin/com/emberjs/navigation/EmberGotoClassContributor.kt:43-50 | the entry for one derived name targets the PSI file and presents the name's display name, a null location string and the icon of `IconOf` |
| EmberGotoClass.IconOf | src/main/kotlin/com/emberjs/navigation/EmberGotoClassContributor.kt:47 | the provider's icon when it has one, else `DEFAULT_ICON` |
| EmberGotoClass.ConvertEntryFields | src/main/kotlin/com/emberjs/navigation/EmberGotoClassContributor.kt:35-50 | every entry of a file implies the file has an Ember module and a PSI file; the entry targets that PSI file and presents the name derived under one of the module's content roots, with a null location and the provider or default icon |
| EmberGotoClass.ConvertEntryAtRoot | src/main/kotlin/com/emberjs/navigation/EmberGotoClassContributor.kt:35-50 | conversely, every content root under which `EmberName.from` succeeds yields the entry presenting its name, at the position counting the deriving roots before it; so with `Convert`'s count the entries are exactly one per deriving root, in root order |
| EmberGotoClass.EntriesFollowRootOrder | src/main/kotlin/com/emberjs/navigation/EmberGotoClassContributor.kt:40-50 | the entries for roots `r1 + r2` are those for `r1` followed by those for `r2`, so root order is kept and nothing is de-duplicated |
| EmberGotoClass.TwoRootsTwoEntries | src/main/kotlin/com/emberjs/navigation/EmberGotoClassContributor.kt:40-50 | two content roots that both derive a name give exactly two entries in root order, both with a null location, even when the two names are equal |

## Left out

- Running ESLint (`super.createInfo`, `super.fixFile`) is left out, because it is library code. The model keeps only the file handed to ESLint: `FakeFile`, whose virtual file is the view.
- The patch application of the base class `EslintFixSingleErrorAction` is left out. Only its availability guard is modelled.
- `JSLinterAnnotationsBuilder` rendering and highlighting granularity are left out. `AnnotateErrors` assumes the builder hands each error of the result to the converter and the problem-group selector.
- The `toolName` and the PSI `file` carried by each single-error fix are left out, as are `EslintConfigurable`, `JSLinterEditSettingsAction` (which receives the ESLint icon), the builder's default file-level error icon and `JavaScriptBundle` messages. They are UI and configuration with no decision logic.
- `ESLintSuppressionUtil` is left out. It is foreign, so it is modelled only as two uninterpreted functions of the error and the captured stamp.
- `FakeVirtualFile` records only the queries `FakeVirtualVile` overrides. The members it inherits from the `VirtualFile` base class run on the view itself and are not modelled: the charset and BOM, user data such as the detected line separator, `getNameWithoutExtension` (computed from the forwarded `.gts` name), and `getUrl`, `getCanonicalPath` and `getPresentableUrl` (computed from the rewritten path).
- The streams and refresh of the view (`getOutputStream`, `getInputStream`, `refresh`) are left out. The model keeps only the forwarded values as equalities.
- `VirtualFile.length` is kept as the forwarded value. Its relation to the contents' size belongs to the platform and is not modelled.
- The internals of `FileBasedIndex`, `ModuleRootManager`, `PsiManager`, `EmberName.from`, `EmberName.displayName` and `EmberIconProvider` are left out. They are uninterpreted functions of the `Platform` record. The delegated parts of `DelegatingItemPresentation` are not modelled either.
- Threading (background annotation passes, the UI thread) is left out. Only the stamp-equality guard is modelled.
- build.gradle.kts is not part of this model: it is a build script.
