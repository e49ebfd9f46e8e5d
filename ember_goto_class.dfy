/**
 * Goto-class symbol resolution of `EmberGotoClassContributor`: index keys
 * become names, a name becomes the files indexed under it, and each file
 * becomes one navigation entry per content root of its Ember module under
 * which an `EmberName` can be derived for it.
 *
 * The platform services (the file index, module lookup, PSI lookup, content
 * roots, `EmberName.from` and the icon provider) are uninterpreted functions,
 * gathered in a `Platform` record.
 */
module EmberGotoClass {
  import opened Wrappers
  import opened KotlinStdlib

  /** Platform handles the model only compares, never inspects. */
  type VirtualFile(==, !new)
  type Module(==, !new)
  type ContentRoot(==, !new)
  type PsiFile(==, !new)
  type EmberName(==, !new)
  type Icon(==, !new)
  type SearchScope(==, !new)

  /** The services the contributor queries, for one project. */
  datatype Platform = Platform(
    // FileBasedIndex.getAllKeys(EmberFileIndex.NAME, project)
    allKeys: seq<string>,
    // FileBasedIndex.getContainingFiles(EmberFileIndex.NAME, name, scope)
    containingFiles: (string, SearchScope) -> seq<VirtualFile>,
    // FindSymbolParameters.searchScopeFor(project, includeNonProjectItems)
    searchScopeFor: bool -> SearchScope,
    // file.getEmberModule(project)
    emberModule: VirtualFile -> Option<Module>,
    // PsiManager.findFile(file)
    findFile: VirtualFile -> Option<PsiFile>,
    // ModuleRootManager.getInstance(module).contentRoots
    contentRoots: Module -> seq<ContentRoot>,
    // EmberName.from(root, file)
    emberNameFrom: (ContentRoot, VirtualFile) -> Option<EmberName>,
    // EmberName.displayName
    displayName: EmberName -> string,
    // EmberIconProvider().getIcon(name)
    iconFor: EmberName -> Option<Icon>,
    // DEFAULT_ICON
    defaultIcon: Icon)

  /** The three presentation fields the contributor sets; the rest is delegated to the PSI file's presentation. */
  datatype Presentation = Presentation(presentableText: string, locationString: Option<string>, icon: Icon)

  /** `DelegatingNavigationItem(psiFile).withPresentation(presentation)`. */
  datatype NavigationItem = NavigationItem(target: PsiFile, presentation: Presentation)

  /** `getNames`: every key of the Ember file index, unfiltered, whatever `includeNonProjectItems` says. */
  function GetNames(p: Platform, includeNonProjectItems: bool): (names: seq<string>)
    ensures |names| == |p.allKeys|
    ensures forall i :: 0 <= i < |names| ==> names[i] == p.allKeys[i]
  {
    p.allKeys
  }

  /** `EmberName.from(it, file)` for each root, in root order. */
  function NamesPerRoot(p: Platform, roots: seq<ContentRoot>, file: VirtualFile): (r: seq<Option<EmberName>>)
    ensures |r| == |roots|
    ensures forall i :: 0 <= i < |roots| ==> r[i] == p.emberNameFrom(roots[i], file)
  {
    if roots == [] then [] else [p.emberNameFrom(roots[0], file)] + NamesPerRoot(p, roots[1..], file)
  }

  /** The icon of an entry: the provider's icon, else `DEFAULT_ICON`. */
  function IconOf(p: Platform, n: EmberName): (icon: Icon)
    ensures p.iconFor(n).Some? ==> icon == p.iconFor(n).value
    ensures p.iconFor(n).None? ==> icon == p.defaultIcon
  {
    p.iconFor(n).GetOr(p.defaultIcon)
  }

  /** The entry for one derived name. */
  function Entry(p: Platform, psi: PsiFile, n: EmberName): (e: NavigationItem)
    ensures e.target == psi
    ensures e.presentation.presentableText == p.displayName(n)
    ensures e.presentation.locationString == None
    ensures e.presentation.icon == IconOf(p, n)
  {
    NavigationItem(psi, Presentation(p.displayName(n), None, IconOf(p, n)))
  }

  /** The entries for a sequence of derived names, one each, in order. */
  function Entries(p: Platform, psi: PsiFile, names: seq<EmberName>): (r: seq<NavigationItem>)
    ensures |r| == |names|
    ensures forall k :: 0 <= k < |r| ==>
      && r[k].target == psi
      && r[k].presentation.presentableText == p.displayName(names[k])
      && r[k].presentation.locationString == None
      && r[k].presentation.icon == IconOf(p, names[k])
  {
    if names == [] then [] else [Entry(p, psi, names[0])] + Entries(p, psi, names[1..])
  }

  /** The content-root positions under which `file` derives a name. */
  ghost function DerivingRoots(p: Platform, roots: seq<ContentRoot>, file: VirtualFile): set<nat>
  {
    set i: nat | i < |roots| && p.emberNameFrom(roots[i], file).Some?
  }

  /** `convert(file, project)`. */
  function Convert(p: Platform, file: VirtualFile): (r: seq<NavigationItem>)
    ensures p.emberModule(file).None? || p.findFile(file).None? ==> r == []
    ensures p.emberModule(file).Some? && p.findFile(file).Some? ==>
      |r| == |DerivingRoots(p, p.contentRoots(p.emberModule(file).value), file)|
    ensures forall k :: 0 <= k < |r| ==> r[k].presentation.locationString == None
  {
    match p.emberModule(file)
    case None => []
    case Some(m) =>
      match p.findFile(file)
      case None => []
      case Some(psi) =>
        var roots := p.contentRoots(m);
        var derived := NamesPerRoot(p, roots, file);
        assert PresentIndices(derived) == DerivingRoots(p, roots, file);
        FilterNotNullLength(derived);
        Entries(p, psi, FilterNotNull(derived))
  }

  /** `e` presents the name that `EmberName.from(root, file)` derives. */
  predicate PresentsRoot(p: Platform, file: VirtualFile, root: ContentRoot, e: NavigationItem) {
    var n := p.emberNameFrom(root, file);
    n.Some? && e.presentation == Presentation(p.displayName(n.value), None, IconOf(p, n.value))
  }

  /**
   * Every entry of a file names its PSI file and comes from a content root
   * of the file's module under which `EmberName.from` succeeds: its text is
   * that name's display name, its location is absent and its icon is the
   * provider's icon or the default.
   */
  lemma ConvertEntryFields(p: Platform, file: VirtualFile, e: NavigationItem)
    requires e in Convert(p, file)
    ensures p.emberModule(file).Some? && p.findFile(file).Some?
    ensures e.target == p.findFile(file).value
    ensures exists i :: 0 <= i < |p.contentRoots(p.emberModule(file).value)| && PresentsRoot(p, file, p.contentRoots(p.emberModule(file).value)[i], e)
  {
    var roots := p.contentRoots(p.emberModule(file).value);
    var derived := NamesPerRoot(p, roots, file);
    var k :| 0 <= k < |Convert(p, file)| && Convert(p, file)[k] == e;
    var n := FilterNotNull(derived)[k];
    FilterNotNullMembership(derived, n);
    var i :| 0 <= i < |derived| && derived[i] == Some(n);
    assert p.emberNameFrom(roots[i], file) == Some(n);
  }

  /**
   * Conversely, every content root under which `EmberName.from` succeeds
   * yields an entry presenting that name, at the position given by the
   * number of deriving roots before it. Distinct deriving roots thus occupy
   * distinct, increasing positions, and with the count in `Convert` the
   * entries are exactly one per deriving root, in root order.
   */
  lemma ConvertEntryAtRoot(p: Platform, file: VirtualFile, i: nat)
    requires p.emberModule(file).Some? && p.findFile(file).Some?
    requires i < |p.contentRoots(p.emberModule(file).value)|
    requires p.emberNameFrom(p.contentRoots(p.emberModule(file).value)[i], file).Some?
    ensures var roots := p.contentRoots(p.emberModule(file).value);
      var k := |DerivingRoots(p, roots[..i], file)|;
      && k < |Convert(p, file)|
      && Convert(p, file)[k] == Entry(p, p.findFile(file).value, p.emberNameFrom(roots[i], file).value)
      && PresentsRoot(p, file, roots[i], Convert(p, file)[k])
  {
    var roots := p.contentRoots(p.emberModule(file).value);
    var psi := p.findFile(file).value;
    var n := p.emberNameFrom(roots[i], file).value;
    var a, c := NamesPerRoot(p, roots[..i], file), NamesPerRoot(p, roots[i + 1..], file);
    assert roots == roots[..i] + ([roots[i]] + roots[i + 1..]);
    NamesPerRootAppend(p, roots[..i], [roots[i]] + roots[i + 1..], file);
    NamesPerRootAppend(p, [roots[i]], roots[i + 1..], file);
    assert NamesPerRoot(p, [roots[i]], file) == [Some(n)];
    FilterNotNullAppend(a, [Some(n)] + c);
    FilterNotNullAppend([Some(n)], c);
    assert FilterNotNull([Some(n)]) == [n];
    assert PresentIndices(a) == DerivingRoots(p, roots[..i], file);
    FilterNotNullLength(a);
    var names := FilterNotNull(NamesPerRoot(p, roots, file));
    assert names == FilterNotNull(a) + ([n] + FilterNotNull(c));
    assert names[|FilterNotNull(a)|] == n;
  }

  /**
   * Entries follow content-root order and are not de-duplicated: splitting
   * the roots splits the entries the same way.
   */
  lemma EntriesFollowRootOrder(p: Platform, psi: PsiFile, file: VirtualFile, roots1: seq<ContentRoot>, roots2: seq<ContentRoot>)
    ensures Entries(p, psi, FilterNotNull(NamesPerRoot(p, roots1 + roots2, file)))
         == Entries(p, psi, FilterNotNull(NamesPerRoot(p, roots1, file)))
          + Entries(p, psi, FilterNotNull(NamesPerRoot(p, roots2, file)))
  {
    var a, b := NamesPerRoot(p, roots1, file), NamesPerRoot(p, roots2, file);
    NamesPerRootAppend(p, roots1, roots2, file);
    FilterNotNullAppend(a, b);
    EntriesAppend(p, psi, FilterNotNull(a), FilterNotNull(b));
  }

  lemma NamesPerRootAppend(p: Platform, roots1: seq<ContentRoot>, roots2: seq<ContentRoot>, file: VirtualFile)
    ensures NamesPerRoot(p, roots1 + roots2, file) == NamesPerRoot(p, roots1, file) + NamesPerRoot(p, roots2, file)
  {
    var a, b, c := NamesPerRoot(p, roots1, file), NamesPerRoot(p, roots2, file), NamesPerRoot(p, roots1 + roots2, file);
    forall i | 0 <= i < |c| ensures c[i] == (a + b)[i] {
      if i < |roots1| {
        assert (roots1 + roots2)[i] == roots1[i];
      } else {
        assert (roots1 + roots2)[i] == roots2[i - |roots1|];
      }
    }
  }

  lemma {:induction false} EntriesAppend(p: Platform, psi: PsiFile, xs: seq<EmberName>, ys: seq<EmberName>)
    ensures Entries(p, psi, xs + ys) == Entries(p, psi, xs) + Entries(p, psi, ys)
    decreases |xs|
  {
    if xs == [] {
      assert xs + ys == ys;
    } else {
      assert (xs + ys)[1..] == xs[1..] + ys;
      EntriesAppend(p, psi, xs[1..], ys);
    }
  }

  /**
   * A file whose module has two content roots, each deriving a name, yields
   * exactly two entries in root order, both without a location string, even
   * when the two names coincide.
   */
  lemma TwoRootsTwoEntries(p: Platform, file: VirtualFile, m: Module, psi: PsiFile, r1: ContentRoot, r2: ContentRoot, n1: EmberName, n2: EmberName)
    requires p.emberModule(file) == Some(m) && p.findFile(file) == Some(psi)
    requires p.contentRoots(m) == [r1, r2]
    requires p.emberNameFrom(r1, file) == Some(n1) && p.emberNameFrom(r2, file) == Some(n2)
    ensures Convert(p, file) == [Entry(p, psi, n1), Entry(p, psi, n2)]
    ensures Convert(p, file)[0].presentation.locationString == None
    ensures Convert(p, file)[1].presentation.locationString == None
  {
    var derived := NamesPerRoot(p, [r1, r2], file);
    assert derived == [Some(n1)] + [Some(n2)];
    FilterNotNullAppend([Some(n1)], [Some(n2)]);
    assert FilterNotNull([Some(n1)]) == [n1];
    assert FilterNotNull([Some(n2)]) == [n2];
  }

  /** The entries of each file in turn, concatenated in file order (the `flatMap` over the containing files). */
  function ItemsOf(p: Platform, files: seq<VirtualFile>): (r: seq<NavigationItem>)
    ensures forall e :: e in r <==> exists j :: 0 <= j < |files| && e in Convert(p, files[j])
  {
    var f := (file: VirtualFile) => Convert(p, file);
    forall e ensures e in FlatMap(files, f) <==> exists j :: 0 <= j < |files| && e in Convert(p, files[j]) {
      FlatMapMembership(files, f, e);
    }
    FlatMap(files, f)
  }

  /** `getItemsByName(name, project, scope)`: the entries of every containing file, in index order. */
  function GetItemsByNameInScope(p: Platform, name: string, scope: SearchScope): (r: seq<NavigationItem>)
    ensures forall e :: e in r <==> exists j :: 0 <= j < |p.containingFiles(name, scope)| && e in Convert(p, p.containingFiles(name, scope)[j])
  {
    ItemsOf(p, p.containingFiles(name, scope))
  }

  /** When the index lists files `a + b`, the items are the entries for `a` followed by those for `b`. */
  lemma ItemsFollowFileOrder(p: Platform, name: string, scope: SearchScope, a: seq<VirtualFile>, b: seq<VirtualFile>)
    requires p.containingFiles(name, scope) == a + b
    ensures GetItemsByNameInScope(p, name, scope) == ItemsOf(p, a) + ItemsOf(p, b)
  {
    FlatMapAppend(a, b, (file: VirtualFile) => Convert(p, file));
  }

  /** The `ChooseByNameContributor` entry point: the pattern is ignored and the scope comes from `includeNonProjectItems`. */
  function GetItemsByName(p: Platform, name: string, pattern: string, includeNonProjectItems: bool): (r: seq<NavigationItem>)
    ensures forall e :: e in r <==>
      exists j :: 0 <= j < |p.containingFiles(name, p.searchScopeFor(includeNonProjectItems))| &&
        e in Convert(p, p.containingFiles(name, p.searchScopeFor(includeNonProjectItems))[j])
  {
    GetItemsByNameInScope(p, name, p.searchScopeFor(includeNonProjectItems))
  }

  /** The typed pattern plays no part: only the name and the scope do. */
  lemma GetItemsByNameIgnoresPattern(p: Platform, name: string, pattern1: string, pattern2: string, includeNonProjectItems: bool)
    ensures GetItemsByName(p, name, pattern1, includeNonProjectItems) == GetItemsByName(p, name, pattern2, includeNonProjectItems)
  {
  }
}
