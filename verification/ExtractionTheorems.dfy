/**
 * The two main results about source extraction
 * (src/source_archive_libarchive.cpp:272-491): the fold accepts exactly the archives whose
 * entries fit, and sealing then gives every directory the archive made its recorded metadata.
 */
module ExtractionTheorems {
  import opened Outcomes
  import opened PathText
  import opened SourceTree
  import opened Extraction
  import opened ExtractionSpec

  // ---------------------------------------------------------------------------------------
  // Entries
  // ---------------------------------------------------------------------------------------

  /** Before any entry of an archive, the tree stands for no entries. */
  lemma {:induction false} NothingRealized(t0: Tree, mask: Mode)
    requires t0.WellFormed()
    ensures Realizes(t0, [], [], Stage(t0, map[]), mask)
  {
    assert forall p :: Claimed(t0, [], [], p) ==> p in t0.names;
  }

  /** `open_parent` for a whole path. */
  lemma {:induction false} OpenParentRealizes(t0: Tree, es: seq<Entry>, s: Stage, p: Path, mask: Mode)
    requires CanonicalPath(p) && Realizes(t0, es, [], s, mask)
    ensures ParentFrom(s, p, mask, 0).ok <==> WalkFits(t0, es, p, 0)
    ensures ParentFrom(s, p, mask, 0).ok ==>
      && Realizes(t0, es, p[..|p| - 1], ParentFrom(s, p, mask, 0).stage, mask)
      && Trodden(t0, p[..|p| - 1]) && !NonFolderAt(es, p[..|p| - 1])
  {
    assert p[..0] == [];
    WalkRealizes(t0, es, s, p, 0, mask);
  }

  /** The condition on the last component, for a name that must be absent. */
  lemma {:induction false} AbsentFits(t0: Tree, es: seq<Entry>, p: Path)
    requires t0.WellFormed() && p != []
    ensures (WalkFits(t0, es, p, 0) && ParentFits(t0, p[..|p| - 1]) && !Claimed(t0, es, p[..|p| - 1], p)) <==>
      ((forall k :: 0 <= k < |p| ==> ComponentFits(t0, es, p, k)) && !Claimed(t0, es, [], p))
  {
    WalkFitsMeans(t0, es, p, 0);
    assert p[..|p| - 1] + [p[|p| - 1]] == p;
    assert p[..|p| - 1 + 1] == p;
    ClaimedEitherWay(t0, es, p[..|p| - 1], p[|p| - 1]);
  }

  /** Creating in the parent succeeds exactly when the name is new and the parent lets it in. */
  lemma {:induction false} CreatedFits(t0: Tree, es: seq<Entry>, directory: Path, name: string, node: Inode,
                                       s: Stage, mask: Mode)
    requires Realizes(t0, es, directory, s, mask) && !NonFolderAt(es, directory)
    ensures (Stat(s.tree, directory, name).Missing? && MayAdd(s.tree, directory, name)) <==>
      ParentFits(t0, directory) && !Claimed(t0, es, directory, directory + [name])
    ensures Created(s, directory, name, node).ok <==>
      ParentFits(t0, directory) && !Claimed(t0, es, directory, directory + [name])
  {
    GrantsInside(t0, es, directory, s, mask);
  }

  /** `extract_regular` and `extract_symlink` accept exactly what fits, and realize it. */
  lemma {:induction false} LeafRealizes(t0: Tree, es: seq<Entry>, s: Stage, p: Path, node: Inode, mask: Mode)
    requires Realizes(t0, es, [], s, mask) && CanonicalPath(p) && !node.DirectoryNode?
    ensures ExtractedLeaf(s, p, node, mask).ok <==> Fits(t0, es, Entry(p, Leaf(node)))
    ensures ExtractedLeaf(s, p, node, mask).ok ==>
      Realizes(t0, es + [Entry(p, Leaf(node))], [], ExtractedLeaf(s, p, node, mask).stage, mask)
  {
    var directory, name := p[..|p| - 1], p[|p| - 1];
    assert directory + [name] == p;
    OpenParentRealizes(t0, es, s, p, mask);
    AbsentFits(t0, es, p);
    var ready := ParentFrom(s, p, mask, 0);
    if ready.ok {
      CreatedFits(t0, es, directory, name, node, ready.stage, mask);
      if Created(ready.stage, directory, name, node).ok {
        PlaceRealizes(t0, es, directory, name, Leaf(node), node, ready.stage, mask);
      }
    }
  }

  /** A directory entry meets one of three situations, told apart by the map alone. */
  lemma {:induction false} FolderSituation(t0: Tree, es: seq<Entry>, directory: Path, p: Path, s: Stage, mask: Mode)
    requires Realizes(t0, es, directory, s, mask) && CanonicalPath(p)
    ensures Join(p) in s.directories <==> Made(t0, es, directory, p)
    ensures Join(p) in s.directories ==>
      (s.directories[Join(p)].explicitEntry <==> exists x :: x in es && x.path == p)
  {
    NotYetRecorded(t0, es, directory, s, mask, p);
    if Made(t0, es, directory, p) {
      assert Records(es, p, s.directories[Join(p)], mask);
      if x :| x in es && x.path == p {
        assert x.what.Folder? && Sound(x.what);
      }
    }
  }

  /** The collision rule for directories, in terms of what was claimed and made. */
  lemma {:induction false} FolderFits(t0: Tree, es: seq<Entry>, directory: Path, name: string)
    requires t0.WellFormed() && (forall e :: e in es ==> e.path !in t0.names)
    ensures var p := directory + [name];
      (p !in t0.names && forall x :: x in es ==> x.path != p) <==>
      (!Claimed(t0, es, directory, p) || (Made(t0, es, directory, p) && forall x :: x in es ==> x.path != p))
  {
    var p := directory + [name];
    if !Claimed(t0, es, directory, p) {
      UnclaimedHasNoEntry(t0, es, directory, p);
    } else if p !in t0.names && forall x :: x in es ==> x.path != p {
      assert !NonFolderAt(es, p);
    }
  }

  /** Components of an upgraded directory fit as soon as its parents do. */
  lemma {:induction false} MadeComponentFits(t0: Tree, es: seq<Entry>, directory: Path, name: string)
    requires t0.WellFormed() && Passable(t0, es, directory) && Made(t0, es, directory, directory + [name])
    ensures ComponentFits(t0, es, directory + [name], |directory|)
  {
    var p := directory + [name];
    assert p[..|directory|] == directory && p[..|directory| + 1] == p;
    ClaimedEitherWay(t0, es, directory, name);
    if directory in t0.names {
      assert p[..|directory|] in t0.names;
    }
  }

  /** A directory entry for a directory made implicitly, or made by its own entry already. */
  lemma {:induction false} FolderRestUpgrades(t0: Tree, es: seq<Entry>, s: Stage, directory: Path, name: string,
                                              metadata: Metadata, mask: Mode)
    requires Realizes(t0, es, directory, s, mask) && CanonicalPath(directory + [name])
    requires Made(t0, es, directory, directory + [name]) && metadata.explicitEntry
    ensures var p := directory + [name];
      var done := FolderRest(s, p, Join(p), metadata);
      && (done.ok <==> forall x :: x in es ==> x.path != p)
      && (done.ok ==> Realizes(t0, es + [Entry(p, Folder(metadata))], [], done.stage, mask))
  {
    var p := directory + [name];
    FolderSituation(t0, es, directory, p, s, mask);
    if !s.directories[Join(p)].explicitEntry {
      UpgradeRealizes(t0, es, directory, name, metadata, s, mask);
    }
  }

  /** A directory entry for a path this archive has not made a directory. */
  lemma {:induction false} FolderRestCreates(t0: Tree, es: seq<Entry>, s: Stage, directory: Path, name: string,
                                             metadata: Metadata, mask: Mode)
    requires Realizes(t0, es, directory, s, mask) && CanonicalPath(directory + [name])
    requires Trodden(t0, directory) && !NonFolderAt(es, directory)
    requires !Made(t0, es, directory, directory + [name]) && metadata.explicitEntry
    ensures var p := directory + [name];
      var done := FolderRest(s, p, Join(p), metadata);
      && (done.ok <==> ParentFits(t0, directory) && !Claimed(t0, es, directory, p))
      && (done.ok ==> Realizes(t0, es + [Entry(p, Folder(metadata))], [], done.stage, mask))
  {
    var p, node := directory + [name], DirectoryNode(PRIVATE_DIRECTORY, WallClock);
    assert p[..|p| - 1] == directory;
    FolderSituation(t0, es, directory, p, s, mask);
    CreatedFits(t0, es, directory, name, node, s, mask);
    if ParentFits(t0, directory) && !Claimed(t0, es, directory, p) {
      PlaceRealizes(t0, es, directory, name, Folder(metadata), node, s, mask);
    }
  }

  /** `Fits` for a directory entry, split by what its path already is. */
  lemma {:induction false} FolderEntryFits(t0: Tree, es: seq<Entry>, directory: Path, name: string, metadata: Metadata)
    requires t0.WellFormed() && (forall e :: e in es ==> e.path !in t0.names) && Passable(t0, es, directory)
    ensures var p := directory + [name];
      Fits(t0, es, Entry(p, Folder(metadata))) <==>
        WalkFits(t0, es, p, 0) &&
        (if Made(t0, es, directory, p) then forall x :: x in es ==> x.path != p
         else ParentFits(t0, directory) && !Claimed(t0, es, directory, p))
  {
    var p := directory + [name];
    assert p[..|p| - 1] == directory;
    WalkFitsMeans(t0, es, p, 0);
    FolderFits(t0, es, directory, name);
    if Made(t0, es, directory, p) {
      MadeComponentFits(t0, es, directory, name);
    } else {
      AbsentFits(t0, es, p);
      ClaimedEitherWay(t0, es, directory, name);
    }
  }

  /** `extract_directory` accepts exactly what fits, and realizes it. */
  lemma {:induction false} FolderRealizes(
      t0: Tree, es: seq<Entry>, s: Stage, p: Path, perm: Mode, mtime: Time, mask: Mode)
    requires Realizes(t0, es, [], s, mask) && CanonicalPath(p)
    ensures var metadata := Metadata(Admitted(perm, mask), mtime, true);
      var done := ExtractedDirectory(s, SafePath(Join(p), p), perm, mtime, mask);
      && (done.ok <==> Fits(t0, es, Entry(p, Folder(metadata))))
      && (done.ok ==> Realizes(t0, es + [Entry(p, Folder(metadata))], [], done.stage, mask))
  {
    var metadata := Metadata(Admitted(perm, mask), mtime, true);
    var directory, name := p[..|p| - 1], p[|p| - 1];
    assert directory + [name] == p;
    OpenParentRealizes(t0, es, s, p, mask);
    var ready := ParentFrom(s, p, mask, 0);
    if ready.ok {
      FolderEntryFits(t0, es, directory, name, metadata);
      if Made(t0, es, directory, p) {
        FolderRestUpgrades(t0, es, ready.stage, directory, name, metadata, mask);
      } else {
        FolderRestCreates(t0, es, ready.stage, directory, name, metadata, mask);
      }
    } else {
      WalkFitsMeans(t0, es, p, 0);
    }
  }

  /** Every directory above the last component of `p` can be searched and, the root aside, read. */
  ghost predicate Trail(t: Tree, p: Path) {
    forall k :: 0 <= k < |p| ==> t.CanSearch(p[..k]) && (k > 0 ==> t.CanRead(p[..k]))
  }

  lemma {:induction false} ReachesMeans(t: Tree, p: Path, k: nat)
    requires k < |p|
    ensures Reaches(t, p, k) && t.CanSearch(p[..|p| - 1]) <==>
      forall i :: k <= i < |p| ==> t.CanSearch(p[..i]) && (i > k ==> t.CanRead(p[..i]))
    decreases |p| - k
  {
    if k + 1 < |p| {
      ReachesMeans(t, p, k + 1);
      assert p[..k] + [p[k]] == p[..k + 1];
    }
  }

  /** What is regular in the tree is regular by the entries, and the other way round. */
  lemma {:induction false} RegularMeans(t0: Tree, es: seq<Entry>, s: Stage, target: Path, mask: Mode)
    requires Realizes(t0, es, [], s, mask)
    ensures (s.tree.Exists(target) && s.tree.At(target).RegularNode?) <==> RegularAt(t0, es, target)
  {
    if target in t0.names {
      PreservedNode(t0, s.tree, target);
    } else if s.tree.Exists(target) && s.tree.At(target).RegularNode? {
      assert Claimed(t0, es, [], target) && !Made(t0, es, [], target);
    }
  }

  /** Above a claimed path everything is a directory, granting what it granted or everything. */
  lemma {:induction false} AncestorGrants(t0: Tree, es: seq<Entry>, s: Stage, p: Path, k: nat, bits: Mode, mask: Mode)
    requires Realizes(t0, es, [], s, mask) && p in s.tree.names && k < |p|
    requires bits == OWNER_READ || bits == OWNER_SEARCH
    ensures s.tree.Grants(p[..k], bits) <==> (p[..k] in t0.names ==> t0.Grants(p[..k], bits))
  {
    AncestorsExist(s.tree, p, k);
    ClaimedGrants(t0, es, [], s, mask, p[..k], bits);
    if NonFolderAt(es, p[..k]) {
      assert false;
    }
  }

  lemma {:induction false} TrailMeans(t0: Tree, es: seq<Entry>, s: Stage, target: Path, mask: Mode)
    requires Realizes(t0, es, [], s, mask) && target in s.tree.names
    ensures Trail(s.tree, target) <==>
      forall k :: 0 <= k < |target| && target[..k] in t0.names ==>
        t0.CanSearch(target[..k]) && (k > 0 ==> t0.CanRead(target[..k]))
  {
    forall k | 0 <= k < |target|
      ensures s.tree.CanSearch(target[..k]) <==> (target[..k] in t0.names ==> t0.CanSearch(target[..k]))
      ensures s.tree.CanRead(target[..k]) <==> (target[..k] in t0.names ==> t0.CanRead(target[..k]))
    {
      AncestorGrants(t0, es, s, target, k, OWNER_SEARCH, mask);
      AncestorGrants(t0, es, s, target, k, OWNER_READ, mask);
    }
  }

  /** `extract_hardlink` finds its source when the walk gets there and it is regular. */
  lemma {:induction false} TargetByTrail(t: Tree, target: Path)
    requires target != []
    ensures IsRegularTarget(t, target) <==> t.Exists(target) && t.At(target).RegularNode? && Trail(t, target)
  {
    assert target[..|target| - 1] + [target[|target| - 1]] == target;
    ReachesMeans(t, target, 0);
  }

  /** A hard-link source is found exactly when the entries and the old directories allow it. */
  lemma {:induction false} TargetMeans(t0: Tree, es: seq<Entry>, s: Stage, target: Path, mask: Mode)
    requires Realizes(t0, es, [], s, mask) && CanonicalPath(target)
    ensures IsRegularTarget(s.tree, target) <==> TargetFits(t0, es, target)
  {
    TargetByTrail(s.tree, target);
    RegularMeans(t0, es, s, target, mask);
    if s.tree.Exists(target) {
      TrailMeans(t0, es, s, target, mask);
    }
  }

  /** `open_parent` leaves existing names and nodes alone. */
  lemma {:induction false} ParentPreserves(s: Stage, p: Path, mask: Mode, k: nat)
    requires s.tree.WellFormed()
    ensures ParentFrom(s, p, mask, k).stage.tree.WellFormed()
    ensures Preserves(s.tree, ParentFrom(s, p, mask, k).stage.tree)
    decreases |p| - k
  {
    if k + 1 < |p| {
      var entered := Entered(s, p[..k], p[k], Join(p[..k + 1]), mask);
      EnteredPreserves(s, p[..k], p[k], Join(p[..k + 1]), mask);
      if entered.ok {
        ParentPreserves(entered.stage, p, mask, k + 1);
        PreservesTransitive(s.tree, entered.stage.tree, ParentFrom(s, p, mask, k).stage.tree);
      }
    }
  }

  lemma {:induction false} EnteredPreserves(s: Stage, directory: Path, name: string, prefix: string, mask: Mode)
    requires s.tree.WellFormed()
    ensures Entered(s, directory, name, prefix, mask).stage.tree.WellFormed()
    ensures Preserves(s.tree, Entered(s, directory, name, prefix, mask).stage.tree)
  {
    CreatedPreserves(s, directory, name, DirectoryNode(PRIVATE_DIRECTORY, WallClock));
  }

  lemma {:induction false} CreatedPreserves(s: Stage, directory: Path, name: string, node: Inode)
    requires s.tree.WellFormed()
    ensures Created(s, directory, name, node).stage.tree.WellFormed()
    ensures Preserves(s.tree, Created(s, directory, name, node).stage.tree)
  {
    if Created(s, directory, name, node).ok {
      PlaceExtends(s.tree, directory, name, node);
      ExtendsWellFormed(s.tree, Place(s.tree, directory, name, node), directory, name);
    }
  }

  lemma {:induction false} FolderRestPreserves(s: Stage, p: Path, text: string, metadata: Metadata)
    requires s.tree.WellFormed() && p != []
    ensures FolderRest(s, p, text, metadata).stage.tree.WellFormed()
    ensures Preserves(s.tree, FolderRest(s, p, text, metadata).stage.tree)
  {
    CreatedPreserves(s, p[..|p| - 1], p[|p| - 1], DirectoryNode(PRIVATE_DIRECTORY, WallClock));
  }

  lemma {:induction false} DirectoryPreserves(s: Stage, p: SafePath, perm: Mode, mtime: Time, mask: Mode)
    requires s.tree.WellFormed() && p.components != []
    ensures ExtractedDirectory(s, p, perm, mtime, mask).stage.tree.WellFormed()
    ensures Preserves(s.tree, ExtractedDirectory(s, p, perm, mtime, mask).stage.tree)
  {
    ParentPreserves(s, p.components, mask, 0);
    var ready := ParentFrom(s, p.components, mask, 0);
    if ready.ok {
      var metadata := Metadata(Admitted(perm, mask), mtime, true);
      FolderRestPreserves(ready.stage, p.components, p.text, metadata);
      PreservesTransitive(s.tree, ready.stage.tree, FolderRest(ready.stage, p.components, p.text, metadata).stage.tree);
    }
  }

  lemma {:induction false} LeafPreserves(s: Stage, p: Path, node: Inode, mask: Mode)
    requires s.tree.WellFormed() && p != []
    ensures ExtractedLeaf(s, p, node, mask).stage.tree.WellFormed()
    ensures Preserves(s.tree, ExtractedLeaf(s, p, node, mask).stage.tree)
  {
    ParentPreserves(s, p, mask, 0);
    var ready := ParentFrom(s, p, mask, 0);
    if ready.ok {
      CreatedPreserves(ready.stage, p[..|p| - 1], p[|p| - 1], node);
      PreservesTransitive(s.tree, ready.stage.tree, Created(ready.stage, p[..|p| - 1], p[|p| - 1], node).stage.tree);
    }
  }

  lemma {:induction false} DispatchPreserves(s: Stage, item: Item, path: SafePath, mask: Mode)
    requires s.tree.WellFormed() && item.Item? && path.components != []
    ensures Dispatched(s, item, path, mask).stage.tree.WellFormed()
    ensures Preserves(s.tree, Dispatched(s, item, path, mask).stage.tree)
  {
    if item.hardlink.Some? {
      if ParsePath(item.hardlink).Ok? {
        HardlinkPreserves(s, path.components, ParsePath(item.hardlink).value.components, mask);
      }
    } else {
      match item.filetype
      case DirectoryEntry => DirectoryPreserves(s, path, item.perm, item.mtime, mask);
      case RegularEntry =>
        LeafPreserves(s, path.components, FileNode(item.chunks, item.intact, item.perm, item.mtime, mask), mask);
      case SymlinkEntry =>
        if item.symlink.Some? {
          LeafPreserves(s, path.components, SymlinkNode(item.symlink.value, item.mtime), mask);
        }
      case OtherEntry =>
    }
  }

  /** No entry, accepted or refused, removes, replaces or alters anything that was there. */
  lemma {:induction false} StepPreserves(s: Stage, item: Item, mask: Mode)
    requires s.tree.WellFormed()
    ensures Step(s, item, mask).stage.tree.WellFormed() && Preserves(s.tree, Step(s, item, mask).stage.tree)
  {
    if item.Item? && !item.raw && ParsePath(item.pathname).Ok? {
      DispatchPreserves(s, item, ParsePath(item.pathname).value, mask);
    }
  }

  lemma {:induction false} HardlinkPreserves(s: Stage, p: Path, target: Path, mask: Mode)
    requires s.tree.WellFormed() && p != [] && target != []
    ensures ExtractedHardlink(s, p, target, mask).stage.tree.WellFormed()
    ensures Preserves(s.tree, ExtractedHardlink(s, p, target, mask).stage.tree)
  {
    ParentPreserves(s, p, mask, 0);
    var ready := ParentFrom(s, p, mask, 0).stage;
    var directory, name := p[..|p| - 1], p[|p| - 1];
    if IsRegularTarget(s.tree, target) && MayAdd(ready.tree, directory, name) {
      RegularTargetExists(s.tree, target);
      PreservedNode(s.tree, ready.tree, target);
      LinkExtends(ready.tree, s.tree.names[target], directory, name);
      var after := Link(ready.tree, s.tree.names[target], directory, name);
      ExtendsWellFormed(ready.tree, after, directory, name);
      PreservesTransitive(s.tree, ready.tree, after);
    }
  }

  lemma {:induction false} StepAllPreserves(s: Stage, items: seq<Item>, mask: Mode)
    requires s.tree.WellFormed()
    ensures StepAll(s, items, mask).stage.tree.WellFormed() && Preserves(s.tree, StepAll(s, items, mask).stage.tree)
    decreases |items|
  {
    if items != [] {
      var next := Step(s, items[0], mask);
      StepPreserves(s, items[0], mask);
      if next.ok {
        StepAllPreserves(next.stage, items[1..], mask);
        PreservesTransitive(s.tree, next.stage.tree, StepAll(s, items, mask).stage.tree);
      }
    }
  }

  /** `extract_hardlink` accepts exactly what fits. */
  lemma {:induction false} HardlinkFits(t0: Tree, es: seq<Entry>, s: Stage, p: Path, target: Path, mask: Mode)
    requires Realizes(t0, es, [], s, mask) && CanonicalPath(p) && CanonicalPath(target)
    ensures ExtractedHardlink(s, p, target, mask).ok <==> Fits(t0, es, Entry(p, HardLink(target)))
  {
    var directory, name := p[..|p| - 1], p[|p| - 1];
    assert directory + [name] == p;
    TargetMeans(t0, es, s, target, mask);
    OpenParentRealizes(t0, es, s, p, mask);
    AbsentFits(t0, es, p);
    var ready := ParentFrom(s, p, mask, 0);
    if ready.ok {
      CreatedFits(t0, es, directory, name, DirectoryNode(PRIVATE_DIRECTORY, WallClock), ready.stage, mask);
    }
  }

  /** What `extract_hardlink` accepts it realizes. */
  lemma {:induction false} HardlinkRealizes(t0: Tree, es: seq<Entry>, s: Stage, p: Path, target: Path, mask: Mode)
    requires Realizes(t0, es, [], s, mask) && CanonicalPath(p) && CanonicalPath(target)
    requires ExtractedHardlink(s, p, target, mask).ok
    ensures Realizes(t0, es + [Entry(p, HardLink(target))], [], ExtractedHardlink(s, p, target, mask).stage, mask)
  {
    var directory, name := p[..|p| - 1], p[|p| - 1];
    assert directory + [name] == p;
    OpenParentRealizes(t0, es, s, p, mask);
    RegularTargetExists(s.tree, target);
    ParentPreserves(s, p, mask, 0);
    var ready := ParentFrom(s, p, mask, 0);
    PreservedNode(s.tree, ready.stage.tree, target);
    LinkAfterWalk(t0, es, ready.stage, directory, name, target, mask);
  }

  lemma {:induction false} LinkAfterWalk(t0: Tree, es: seq<Entry>, s: Stage, directory: Path, name: string,
                                         target: Path, mask: Mode)
    requires CanonicalPath(directory + [name]) && CanonicalPath(target)
    requires Realizes(t0, es, directory, s, mask) && Trodden(t0, directory) && !NonFolderAt(es, directory)
    requires s.tree.Exists(target) && s.tree.At(target).RegularNode?
    requires Stat(s.tree, directory, name).Missing? && MayAdd(s.tree, directory, name)
    ensures Realizes(t0, es + [Entry(directory + [name], HardLink(target))], [],
                     s.(tree := Link(s.tree, s.tree.names[target], directory, name)), mask)
  {
    CreatedFits(t0, es, directory, name, DirectoryNode(PRIVATE_DIRECTORY, WallClock), s, mask);
    LinkRealizes(t0, es, directory, name, target, s, mask);
  }

  /** What an attempt at the entry `reading` must amount to. */
  ghost predicate Agrees(t0: Tree, es: seq<Entry>, reading: Option<Entry>, attempt: Attempt, mask: Mode) {
    && (attempt.ok <==> reading.Some? && Fits(t0, es, reading.value))
    && (attempt.ok ==> Realizes(t0, es + [reading.value], [], attempt.stage, mask))
  }

  lemma {:induction false} DispatchRealizes(t0: Tree, es: seq<Entry>, s: Stage, item: Item, path: SafePath, mask: Mode)
    requires Realizes(t0, es, [], s, mask)
    requires item.Item? && item.intact && CanonicalPath(path.components) && path.text == Join(path.components)
    ensures Agrees(t0, es, ReadingAt(item, path.components, mask), Dispatched(s, item, path, mask), mask)
  {
    if item.hardlink.Some? {
      if ParsePath(item.hardlink).Ok? {
        AcceptedText(item.hardlink.value);
        var target := ParsePath(item.hardlink).value.components;
        HardlinkFits(t0, es, s, path.components, target, mask);
        if ExtractedHardlink(s, path.components, target, mask).ok {
          HardlinkRealizes(t0, es, s, path.components, target, mask);
        }
      }
    } else {
      match item.filetype
      case DirectoryEntry => FolderRealizes(t0, es, s, path.components, item.perm, item.mtime, mask);
      case RegularEntry =>
        LeafRealizes(t0, es, s, path.components,
                     FileNode(item.chunks, item.intact, item.perm, item.mtime, mask), mask);
      case SymlinkEntry =>
        if item.symlink.Some? {
          LeafRealizes(t0, es, s, path.components, SymlinkNode(item.symlink.value, item.mtime), mask);
        }
      case OtherEntry =>
    }
  }

  /** One turn of `unpack` accepts exactly the items that read as an entry that fits. */
  lemma {:induction false} StepRealizes(t0: Tree, es: seq<Entry>, s: Stage, item: Item, mask: Mode)
    requires Realizes(t0, es, [], s, mask)
    ensures Agrees(t0, es, Reading(item, mask), Step(s, item, mask), mask)
  {
    if item.Item? && !item.raw && item.intact && ParsePath(item.pathname).Ok? {
      var path := ParsePath(item.pathname).value;
      AcceptedText(item.pathname.value);
      DispatchRealizes(t0, es, s, item, path, mask);
    }
  }

  /** The entries of an archive, if every item reads as one. */
  function Readings(items: seq<Item>, mask: Mode): Option<seq<Entry>>
    decreases |items|
  {
    if items == [] then Some([])
    else
      var first, rest := Reading(items[0], mask), Readings(items[1..], mask);
      if first.Some? && rest.Some? then Some([first.value] + rest.value) else None
  }

  /** Every entry of `more` fits after `es` and the entries before it. */
  ghost predicate AllFit(t0: Tree, es: seq<Entry>, more: seq<Entry>)
    decreases |more|
  {
    more != [] ==> Fits(t0, es, more[0]) && AllFit(t0, es + [more[0]], more[1..])
  }

  lemma {:induction false} AllFitMeans(t0: Tree, es: seq<Entry>, more: seq<Entry>)
    ensures AllFit(t0, es, more) <==> AllFitAt(t0, es, more)
    decreases |more|
  {
    if more != [] {
      var rest := more[1..];
      AllFitMeans(t0, es + [more[0]], rest);
      PrefixAfterFirst(es, more, 0);
      forall i | AllFit(t0, es, more) && 0 < i < |more| ensures Fits(t0, es + more[..i], more[i]) {
        PrefixAfterFirst(es, more, i);
        assert Fits(t0, (es + [more[0]]) + rest[..i - 1], rest[i - 1]);
      }
      forall i | AllFitAt(t0, es, more) && 0 <= i < |rest| ensures Fits(t0, (es + [more[0]]) + rest[..i], rest[i]) {
        PrefixAfterFirst(es, more, i + 1);
        assert Fits(t0, es + more[..i + 1], more[i + 1]);
      }
    }
  }

  ghost predicate AllFitAt(t0: Tree, es: seq<Entry>, more: seq<Entry>) {
    forall i :: 0 <= i < |more| ==> Fits(t0, es + more[..i], more[i])
  }

  lemma PrefixAfterFirst(es: seq<Entry>, more: seq<Entry>, i: nat)
    requires i < |more|
    ensures es + more[..i] == if i == 0 then es else (es + [more[0]]) + more[1..][..i - 1]
  {
    if i > 0 {
      assert more[..i] == [more[0]] + more[1..][..i - 1];
    }
  }

  /** The fold accepts exactly the archives whose entries all fit, and realizes them. */
  lemma {:induction false} FoldRealizes(t0: Tree, es: seq<Entry>, s: Stage, items: seq<Item>, mask: Mode)
    requires Realizes(t0, es, [], s, mask)
    ensures var folded := StepAll(s, items, mask);
      var readings := Readings(items, mask);
      && (folded.ok <==> readings.Some? && AllFit(t0, es, readings.value))
      && (folded.ok ==> Realizes(t0, es + readings.value, [], folded.stage, mask))
    decreases |items|
  {
    if items == [] {
      assert es + [] == es;
    } else {
      StepRealizes(t0, es, s, items[0], mask);
      ReadingsFit(t0, es, items, mask);
      var next := Step(s, items[0], mask);
      if next.ok {
        FoldRealizes(t0, es + [Reading(items[0], mask).value], next.stage, items[1..], mask);
      }
    }
  }

  lemma {:induction false} ReadingsFit(t0: Tree, es: seq<Entry>, items: seq<Item>, mask: Mode)
    requires items != []
    ensures var first, rest, all := Reading(items[0], mask), Readings(items[1..], mask), Readings(items, mask);
      && (all.Some? <==> first.Some? && rest.Some?)
      && (all.Some? ==> es + [first.value] + rest.value == es + all.value)
      && (all.Some? ==> (AllFit(t0, es, all.value) <==>
            Fits(t0, es, first.value) && AllFit(t0, es + [first.value], rest.value)))
  {
    var first, rest, all := Reading(items[0], mask), Readings(items[1..], mask), Readings(items, mask);
    if all.Some? {
      assert all.value[1..] == rest.value;
      assert es + [first.value] + rest.value == es + all.value;
    }
  }
}
