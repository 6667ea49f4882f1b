/**
 * What a source archive means, stated on its entries alone
 * (src/source_archive_libarchive.cpp:162-364).
 *
 * `Fits` says when one entry may follow others, without mentioning any intermediate tree.
 * `Realizes` says which tree a list of entries stands for.  The module proves that the fold
 * accepts an archive exactly when every entry fits, and that it then realizes the archive.
 */
module ExtractionSpec {
  import opened Outcomes
  import opened PathText
  import opened SymlinkCheck
  import opened SourceTree
  import opened Extraction

  datatype What = Folder(metadata: Metadata) | Leaf(node: Inode) | HardLink(target: Path)

  datatype Entry = Entry(path: Path, what: What)

  /** The entry an item at `path` stands for; None if it is refused whatever precedes it. */
  function ReadingAt(item: Item, path: Path, mask: Mode): Option<Entry>
    requires item.Item? && path != []
  {
    if item.hardlink.Some? then
      var target := ParsePath(item.hardlink);
      if target.Err? then None else Some(Entry(path, HardLink(target.value.components)))
    else
      match item.filetype
      case DirectoryEntry => Some(Entry(path, Folder(Metadata(Admitted(item.perm, mask), item.mtime, true))))
      case RegularEntry =>
        Some(Entry(path, Leaf(RegularNode(Concat(item.chunks), Admitted(item.perm, mask), item.mtime))))
      case SymlinkEntry =>
        if item.symlink.None? || !StaysBeneath(path, item.symlink.value) then None
        else Some(Entry(path, Leaf(SymlinkNode(item.symlink.value, item.mtime))))
      case OtherEntry => None
  }

  function Reading(item: Item, mask: Mode): Option<Entry> {
    if item.BadHeader? || item.raw || !item.intact || ParsePath(item.pathname).Err? then None
    else ReadingAt(item, ParsePath(item.pathname).value.components, mask)
  }

  /** A path the tree has: it was there, it leads to `extra`, or an entry named it or something below it. */
  ghost predicate Claimed(t0: Tree, es: seq<Entry>, extra: Path, p: Path) {
    p in t0.names || p <= extra || exists e :: e in es && p <= e.path
  }

  ghost predicate NonFolderAt(es: seq<Entry>, p: Path) {
    exists e :: e in es && e.path == p && !e.what.Folder?
  }

  ghost predicate RegularAt(t0: Tree, es: seq<Entry>, p: Path) {
    || (t0.Exists(p) && t0.At(p).RegularNode?)
    || (exists e :: e in es && e.path == p && (e.what.HardLink? || (e.what.Leaf? && e.what.node.RegularNode?)))
  }

  /** Component `k` of `p` can be looked up, made if it is missing, and entered unless it is the last. */
  ghost predicate ComponentFits(t0: Tree, es: seq<Entry>, p: Path, k: nat)
    requires k < |p|
  {
    && (p[..k] in t0.names ==>
          t0.CanSearch(p[..k]) && (Claimed(t0, es, [], p[..k + 1]) || t0.CanWrite(p[..k])))
    && (k + 1 < |p| ==>
          !NonFolderAt(es, p[..k + 1]) && (p[..k + 1] in t0.names ==> t0.CanRead(p[..k + 1])))
  }

  /** A hard-link source can be reached through the directories that were there before. */
  ghost predicate TargetFits(t0: Tree, es: seq<Entry>, target: Path) {
    && RegularAt(t0, es, target)
    && forall k :: 0 <= k < |target| && target[..k] in t0.names ==>
         t0.CanSearch(target[..k]) && (k > 0 ==> t0.CanRead(target[..k]))
  }

  /** When `e` may follow `es` in an archive unpacked over `t0`. */
  ghost predicate Fits(t0: Tree, es: seq<Entry>, e: Entry) {
    && (forall k :: 0 <= k < |e.path| ==> ComponentFits(t0, es, e.path, k))
    && (if e.what.Folder? then e.path !in t0.names && forall x :: x in es ==> x.path != e.path
        else !Claimed(t0, es, [], e.path))
    && (e.what.HardLink? ==> TargetFits(t0, es, e.what.target))
  }

  /** The path whose creation gave `p` its inode. */
  ghost function Origin(es: seq<Entry>, p: Path): Path
    decreases |es|
  {
    if es == [] then p
    else
      var last, before := es[|es| - 1], es[..|es| - 1];
      if last.path == p && last.what.HardLink? then Origin(before, last.what.target) else Origin(before, p)
  }

  ghost predicate SameOrigin(t0: Tree, a: Path, b: Path) {
    a == b || (a in t0.names && b in t0.names && t0.names[a] == t0.names[b])
  }

  /** A directory this archive made. */
  ghost predicate Made(t0: Tree, es: seq<Entry>, extra: Path, p: Path) {
    p !in t0.names && Claimed(t0, es, extra, p) && !NonFolderAt(es, p)
  }

  ghost predicate NamesAre(t0: Tree, es: seq<Entry>, extra: Path, s: Stage) {
    forall p :: p in s.tree.names <==> Claimed(t0, es, extra, p)
  }

  ghost predicate LeavesAre(es: seq<Entry>, s: Stage) {
    forall e :: e in es && !e.what.Folder? ==>
      && s.tree.Exists(e.path)
      && (e.what.Leaf? ==> s.tree.At(e.path) == e.what.node)
      && (e.what.HardLink? ==> s.tree.At(e.path).RegularNode?)
  }

  /** The recorded metadata of a made directory: its own entry's, or the implicit one. */
  ghost predicate Records(es: seq<Entry>, p: Path, metadata: Metadata, mask: Mode) {
    && (forall e :: e in es && e.path == p && e.what.Folder? ==> metadata == e.what.metadata)
    && ((forall e :: e in es ==> e.path != p) ==> metadata == Implicit(mask))
  }

  ghost predicate FoldersAre(t0: Tree, es: seq<Entry>, extra: Path, s: Stage, mask: Mode) {
    forall p :: Made(t0, es, extra, p) ==>
      && CanonicalPath(p)
      && s.tree.Exists(p) && s.tree.At(p) == DirectoryNode(PRIVATE_DIRECTORY, WallClock)
      && Join(p) in s.directories && Records(es, p, s.directories[Join(p)], mask)
  }

  ghost predicate MapIs(t0: Tree, es: seq<Entry>, extra: Path, s: Stage) {
    forall text :: text in s.directories ==> exists p :: Made(t0, es, extra, p) && Join(p) == text
  }

  /** Two paths share an inode exactly when hard links or earlier sharing join them. */
  ghost predicate SharingIs(t0: Tree, es: seq<Entry>, extra: Path, s: Stage) {
    && (forall p :: p in s.tree.names ==> Origin(es, p) in s.tree.names)
    && (forall p, q :: p in s.tree.names && q in s.tree.names ==>
          (s.tree.names[p] == s.tree.names[q] <==> SameOrigin(t0, Origin(es, p), Origin(es, q))))
  }

  /** Directories that were there and lead to something new could be entered. */
  ghost predicate Passable(t0: Tree, es: seq<Entry>, extra: Path) {
    forall p, k :: Claimed(t0, es, extra, p) && p !in t0.names && 0 <= k < |p| && p[..k] in t0.names ==>
      t0.CanSearch(p[..k]) && (k > 0 ==> t0.CanRead(p[..k]))
  }

  /** Leaves are not directories, and the metadata of a directory entry is explicit. */
  predicate Sound(what: What) {
    match what
    case Folder(metadata) => metadata.explicitEntry
    case Leaf(node) => !node.DirectoryNode?
    case HardLink(target) => CanonicalPath(target)
  }

  /** The parts of `Realizes` that speak of the entries and the names. */
  ghost predicate Outline(t0: Tree, es: seq<Entry>, extra: Path, s: Stage) {
    && t0.WellFormed() && s.tree.WellFormed() && Preserves(t0, s.tree)
    && (forall e :: e in es ==> e.path !in t0.names && CanonicalPath(e.path))
    && (forall e :: e in es ==> Sound(e.what))
    && NamesAre(t0, es, extra, s)
    && Passable(t0, es, extra)
  }

  /** The parts of `Realizes` that speak of inodes and records. */
  ghost predicate Detail(t0: Tree, es: seq<Entry>, extra: Path, s: Stage, mask: Mode) {
    && LeavesAre(es, s)
    && FoldersAre(t0, es, extra, s, mask)
    && MapIs(t0, es, extra, s)
    && SharingIs(t0, es, extra, s)
  }

  /** The tree and the directory map that `es` stand for over `t0`, with `extra` implied as well. */
  ghost predicate Realizes(t0: Tree, es: seq<Entry>, extra: Path, s: Stage, mask: Mode) {
    Outline(t0, es, extra, s) && Detail(t0, es, extra, s, mask)
  }

  // ---------------------------------------------------------------------------------------
  // Claims
  // ---------------------------------------------------------------------------------------

  lemma PrefixSnoc(p: Path, directory: Path, name: string)
    ensures p <= directory + [name] <==> p <= directory || p == directory + [name]
  {
    if p <= directory + [name] && p != directory + [name] {
      assert p == (directory + [name])[..|p|] == directory[..|p|];
    }
  }

  /** Claiming `directory/name` on top of `directory` adds exactly that path. */
  lemma {:induction false} ClaimChild(t0: Tree, es: seq<Entry>, directory: Path, name: string)
    ensures forall p :: Claimed(t0, es, directory + [name], p) <==>
      Claimed(t0, es, directory, p) || p == directory + [name]
  {
    forall p: Path
      ensures Claimed(t0, es, directory + [name], p) <==> Claimed(t0, es, directory, p) || p == directory + [name]
    {
      PrefixSnoc(p, directory, name);
    }
  }

  lemma {:induction false} ClaimEntry(t0: Tree, es: seq<Entry>, directory: Path, name: string, what: What)
    requires [] in t0.names
    ensures forall p :: Claimed(t0, es + [Entry(directory + [name], what)], [], p) <==>
      Claimed(t0, es, directory, p) || p == directory + [name]
  {
    var e := Entry(directory + [name], what);
    forall p: Path
      ensures Claimed(t0, es + [e], [], p) <==> Claimed(t0, es, directory, p) || p == directory + [name]
    {
      PrefixSnoc(p, directory, name);
      assert p <= [] ==> p == [];
      assert e in es + [e];
    }
  }

  lemma {:induction false} AncestorsExist(t: Tree, p: Path, k: nat)
    requires t.WellFormed() && p in t.names && k <= |p|
    ensures p[..k] in t.names && (k < |p| ==> t.IsDirectory(p[..k]))
    decreases |p| - k
  {
    if k < |p| {
      AncestorsExist(t, p, k + 1);
      assert p[..k + 1][..k] == p[..k];
      assert t.HasParent(p[..k + 1]);
    } else {
      assert p[..k] == p;
    }
  }

  // ---------------------------------------------------------------------------------------
  // One more name
  // ---------------------------------------------------------------------------------------

  /** `es2` is `es`, perhaps with one more entry, at `p`. */
  ghost predicate Appends(es: seq<Entry>, es2: seq<Entry>, p: Path) {
    es2 == es || (|es2| == |es| + 1 && es2[..|es|] == es && es2[|es|].path == p)
  }

  /** The claims of `es2` are those of `es` and `p`, which is new. */
  ghost predicate ClaimsOneMore(t0: Tree, es: seq<Entry>, extra: Path, es2: seq<Entry>, extra2: Path, p: Path) {
    && !Claimed(t0, es, extra, p)
    && Appends(es, es2, p)
    && forall x :: Claimed(t0, es2, extra2, x) <==> Claimed(t0, es, extra, x) || x == p
  }

  lemma {:induction false} AppendedEntries(es: seq<Entry>, es2: seq<Entry>, p: Path)
    requires Appends(es, es2, p)
    ensures forall e :: e in es ==> e in es2
    ensures forall e :: e in es2 && e.path != p ==> e in es
    ensures forall e :: e in es2 ==> e in es || e == es2[|es2| - 1]
  {
    assert |es2| > |es| ==> es2 == es + [es2[|es|]];
  }

  lemma {:induction false} UnclaimedHasNoEntry(t0: Tree, es: seq<Entry>, extra: Path, p: Path)
    requires !Claimed(t0, es, extra, p)
    ensures forall e :: e in es ==> e.path != p
    ensures !NonFolderAt(es, p)
  {
    forall e | e in es ensures e.path != p {
      assert e.path == p ==> p <= e.path;
    }
  }

  lemma {:induction false} NamesGrow(t0: Tree, es: seq<Entry>, extra: Path, es2: seq<Entry>, extra2: Path,
                                     s: Stage, s2: Stage, p: Path)
    requires NamesAre(t0, es, extra, s) && ClaimsOneMore(t0, es, extra, es2, extra2, p)
    requires s2.tree.names.Keys == s.tree.names.Keys + {p}
    ensures NamesAre(t0, es2, extra2, s2)
  {
  }

  lemma {:induction false} LeavesGrow(es: seq<Entry>, es2: seq<Entry>, s: Stage, s2: Stage, p: Path)
    requires LeavesAre(es, s) && Preserves(s.tree, s2.tree) && Appends(es, es2, p)
    requires |es2| > |es| && !es2[|es|].what.Folder? ==>
      && s2.tree.Exists(p)
      && (es2[|es|].what.Leaf? ==> s2.tree.At(p) == es2[|es|].what.node)
      && (es2[|es|].what.HardLink? ==> s2.tree.At(p).RegularNode?)
    requires forall e :: e in es ==> Sound(e.what)
    ensures LeavesAre(es2, s2)
  {
    AppendedEntries(es, es2, p);
    forall e | e in es2 && !e.what.Folder?
      ensures s2.tree.Exists(e.path)
        && (e.what.Leaf? ==> s2.tree.At(e.path) == e.what.node)
        && (e.what.HardLink? ==> s2.tree.At(e.path).RegularNode?)
    {
      if e in es {
        PreservedNode(s.tree, s2.tree, e.path);
      }
    }
  }

  /** Directories made before stay as they were recorded. */
  lemma {:induction false} FoldersGrow(t0: Tree, es: seq<Entry>, extra: Path, es2: seq<Entry>, extra2: Path,
                                       s: Stage, s2: Stage, p: Path, mask: Mode)
    requires FoldersAre(t0, es, extra, s, mask) && ClaimsOneMore(t0, es, extra, es2, extra2, p)
    requires Preserves(s.tree, s2.tree)
    requires forall x :: CanonicalPath(x) && x != p && Join(x) in s.directories ==>
      Join(x) in s2.directories && s2.directories[Join(x)] == s.directories[Join(x)]
    requires Made(t0, es2, extra2, p) ==>
      && CanonicalPath(p)
      && s2.tree.Exists(p) && s2.tree.At(p) == DirectoryNode(PRIVATE_DIRECTORY, WallClock)
      && Join(p) in s2.directories && Records(es2, p, s2.directories[Join(p)], mask)
    ensures FoldersAre(t0, es2, extra2, s2, mask)
  {
    AppendedEntries(es, es2, p);
    forall x | Made(t0, es2, extra2, x)
      ensures CanonicalPath(x)
        && s2.tree.Exists(x) && s2.tree.At(x) == DirectoryNode(PRIVATE_DIRECTORY, WallClock)
        && Join(x) in s2.directories && Records(es2, x, s2.directories[Join(x)], mask)
    {
      if x != p {
        assert Made(t0, es, extra, x);
        PreservedNode(s.tree, s2.tree, x);
        assert Records(es, x, s.directories[Join(x)], mask);
        assert (forall e :: e in es2 ==> e.path != x) ==> forall e :: e in es ==> e.path != x;
      }
    }
  }

  lemma {:induction false} MapGrows(t0: Tree, es: seq<Entry>, extra: Path, es2: seq<Entry>, extra2: Path,
                                    s: Stage, s2: Stage, p: Path)
    requires MapIs(t0, es, extra, s) && ClaimsOneMore(t0, es, extra, es2, extra2, p)
    requires s2.directories.Keys <= s.directories.Keys + {Join(p)}
    requires s2.directories.Keys != s.directories.Keys ==> Made(t0, es2, extra2, p)
    ensures MapIs(t0, es2, extra2, s2)
  {
    AppendedEntries(es, es2, p);
    forall text | text in s2.directories
      ensures exists x :: Made(t0, es2, extra2, x) && Join(x) == text
    {
      if text in s.directories {
        var x :| Made(t0, es, extra, x) && Join(x) == text;
        assert Made(t0, es2, extra2, x);
      } else {
        assert Join(p) == text;
      }
    }
  }

  lemma {:induction false} PassableGrows(t0: Tree, es: seq<Entry>, extra: Path, es2: seq<Entry>, extra2: Path, p: Path)
    requires Passable(t0, es, extra) && ClaimsOneMore(t0, es, extra, es2, extra2, p)
    requires forall k :: 0 <= k < |p| && p[..k] in t0.names ==> t0.CanSearch(p[..k]) && (k > 0 ==> t0.CanRead(p[..k]))
    ensures Passable(t0, es2, extra2)
  {
  }

  /** A fresh inode under a new name is shared with nothing. */
  lemma {:induction false} SharingGrowsByPlace(t0: Tree, es: seq<Entry>, extra: Path, es2: seq<Entry>, extra2: Path,
                                               s: Stage, s2: Stage, p: Path)
    requires SharingIs(t0, es, extra, s) && NamesAre(t0, es, extra, s)
    requires ClaimsOneMore(t0, es, extra, es2, extra2, p)
    requires |es2| > |es| ==> !es2[|es|].what.HardLink?
    requires s2.tree.names == s.tree.names[p := s.tree.next]
    requires forall x :: x in s.tree.names ==> s.tree.names[x] < s.tree.next
    ensures SharingIs(t0, es2, extra2, s2)
  {
    UnclaimedHasNoEntry(t0, es, extra, p);
    OriginWithoutEntry(es, p);
    forall x: Path ensures Origin(es2, x) == Origin(es, x) {
    }
    assert p !in t0.names;
  }

  /** A hard link takes over the origin of its target. */
  lemma {:induction false} SharingGrowsByLink(t0: Tree, es: seq<Entry>, extra: Path, e: Entry, extra2: Path,
                                              s: Stage, s2: Stage)
    requires SharingIs(t0, es, extra, s) && NamesAre(t0, es, extra, s)
    requires ClaimsOneMore(t0, es, extra, es + [e], extra2, e.path)
    requires e.what.HardLink? && e.what.target in s.tree.names
    requires s2.tree.names == s.tree.names[e.path := s.tree.names[e.what.target]]
    ensures SharingIs(t0, es + [e], extra2, s2)
  {
    forall x: Path
      ensures Origin(es + [e], x) == if x == e.path then Origin(es, e.what.target) else Origin(es, x)
    {
      assert (es + [e])[..|es|] == es;
    }
  }

  lemma {:induction false} OriginWithoutEntry(es: seq<Entry>, p: Path)
    requires forall e :: e in es ==> e.path != p
    ensures Origin(es, p) == p
    decreases |es|
  {
    if es != [] {
      OriginWithoutEntry(es[..|es| - 1], p);
    }
  }

  // ---------------------------------------------------------------------------------------
  // One component of the walk
  // ---------------------------------------------------------------------------------------

  /** Everything above `directory` that was there before could be entered, and so could it. */
  ghost predicate Trodden(t0: Tree, directory: Path) {
    forall j :: 0 <= j <= |directory| && directory[..j] in t0.names ==>
      (j < |directory| ==> t0.CanSearch(directory[..j])) && (j > 0 ==> t0.CanRead(directory[..j]))
  }

  lemma PrivateGrants(t: Tree, p: Path, bits: Mode)
    requires t.Exists(p) && t.At(p).DirectoryNode? && t.At(p).mode == PRIVATE_DIRECTORY
    requires bits == OWNER_READ || bits == OWNER_WRITE || bits == OWNER_SEARCH
    ensures t.Grants(p, bits)
  {
  }

  /** What a claimed path grants: what it granted before, or everything if this archive made it. */
  lemma {:induction false} ClaimedGrants(
      t0: Tree, es: seq<Entry>, extra: Path, s: Stage, mask: Mode, p: Path, bits: Mode)
    requires Realizes(t0, es, extra, s, mask) && Claimed(t0, es, extra, p)
    requires bits == OWNER_READ || bits == OWNER_WRITE || bits == OWNER_SEARCH
    ensures s.tree.Grants(p, bits) <==> !NonFolderAt(es, p) && (p in t0.names ==> t0.Grants(p, bits))
  {
    if p in t0.names {
      PreservedNode(t0, s.tree, p);
    } else if NonFolderAt(es, p) {
      var e :| e in es && e.path == p && !e.what.Folder?;
      assert !s.tree.At(e.path).DirectoryNode?;
    } else {
      assert Made(t0, es, extra, p);
      PrivateGrants(s.tree, p, bits);
    }
  }

  /** Claims do not distinguish a directory from its extension by an already claimed component. */
  lemma {:induction false} ClaimsAgree(t0: Tree, es: seq<Entry>, directory: Path, name: string)
    requires t0.WellFormed() && Claimed(t0, es, directory, directory + [name])
    ensures forall p :: Claimed(t0, es, directory, p) <==> Claimed(t0, es, directory + [name], p)
  {
    ClaimChild(t0, es, directory, name);
  }

  lemma {:induction false} RealizesAgrees(t0: Tree, es: seq<Entry>, a: Path, b: Path, s: Stage, mask: Mode)
    requires Realizes(t0, es, a, s, mask)
    requires forall p :: Claimed(t0, es, a, p) <==> Claimed(t0, es, b, p)
    ensures Realizes(t0, es, b, s, mask)
  {
    assert forall p :: Made(t0, es, a, p) <==> Made(t0, es, b, p);
    forall text | text in s.directories ensures exists p :: Made(t0, es, b, p) && Join(p) == text {
      var p :| Made(t0, es, a, p) && Join(p) == text;
      assert Made(t0, es, b, p);
    }
  }

  /** `open_parent` makes a missing directory. */
  lemma {:induction false} MakingRealizes(t0: Tree, es: seq<Entry>, directory: Path, name: string, s: Stage, mask: Mode)
    requires Realizes(t0, es, directory, s, mask) && s.tree.IsDirectory(directory)
    requires !Claimed(t0, es, directory, directory + [name]) && CanonicalPath(directory + [name])
    requires Trodden(t0, directory) && (directory in t0.names ==> t0.CanSearch(directory))
    ensures Realizes(t0, es, directory + [name], Stage(
      Place(s.tree, directory, name, DirectoryNode(PRIVATE_DIRECTORY, WallClock)),
      Emplace(s.directories, Join(directory + [name]), Implicit(mask))), mask)
  {
    var p, node := directory + [name], DirectoryNode(PRIVATE_DIRECTORY, WallClock);
    var s2 := Stage(Place(s.tree, directory, name, node), Emplace(s.directories, Join(p), Implicit(mask)));
    assert p !in s.tree.names;
    ClaimChild(t0, es, directory, name);
    UnclaimedHasNoEntry(t0, es, directory, p);
    PlaceExtends(s.tree, directory, name, node);
    ExtendsWellFormed(s.tree, s2.tree, directory, name);
    PreservesTransitive(t0, s.tree, s2.tree);
    NotYetRecorded(t0, es, directory, s, mask, p);
    NamesGrow(t0, es, directory, es, p, s, s2, p);
    LeavesGrow(es, es, s, s2, p);
    OthersKeepText(s.directories, p, Implicit(mask));
    FoldersGrow(t0, es, directory, es, p, s, s2, p, mask);
    MapGrows(t0, es, directory, es, p, s, s2, p);
    SharingGrowsByPlace(t0, es, directory, es, p, s, s2, p);
    TroddenChild(t0, directory, name);
    PassableGrows(t0, es, directory, es, p, p);
  }

  lemma {:induction false} TroddenChild(t0: Tree, directory: Path, name: string)
    requires Trodden(t0, directory) && (directory in t0.names ==> t0.CanSearch(directory))
    ensures forall k :: 0 <= k < |directory + [name]| && (directory + [name])[..k] in t0.names ==>
      t0.CanSearch((directory + [name])[..k]) && (k > 0 ==> t0.CanRead((directory + [name])[..k]))
  {
    var p := directory + [name];
    forall k | 0 <= k < |p| && p[..k] in t0.names
      ensures t0.CanSearch(p[..k]) && (k > 0 ==> t0.CanRead(p[..k]))
    {
      assert p[..k] == directory[..k];
      if k == |directory| {
        assert directory[..k] == directory;
      }
    }
  }

  /** A path without a directory of this archive has no record: records follow creation. */
  lemma {:induction false} NotYetRecorded(t0: Tree, es: seq<Entry>, extra: Path, s: Stage, mask: Mode, p: Path)
    requires MapIs(t0, es, extra, s) && FoldersAre(t0, es, extra, s, mask)
    requires CanonicalPath(p)
    ensures Join(p) in s.directories <==> Made(t0, es, extra, p)
  {
    if Join(p) in s.directories {
      var x :| Made(t0, es, extra, x) && Join(x) == Join(p);
      JoinInjective(x, p);
    }
  }

  lemma {:induction false} OthersKeepText(directories: map<string, Metadata>, p: Path, metadata: Metadata)
    requires CanonicalPath(p)
    ensures forall x :: CanonicalPath(x) && x != p && Join(x) in directories ==>
      directories[Join(p) := metadata][Join(x)] == directories[Join(x)]
  {
    forall x | CanonicalPath(x) && x != p && Join(x) in directories
      ensures directories[Join(p) := metadata][Join(x)] == directories[Join(x)]
    {
      JoinInjective(x, p);
    }
  }

  /** Entering a claimed name changes nothing and needs a directory that can be read. */
  lemma {:induction false} EnterClaimed(s: Stage, directory: Path, name: string, prefix: string, mask: Mode)
    requires s.tree.WellFormed() && directory + [name] in s.tree.names
    ensures Entered(s, directory, name, prefix, mask).ok <==>
      s.tree.CanSearch(directory) && s.tree.CanRead(directory + [name])
    ensures Entered(s, directory, name, prefix, mask).stage == s
  {
  }

  /** Entering an unclaimed name creates it, which needs a directory that can be written. */
  lemma {:induction false} EnterMissing(s: Stage, directory: Path, name: string, prefix: string, mask: Mode)
    requires s.tree.WellFormed() && directory + [name] !in s.tree.names
    ensures Entered(s, directory, name, prefix, mask).ok <==> s.tree.CanSearch(directory) && s.tree.CanWrite(directory)
    ensures var entered := Entered(s, directory, name, prefix, mask);
      entered.ok ==>
        entered.stage == Stage(Place(s.tree, directory, name, DirectoryNode(PRIVATE_DIRECTORY, WallClock)),
                               Emplace(s.directories, prefix, Implicit(mask)))
  {
    if MayAdd(s.tree, directory, name) {
      var made := Place(s.tree, directory, name, DirectoryNode(PRIVATE_DIRECTORY, WallClock));
      PlaceExtends(s.tree, directory, name, DirectoryNode(PRIVATE_DIRECTORY, WallClock));
      PreservedNode(s.tree, made, directory);
      PrivateGrants(made, directory + [name], OWNER_READ);
    }
  }

  /** `ComponentFits` for the component `name` of a longer path. */
  ghost predicate StepFits(t0: Tree, es: seq<Entry>, directory: Path, name: string) {
    && (directory in t0.names ==>
          t0.CanSearch(directory) && (Claimed(t0, es, [], directory + [name]) || t0.CanWrite(directory)))
    && !NonFolderAt(es, directory + [name])
    && (directory + [name] in t0.names ==> t0.CanRead(directory + [name]))
  }

  /** One turn of `open_parent` succeeds exactly when its component fits. */
  lemma {:induction false} EnterFits(t0: Tree, es: seq<Entry>, s: Stage, directory: Path, name: string, mask: Mode)
    requires Realizes(t0, es, directory, s, mask) && !NonFolderAt(es, directory)
    ensures Entered(s, directory, name, Join(directory + [name]), mask).ok <==> StepFits(t0, es, directory, name)
  {
    ClaimedEitherWay(t0, es, directory, name);
    if Claimed(t0, es, directory, directory + [name]) {
      EnterClaimedFits(t0, es, s, directory, name, mask);
    } else {
      EnterMissingFits(t0, es, s, directory, name, mask);
    }
  }

  lemma {:induction false} EnterClaimedFits(
      t0: Tree, es: seq<Entry>, s: Stage, directory: Path, name: string, mask: Mode)
    requires Realizes(t0, es, directory, s, mask) && !NonFolderAt(es, directory)
    requires Claimed(t0, es, directory, directory + [name])
    ensures Entered(s, directory, name, Join(directory + [name]), mask).ok <==>
      && (directory in t0.names ==> t0.CanSearch(directory))
      && !NonFolderAt(es, directory + [name])
      && (directory + [name] in t0.names ==> t0.CanRead(directory + [name]))
  {
    GrantsInside(t0, es, directory, s, mask);
    EnterClaimed(s, directory, name, Join(directory + [name]), mask);
    ClaimedGrants(t0, es, directory, s, mask, directory + [name], OWNER_READ);
  }

  lemma {:induction false} EnterMissingFits(
      t0: Tree, es: seq<Entry>, s: Stage, directory: Path, name: string, mask: Mode)
    requires Realizes(t0, es, directory, s, mask) && !NonFolderAt(es, directory)
    requires !Claimed(t0, es, directory, directory + [name])
    ensures !NonFolderAt(es, directory + [name]) && directory + [name] !in t0.names
    ensures Entered(s, directory, name, Join(directory + [name]), mask).ok <==>
      (directory in t0.names ==> t0.CanSearch(directory) && t0.CanWrite(directory))
  {
    GrantsInside(t0, es, directory, s, mask);
    EnterMissing(s, directory, name, Join(directory + [name]), mask);
    UnclaimedHasNoEntry(t0, es, directory, directory + [name]);
  }

  /** The directory being walked grants what it granted before, or everything. */
  lemma {:induction false} GrantsInside(t0: Tree, es: seq<Entry>, directory: Path, s: Stage, mask: Mode)
    requires Realizes(t0, es, directory, s, mask) && !NonFolderAt(es, directory)
    ensures s.tree.CanSearch(directory) <==> (directory in t0.names ==> t0.CanSearch(directory))
    ensures s.tree.CanWrite(directory) <==> (directory in t0.names ==> t0.CanWrite(directory))
  {
    ClaimedGrants(t0, es, directory, s, mask, directory, OWNER_SEARCH);
    ClaimedGrants(t0, es, directory, s, mask, directory, OWNER_WRITE);
  }

  lemma {:induction false} EnterKeeps(t0: Tree, es: seq<Entry>, s: Stage, directory: Path, name: string, mask: Mode)
    requires CanonicalPath(directory + [name])
    requires Realizes(t0, es, directory, s, mask) && Trodden(t0, directory) && !NonFolderAt(es, directory)
    requires StepFits(t0, es, directory, name)
    ensures Realizes(t0, es, directory + [name],
                     Entered(s, directory, name, Join(directory + [name]), mask).stage, mask)
  {
    var next := directory + [name];
    EnterFits(t0, es, s, directory, name, mask);
    if Claimed(t0, es, directory, next) {
      EnterClaimed(s, directory, name, Join(next), mask);
      ClaimsAgree(t0, es, directory, name);
      RealizesAgrees(t0, es, directory, next, s, mask);
    } else {
      EnterMissing(s, directory, name, Join(next), mask);
      MakingRealizes(t0, es, directory, name, s, mask);
    }
  }

  /** All components of `p` from `k` on fit, except perhaps the last. */
  ghost predicate WalkFits(t0: Tree, es: seq<Entry>, p: Path, k: nat)
    decreases |p| - k
  {
    k + 1 < |p| ==> ComponentFits(t0, es, p, k) && WalkFits(t0, es, p, k + 1)
  }

  lemma {:induction false} WalkFitsMeans(t0: Tree, es: seq<Entry>, p: Path, k: nat)
    requires k < |p|
    ensures WalkFits(t0, es, p, k) && ComponentFits(t0, es, p, |p| - 1) <==>
      forall i :: k <= i < |p| ==> ComponentFits(t0, es, p, i)
    decreases |p| - k
  {
    if k + 1 < |p| {
      WalkFitsMeans(t0, es, p, k + 1);
    }
  }

  /** One turn of `open_parent`, in terms of the path being walked. */
  lemma {:induction false} EnterComponent(t0: Tree, es: seq<Entry>, s: Stage, p: Path, k: nat, mask: Mode)
    requires CanonicalPath(p) && k + 1 < |p|
    requires Realizes(t0, es, p[..k], s, mask) && Trodden(t0, p[..k]) && !NonFolderAt(es, p[..k])
    ensures Entered(s, p[..k], p[k], Join(p[..k + 1]), mask).ok <==> ComponentFits(t0, es, p, k)
    ensures ComponentFits(t0, es, p, k) ==>
      && Realizes(t0, es, p[..k + 1], Entered(s, p[..k], p[k], Join(p[..k + 1]), mask).stage, mask)
      && Trodden(t0, p[..k + 1]) && !NonFolderAt(es, p[..k + 1])
  {
    var directory, name := p[..k], p[k];
    assert p[..k + 1] == directory + [name];
    EnterFits(t0, es, s, directory, name, mask);
    if ComponentFits(t0, es, p, k) {
      assert StepFits(t0, es, directory, name);
      assert CanonicalPath(p[..k + 1]);
      EnterKeeps(t0, es, s, directory, name, mask);
      TroddenStep(t0, directory, name);
    }
  }

  /** `open_parent` from component `k` on succeeds exactly when the remaining components fit. */
  lemma {:induction false} WalkRealizes(t0: Tree, es: seq<Entry>, s: Stage, p: Path, k: nat, mask: Mode)
    requires CanonicalPath(p) && k < |p|
    requires Realizes(t0, es, p[..k], s, mask) && Trodden(t0, p[..k]) && !NonFolderAt(es, p[..k])
    ensures ParentFrom(s, p, mask, k).ok <==> WalkFits(t0, es, p, k)
    ensures ParentFrom(s, p, mask, k).ok ==>
      && Realizes(t0, es, p[..|p| - 1], ParentFrom(s, p, mask, k).stage, mask)
      && Trodden(t0, p[..|p| - 1]) && !NonFolderAt(es, p[..|p| - 1])
    decreases |p| - k
  {
    if k + 1 < |p| {
      EnterComponent(t0, es, s, p, k, mask);
      if ComponentFits(t0, es, p, k) {
        WalkRealizes(t0, es, Entered(s, p[..k], p[k], Join(p[..k + 1]), mask).stage, p, k + 1, mask);
      }
    }
  }

  /** A child is claimed by entries and earlier names alone: naming its parent adds nothing. */
  lemma {:induction false} ClaimedEitherWay(t0: Tree, es: seq<Entry>, directory: Path, name: string)
    requires t0.WellFormed()
    ensures Claimed(t0, es, directory, directory + [name]) <==> Claimed(t0, es, [], directory + [name])
  {
  }

  lemma {:induction false} TroddenStep(t0: Tree, directory: Path, name: string)
    requires Trodden(t0, directory) && (directory in t0.names ==> t0.CanSearch(directory))
    requires directory + [name] in t0.names ==> t0.CanRead(directory + [name])
    ensures Trodden(t0, directory + [name])
  {
    var p := directory + [name];
    forall j | 0 <= j <= |p| && p[..j] in t0.names
      ensures (j < |p| ==> t0.CanSearch(p[..j])) && (j > 0 ==> t0.CanRead(p[..j]))
    {
      if j <= |directory| {
        assert p[..j] == directory[..j];
        assert directory[..|directory|] == directory;
      } else {
        assert p[..j] == p;
      }
    }
  }

  // ---------------------------------------------------------------------------------------
  // One entry
  // ---------------------------------------------------------------------------------------

  /** The directory map after an entry of this kind has been placed. */
  function Recorded(directories: map<string, Metadata>, p: Path, what: What): map<string, Metadata> {
    if what.Folder? then Emplace(directories, Join(p), what.metadata) else directories
  }

  ghost predicate NodeFor(what: What, node: Inode) {
    match what
    case Folder(_) => node == DirectoryNode(PRIVATE_DIRECTORY, WallClock)
    case Leaf(leaf) => node == leaf
    case HardLink(_) => node.RegularNode?
  }

  /** A parent that was there before and holds a new name could be searched and written. */
  ghost predicate ParentFits(t0: Tree, directory: Path) {
    directory in t0.names ==> t0.CanSearch(directory) && t0.CanWrite(directory)
  }

  /** What placing and linking have in common for the entry at `directory/name`. */
  lemma {:induction false} EntryGrows(t0: Tree, es: seq<Entry>, directory: Path, name: string, what: What,
                                      s: Stage, s2: Stage, mask: Mode)
    requires Realizes(t0, es, directory, s, mask) && Trodden(t0, directory) && ParentFits(t0, directory)
    requires CanonicalPath(directory + [name]) && Sound(what)
    requires !Claimed(t0, es, directory, directory + [name])
    requires Extends(s.tree, s2.tree, directory, name) && NodeFor(what, s2.tree.At(directory + [name]))
    requires s2.directories == Recorded(s.directories, directory + [name], what)
    requires SharingIs(t0, es + [Entry(directory + [name], what)], [], s2)
    ensures Realizes(t0, es + [Entry(directory + [name], what)], [], s2, mask)
  {
    var p := directory + [name];
    var es2 := es + [Entry(p, what)];
    ClaimEntry(t0, es, directory, name, what);
    UnclaimedHasNoEntry(t0, es, directory, p);
    assert es2[..|es|] == es;
    AppendedEntries(es, es2, p);
    ExtendsWellFormed(s.tree, s2.tree, directory, name);
    PreservesTransitive(t0, s.tree, s2.tree);
    NotYetRecorded(t0, es, directory, s, mask, p);
    NamesGrow(t0, es, directory, es2, [], s, s2, p);
    LeavesGrow(es, es2, s, s2, p);
    EntryAtEnd(es, Entry(p, what));
    OthersKeepText(s.directories, p, if what.Folder? then what.metadata else Implicit(mask));
    FoldersGrow(t0, es, directory, es2, [], s, s2, p, mask);
    MapGrows(t0, es, directory, es2, [], s, s2, p);
    TroddenChild(t0, directory, name);
    PassableGrows(t0, es, directory, es2, [], p);
  }

  /** The last entry decides what its own path is. */
  lemma {:induction false} EntryAtEnd(es: seq<Entry>, e: Entry)
    requires forall x :: x in es ==> x.path != e.path
    ensures NonFolderAt(es + [e], e.path) <==> !e.what.Folder?
    ensures e.what.Folder? ==> forall mask :: Records(es + [e], e.path, e.what.metadata, mask)
  {
    assert e in es + [e];
    assert forall x :: x in es + [e] && x.path == e.path ==> x == e;
  }

  lemma {:induction false} PlaceRealizes(t0: Tree, es: seq<Entry>, directory: Path, name: string, what: What,
                                         node: Inode, s: Stage, mask: Mode)
    requires Realizes(t0, es, directory, s, mask) && Trodden(t0, directory) && ParentFits(t0, directory)
    requires CanonicalPath(directory + [name]) && Sound(what) && !what.HardLink? && NodeFor(what, node)
    requires !Claimed(t0, es, directory, directory + [name]) && s.tree.IsDirectory(directory)
    ensures Realizes(t0, es + [Entry(directory + [name], what)], [],
      Stage(Place(s.tree, directory, name, node), Recorded(s.directories, directory + [name], what)), mask)
  {
    var p := directory + [name];
    var es2 := es + [Entry(p, what)];
    var s2 := Stage(Place(s.tree, directory, name, node), Recorded(s.directories, p, what));
    PlaceExtends(s.tree, directory, name, node);
    ClaimEntry(t0, es, directory, name, what);
    assert es2[..|es|] == es;
    SharingGrowsByPlace(t0, es, directory, es2, [], s, s2, p);
    EntryGrows(t0, es, directory, name, what, s, s2, mask);
  }

  lemma {:induction false} LinkRealizes(t0: Tree, es: seq<Entry>, directory: Path, name: string, target: Path,
                                        s: Stage, mask: Mode)
    requires Realizes(t0, es, directory, s, mask) && Trodden(t0, directory) && ParentFits(t0, directory)
    requires CanonicalPath(directory + [name]) && CanonicalPath(target)
    requires s.tree.Exists(target) && s.tree.At(target).RegularNode?
    requires !Claimed(t0, es, directory, directory + [name]) && s.tree.IsDirectory(directory)
    ensures Realizes(t0, es + [Entry(directory + [name], HardLink(target))], [],
      s.(tree := Link(s.tree, s.tree.names[target], directory, name)), mask)
  {
    var e := Entry(directory + [name], HardLink(target));
    var s2 := s.(tree := Link(s.tree, s.tree.names[target], directory, name));
    LinkExtends(s.tree, s.tree.names[target], directory, name);
    ClaimEntry(t0, es, directory, name, e.what);
    assert (es + [e])[..|es|] == es;
    SharingGrowsByLink(t0, es, directory, e, [], s, s2);
    EntryGrows(t0, es, directory, name, e.what, s, s2, mask);
  }

  /** An implicit directory becomes explicit: only its record changes. */
  lemma {:induction false} UpgradeRealizes(t0: Tree, es: seq<Entry>, directory: Path, name: string, metadata: Metadata,
                                           s: Stage, mask: Mode)
    requires Realizes(t0, es, directory, s, mask) && metadata.explicitEntry
    requires Made(t0, es, directory, directory + [name])
    requires forall x :: x in es ==> x.path != directory + [name]
    ensures Realizes(t0, es + [Entry(directory + [name], Folder(metadata))], [],
      s.(directories := s.directories[Join(directory + [name]) := metadata]), mask)
  {
    var p := directory + [name];
    var e := Entry(p, Folder(metadata));
    var es2, s2 := es + [e], s.(directories := s.directories[Join(p) := metadata]);
    ClaimEntry(t0, es, directory, name, e.what);
    EntryAtEnd(es, e);
    UpgradeClaims(t0, es, directory, e);
    UpgradeKeepsOutline(t0, es, directory, e, s, s2);
    UpgradeKeepsDetail(t0, es, directory, e, s, s2, mask);
  }

  lemma {:induction false} UpgradeKeepsDetail(t0: Tree, es: seq<Entry>, directory: Path, e: Entry,
                                              s: Stage, s2: Stage, mask: Mode)
    requires Detail(t0, es, directory, s, mask) && e.what.Folder?
    requires CanonicalPath(e.path) && Records(es + [e], e.path, e.what.metadata, mask)
    requires Made(t0, es, directory, e.path)
    requires forall x :: Made(t0, es + [e], [], x) <==> Made(t0, es, directory, x)
    requires s2 == s.(directories := s.directories[Join(e.path) := e.what.metadata])
    ensures Detail(t0, es + [e], [], s2, mask)
  {
    UpgradeKeepsFolders(t0, es, directory, e, s, s2, mask);
    UpgradeKeepsMap(t0, es, directory, e, s, s2);
    UpgradeKeepsSharing(t0, es, directory, e, s, s2);
    UpgradeKeepsLeaves(es, e, s, s2);
  }

  lemma {:induction false} UpgradeClaims(t0: Tree, es: seq<Entry>, directory: Path, e: Entry)
    requires e.what.Folder? && Made(t0, es, directory, e.path)
    requires forall p :: Claimed(t0, es + [e], [], p) <==> Claimed(t0, es, directory, p) || p == e.path
    ensures forall p :: Claimed(t0, es + [e], [], p) <==> Claimed(t0, es, directory, p)
    ensures forall p :: Made(t0, es + [e], [], p) <==> Made(t0, es, directory, p)
  {
    forall p: Path ensures NonFolderAt(es + [e], p) <==> NonFolderAt(es, p) {
      if NonFolderAt(es, p) {
        var x :| x in es && x.path == p && !x.what.Folder?;
        assert x in es + [e];
      }
    }
  }

  lemma {:induction false} UpgradeKeepsOutline(t0: Tree, es: seq<Entry>, directory: Path, e: Entry, s: Stage, s2: Stage)
    requires Outline(t0, es, directory, s) && s2.tree == s.tree
    requires Sound(e.what) && e.path !in t0.names && CanonicalPath(e.path)
    requires forall p :: Claimed(t0, es + [e], [], p) <==> Claimed(t0, es, directory, p)
    ensures Outline(t0, es + [e], [], s2)
  {
    forall x | x in es + [e] ensures x.path !in t0.names && CanonicalPath(x.path) && Sound(x.what) {
      assert x in es || x == e;
    }
  }

  lemma {:induction false} UpgradeKeepsMap(t0: Tree, es: seq<Entry>, directory: Path, e: Entry, s: Stage, s2: Stage)
    requires MapIs(t0, es, directory, s) && Made(t0, es, directory, e.path)
    requires s2.directories.Keys == s.directories.Keys + {Join(e.path)}
    requires forall p :: Made(t0, es + [e], [], p) <==> Made(t0, es, directory, p)
    ensures MapIs(t0, es + [e], [], s2)
  {
    forall text | text in s2.directories ensures exists x :: Made(t0, es + [e], [], x) && Join(x) == text {
      if text in s.directories {
        var x :| Made(t0, es, directory, x) && Join(x) == text;
        assert Made(t0, es + [e], [], x);
      } else {
        assert Made(t0, es + [e], [], e.path);
      }
    }
  }

  lemma {:induction false} UpgradeKeepsSharing(t0: Tree, es: seq<Entry>, directory: Path, e: Entry, s: Stage, s2: Stage)
    requires SharingIs(t0, es, directory, s) && e.what.Folder? && s2.tree == s.tree
    ensures SharingIs(t0, es + [e], [], s2)
  {
    forall p: Path ensures Origin(es + [e], p) == Origin(es, p) {
      assert (es + [e])[..|es|] == es;
    }
  }

  lemma {:induction false} UpgradeKeepsLeaves(es: seq<Entry>, e: Entry, s: Stage, s2: Stage)
    requires LeavesAre(es, s) && e.what.Folder? && s2.tree == s.tree
    ensures LeavesAre(es + [e], s2)
  {
  }

  lemma {:induction false} UpgradeKeepsFolders(t0: Tree, es: seq<Entry>, directory: Path, e: Entry,
                                               s: Stage, s2: Stage, mask: Mode)
    requires FoldersAre(t0, es, directory, s, mask) && e.what.Folder?
    requires CanonicalPath(e.path) && Records(es + [e], e.path, e.what.metadata, mask)
    requires forall x :: Made(t0, es + [e], [], x) <==> Made(t0, es, directory, x)
    requires s2 == s.(directories := s.directories[Join(e.path) := e.what.metadata])
    ensures FoldersAre(t0, es + [e], [], s2, mask)
  {
    OthersKeepText(s.directories, e.path, e.what.metadata);
    forall x | Made(t0, es + [e], [], x)
      ensures CanonicalPath(x)
        && s2.tree.Exists(x) && s2.tree.At(x) == DirectoryNode(PRIVATE_DIRECTORY, WallClock)
        && Join(x) in s2.directories && Records(es + [e], x, s2.directories[Join(x)], mask)
    {
      assert Made(t0, es, directory, x);
      if x != e.path {
        assert Records(es, x, s.directories[Join(x)], mask);
        assert (forall y :: y in es + [e] ==> y.path != x) ==> forall y :: y in es ==> y.path != x;
      }
    }
  }
}
