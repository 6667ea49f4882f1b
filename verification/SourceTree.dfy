/**
 * The part of a file system that source extraction can see: names beneath the extraction
 * root, the inodes they name, and the calls the extractor makes on open directories.
 *
 * A directory descriptor is the component path of the directory it was opened on; extraction
 * never renames or removes, so the two stay interchangeable.
 */
module SourceTree {
  import opened Outcomes

  type Path = seq<string>

  /** Permission bits; the masks below are 0700, 0600, 0777 and the owner's r, w and x. */
  type Mode = bv12

  const PRIVATE_DIRECTORY: Mode := 0x1C0
  const PRIVATE_FILE: Mode := 0x180
  const ALL_PERMISSIONS: Mode := 0x1FF
  const OWNER_READ: Mode := 0x100
  const OWNER_WRITE: Mode := 0x080
  const OWNER_SEARCH: Mode := 0x040

  /** A time set by the extractor, or whatever the clock said when the kernel set it. */
  datatype Time = Stamp(seconds: int, nanoseconds: int) | WallClock

  datatype Inode =
    | DirectoryNode(mode: Mode, mtime: Time)
    | RegularNode(data: Bytes, mode: Mode, mtime: Time)
    | SymlinkNode(target: string, mtime: Time)

  datatype Tree = Tree(names: map<Path, nat>, inodes: map<nat, Inode>, next: nat, privileged: bool) {

    predicate Exists(p: Path) {
      p in names && names[p] in inodes
    }

    function At(p: Path): Inode
      requires Exists(p)
    {
      inodes[names[p]]
    }

    predicate IsDirectory(p: Path) {
      Exists(p) && At(p).DirectoryNode?
    }

    predicate Grants(p: Path, bits: Mode) {
      IsDirectory(p) && (privileged || At(p).mode & bits == bits)
    }

    predicate CanRead(p: Path) {
      Grants(p, OWNER_READ)
    }

    predicate CanSearch(p: Path) {
      Grants(p, OWNER_SEARCH)
    }

    predicate CanWrite(p: Path) {
      Grants(p, OWNER_WRITE)
    }

    predicate HasParent(p: Path) {
      p == [] || IsDirectory(p[..|p| - 1])
    }

    /** Every name has an inode, every parent is a directory, and no directory has two names. */
    ghost predicate WellFormed() {
      && IsDirectory([])
      && (forall p :: p in names ==> names[p] in inodes && names[p] < next)
      && (forall i :: i in inodes ==> i < next)
      && (forall p {:trigger HasParent(p)} :: p in names ==> HasParent(p))
      && (forall p, q :: p in names && q in names && names[p] == names[q] && At(p).DirectoryNode? ==> p == q)
    }
  }

  datatype StatResult = Missing | Denied | Found(node: Inode)

  /** `fstatat` with AT_SYMLINK_NOFOLLOW. */
  function Stat(t: Tree, directory: Path, name: string): StatResult {
    if !t.CanSearch(directory) then Denied
    else if t.Exists(directory + [name]) then Found(t.At(directory + [name]))
    else Missing
  }

  /** `openat` with O_DIRECTORY and O_NOFOLLOW. */
  predicate OpensDirectory(t: Tree, directory: Path, name: string) {
    t.CanSearch(directory) && t.CanRead(directory + [name])
  }

  predicate MayAdd(t: Tree, directory: Path, name: string) {
    t.CanSearch(directory) && t.CanWrite(directory) && directory + [name] !in t.names
  }

  /** A directory whose modification time the kernel has just set. */
  function Aged(node: Inode): Inode
    requires node.DirectoryNode?
  {
    DirectoryNode(node.mode, WallClock)
  }

  ghost predicate SameNode(before: Inode, after: Inode) {
    after == before || (before.DirectoryNode? && after == Aged(before))
  }

  /** Adding a name changes the modification time of the directory that holds it. */
  function Touched(t: Tree, directory: Path): map<nat, Inode>
    requires t.IsDirectory(directory)
  {
    t.inodes[t.names[directory] := Aged(t.At(directory))]
  }

  /** `mkdirat`, `openat` with O_CREAT and O_EXCL, or `symlinkat`: a fresh inode under a new name. */
  function Place(t: Tree, directory: Path, name: string, node: Inode): Tree
    requires t.IsDirectory(directory)
  {
    t.(names := t.names[directory + [name] := t.next],
       inodes := Touched(t, directory)[t.next := node],
       next := t.next + 1)
  }

  /** `linkat`: a second name for an existing inode. */
  function Link(t: Tree, inode: nat, directory: Path, name: string): Tree
    requires t.IsDirectory(directory)
  {
    t.(names := t.names[directory + [name] := inode], inodes := Touched(t, directory))
  }

  /** `fchmod`, `futimens` and `write` through a descriptor. */
  function Rewrite(t: Tree, p: Path, node: Inode): Tree
    requires p in t.names
  {
    t.(inodes := t.inodes[t.names[p] := node])
  }

  /** Nothing that existed is removed, renamed or altered, directory times aside. */
  ghost predicate Preserves(before: Tree, after: Tree) {
    && before.privileged == after.privileged
    && (forall p :: p in before.names ==> p in after.names && after.names[p] == before.names[p])
    && (forall i :: i in before.inodes ==> i in after.inodes && SameNode(before.inodes[i], after.inodes[i]))
  }

  lemma {:induction false} PreservesTransitive(a: Tree, b: Tree, c: Tree)
    requires Preserves(a, b) && Preserves(b, c)
    ensures Preserves(a, c)
  {
    forall i | i in a.inodes ensures i in c.inodes && SameNode(a.inodes[i], c.inodes[i]) {
      assert SameNode(a.inodes[i], b.inodes[i]) && SameNode(b.inodes[i], c.inodes[i]);
    }
  }

  /** What `Place` and `Link` have in common: one more name, in a directory that exists. */
  ghost predicate Extends(t: Tree, after: Tree, directory: Path, name: string) {
    && Preserves(t, after)
    && t.IsDirectory(directory) && directory + [name] !in t.names
    && after.names.Keys == t.names.Keys + {directory + [name]}
    && (forall i :: i in after.inodes ==> i < after.next)
    && after.Exists(directory + [name]) && after.names[directory + [name]] < after.next
    && (after.At(directory + [name]).DirectoryNode? ==> after.names[directory + [name]] == t.next)
  }

  lemma {:induction false} PlaceExtends(t: Tree, directory: Path, name: string, node: Inode)
    requires t.WellFormed() && t.IsDirectory(directory) && directory + [name] !in t.names
    ensures Extends(t, Place(t, directory, name, node), directory, name)
    ensures Place(t, directory, name, node).At(directory + [name]) == node
  {
    var after := Place(t, directory, name, node);
    forall i | i in t.inodes ensures i in after.inodes && SameNode(t.inodes[i], after.inodes[i]) {
    }
  }

  lemma {:induction false} LinkExtends(t: Tree, inode: nat, directory: Path, name: string)
    requires t.WellFormed() && t.IsDirectory(directory) && directory + [name] !in t.names
    requires inode in t.inodes && !t.inodes[inode].DirectoryNode?
    ensures Extends(t, Link(t, inode, directory, name), directory, name)
    ensures Link(t, inode, directory, name).At(directory + [name]) == t.inodes[inode]
  {
  }

  /** A preserved node keeps its kind, its mode and everything but a directory's time. */
  lemma {:induction false} PreservedNode(t: Tree, after: Tree, p: Path)
    requires Preserves(t, after) && t.Exists(p)
    ensures after.Exists(p) && SameNode(t.At(p), after.At(p))
    ensures forall bits :: t.Grants(p, bits) == after.Grants(p, bits)
  {
    assert SameNode(t.inodes[t.names[p]], after.inodes[t.names[p]]);
  }

  lemma {:induction false} ExtendsWellFormed(t: Tree, after: Tree, directory: Path, name: string)
    requires t.WellFormed() && Extends(t, after, directory, name)
    ensures after.WellFormed()
  {
    PreservedNode(t, after, []);
    forall p | p in after.names ensures after.names[p] in after.inodes && after.HasParent(p) {
      ParentRemains(t, after, directory, name, p);
    }
    forall p, q | p in after.names && q in after.names && after.names[p] == after.names[q] && after.At(p).DirectoryNode?
      ensures p == q
    {
      DirectoriesHaveOneName(t, after, directory, name, p, q);
    }
  }

  lemma {:induction false} ParentRemains(t: Tree, after: Tree, directory: Path, name: string, p: Path)
    requires t.WellFormed() && Extends(t, after, directory, name) && p in after.names
    ensures after.names[p] in after.inodes && after.HasParent(p)
  {
    if p == directory + [name] {
      assert p[..|p| - 1] == directory;
      PreservedNode(t, after, directory);
    } else {
      PreservedNode(t, after, p);
      assert t.HasParent(p);
      if p != [] {
        PreservedNode(t, after, p[..|p| - 1]);
      }
    }
  }

  lemma {:induction false} DirectoriesHaveOneName(t: Tree, after: Tree, directory: Path, name: string, p: Path, q: Path)
    requires t.WellFormed() && Extends(t, after, directory, name)
    requires p in after.names && q in after.names && after.names[p] == after.names[q]
    requires after.names[p] in after.inodes && after.At(p).DirectoryNode?
    ensures p == q
  {
    var added := directory + [name];
    if p != added && q != added {
      PreservedNode(t, after, p);
      assert t.names[p] == t.names[q] && t.At(p).DirectoryNode?;
    }
  }
}
