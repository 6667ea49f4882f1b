/**
 * Source extraction as a fold over archive entries
 * (src/source_archive_libarchive.cpp:125-399).
 *
 * Each function is the meaning of one extractor function on a fault-free file system; the
 * methods in `Unpack` are proved to compute exactly these results.
 */
module Extraction {
  import opened Outcomes
  import opened TextOrder
  import opened PathText
  import opened SymlinkCheck
  import opened SourceTree

  datatype FileType = DirectoryEntry | RegularEntry | SymlinkEntry | OtherEntry

  /** What libarchive reports for one entry; `intact` is whether its payload ends without an error. */
  datatype Item = BadHeader | Item(
    pathname: Option<string>, hardlink: Option<string>, filetype: FileType, symlink: Option<string>,
    perm: Mode, mtime: Time, raw: bool, chunks: seq<Bytes>, intact: bool)

  /** `directory_metadata`: what sealing will write. */
  datatype Metadata = Metadata(mode: Mode, mtime: Time, explicitEntry: bool)

  datatype Stage = Stage(tree: Tree, directories: map<string, Metadata>)

  function Admitted(mode: Mode, mask: Mode): Mode {
    (mode & ALL_PERMISSIONS) & !mask
  }

  function Implicit(mask: Mode): Metadata {
    Metadata(Admitted(ALL_PERMISSIONS, mask), Stamp(0, 0), false)
  }

  /** `std::map::emplace`: an existing key keeps its value. */
  function Emplace(directories: map<string, Metadata>, text: string, metadata: Metadata): map<string, Metadata> {
    if text in directories then directories else directories[text := metadata]
  }

  /** What a call left behind, and whether it returned instead of throwing. */
  datatype Attempt = Attempt(stage: Stage, ok: bool)

  /** One component of `open_parent`: create the directory if it is missing, then open it. */
  function Entered(s: Stage, directory: Path, name: string, prefix: string, mask: Mode): Attempt {
    match Stat(s.tree, directory, name)
    case Denied => Attempt(s, false)
    case Missing =>
      if !MayAdd(s.tree, directory, name) then Attempt(s, false)
      else
        var made := Place(s.tree, directory, name, DirectoryNode(PRIVATE_DIRECTORY, WallClock));
        Attempt(Stage(made, Emplace(s.directories, prefix, Implicit(mask))), OpensDirectory(made, directory, name))
    case Found(node) =>
      Attempt(s, node.DirectoryNode? && OpensDirectory(s.tree, directory, name))
  }

  /** `open_parent` from component `k` on. */
  function ParentFrom(s: Stage, p: Path, mask: Mode, k: nat): Attempt
    decreases |p| - k
  {
    if k + 1 >= |p| then Attempt(s, true)
    else
      var entered := Entered(s, p[..k], p[k], Join(p[..k + 1]), mask);
      if entered.ok then ParentFrom(entered.stage, p, mask, k + 1) else entered
  }

  /** `require_absent` and then a creating call in the parent. */
  function Created(s: Stage, directory: Path, name: string, node: Inode): Attempt {
    if Stat(s.tree, directory, name).Missing? && MayAdd(s.tree, directory, name)
    then Attempt(s.(tree := Place(s.tree, directory, name, node)), true) else Attempt(s, false)
  }

  /** `extract_directory` once the parent is open: make it, or make an implicit one explicit. */
  function FolderRest(s: Stage, p: Path, text: string, metadata: Metadata): Attempt
    requires p != []
  {
    if text !in s.directories then
      var made := Created(s, p[..|p| - 1], p[|p| - 1], DirectoryNode(PRIVATE_DIRECTORY, WallClock));
      if made.ok
      then Attempt(made.stage.(directories := Emplace(made.stage.directories, text, metadata)), true) else made
    else if s.directories[text].explicitEntry then Attempt(s, false)
    else Attempt(s.(directories := s.directories[text := metadata]), true)
  }

  /** `extract_directory`. */
  function ExtractedDirectory(s: Stage, p: SafePath, perm: Mode, mtime: Time, mask: Mode): Attempt
    requires p.components != []
  {
    var ready := ParentFrom(s, p.components, mask, 0);
    if ready.ok
    then FolderRest(ready.stage, p.components, p.text, Metadata(Admitted(perm, mask), mtime, true)) else ready
  }

  /** `extract_regular` and `extract_symlink`: an absent name becomes this node. */
  function ExtractedLeaf(s: Stage, p: Path, node: Inode, mask: Mode): Attempt
    requires p != []
  {
    var ready := ParentFrom(s, p, mask, 0);
    if ready.ok then Created(ready.stage, p[..|p| - 1], p[|p| - 1], node) else ready
  }

  /** The file `extract_regular` leaves: still private if its payload broke off. */
  function FileNode(chunks: seq<Bytes>, intact: bool, perm: Mode, mtime: Time, mask: Mode): Inode {
    if intact then RegularNode(Concat(chunks), Admitted(perm, mask), mtime)
    else RegularNode(Concat(chunks), PRIVATE_FILE, WallClock)
  }

  /** `open_existing_parent` from component `k` on. */
  predicate Reaches(t: Tree, p: Path, k: nat)
    decreases |p| - k
  {
    k + 1 >= |p| || (OpensDirectory(t, p[..k], p[k]) && Reaches(t, p, k + 1))
  }

  predicate IsRegularTarget(t: Tree, target: Path)
    requires target != []
  {
    && Reaches(t, target, 0)
    && Stat(t, target[..|target| - 1], target[|target| - 1]).Found?
    && Stat(t, target[..|target| - 1], target[|target| - 1]).node.RegularNode?
  }

  lemma RegularTargetExists(t: Tree, target: Path)
    requires target != [] && IsRegularTarget(t, target)
    ensures t.Exists(target) && t.At(target).RegularNode?
  {
    assert target[..|target| - 1] + [target[|target| - 1]] == target;
  }

  /** `extract_hardlink`. */
  function ExtractedHardlink(s: Stage, p: Path, target: Path, mask: Mode): Attempt
    requires p != [] && target != []
  {
    if !IsRegularTarget(s.tree, target) then Attempt(s, false)
    else
      RegularTargetExists(s.tree, target);
      var ready := ParentFrom(s, p, mask, 0);
      var directory, name := p[..|p| - 1], p[|p| - 1];
      if !ready.ok then ready
      else if Stat(ready.stage.tree, directory, name).Missing? && MayAdd(ready.stage.tree, directory, name)
      then Attempt(ready.stage.(tree := Link(ready.stage.tree, s.tree.names[target], directory, name)), true)
      else Attempt(ready.stage, false)
  }

  /** The extractor function for this kind of entry. */
  function Dispatched(s: Stage, item: Item, path: SafePath, mask: Mode): Attempt
    requires item.Item? && path.components != []
  {
    if item.hardlink.Some? then
      var target := ParsePath(item.hardlink);
      if target.Err? then Attempt(s, false)
      else ExtractedHardlink(s, path.components, target.value.components, mask)
    else
      match item.filetype
      case DirectoryEntry => ExtractedDirectory(s, path, item.perm, item.mtime, mask)
      case RegularEntry =>
        ExtractedLeaf(s, path.components, FileNode(item.chunks, item.intact, item.perm, item.mtime, mask), mask)
      case SymlinkEntry =>
        if item.symlink.None? || !StaysBeneath(path.components, item.symlink.value) then Attempt(s, false)
        else ExtractedLeaf(s, path.components, SymlinkNode(item.symlink.value, item.mtime), mask)
      case OtherEntry => Attempt(s, false)
  }

  /** One turn of the `unpack` loop. */
  function Step(s: Stage, item: Item, mask: Mode): Attempt {
    if item.BadHeader? || item.raw || ParsePath(item.pathname).Err? then Attempt(s, false)
    else
      var done := Dispatched(s, item, ParsePath(item.pathname).value, mask);
      Attempt(done.stage, done.ok && item.intact)
  }

  function StepAll(s: Stage, items: seq<Item>, mask: Mode): Attempt
    decreases |items|
  {
    if items == [] then Attempt(s, true)
    else
      var next := Step(s, items[0], mask);
      if next.ok then StepAll(next.stage, items[1..], mask) else next
  }

  /** `open_path_directory` from component `k` on. */
  predicate OpensPath(t: Tree, p: Path, k: nat)
    decreases |p| - k
  {
    k >= |p| || (OpensDirectory(t, p[..k], p[k]) && OpensPath(t, p, k + 1))
  }

  /** One turn of the sealing loop; None where the directory cannot be opened. */
  function SealedOne(t: Tree, text: string, metadata: Metadata): Option<Tree> {
    var parsed := ParsePath(Some(text));
    if parsed.Ok? && OpensPath(t, parsed.value.components, 0) && parsed.value.components in t.names
    then Some(Rewrite(t, parsed.value.components, DirectoryNode(metadata.mode, metadata.mtime))) else None
  }

  /** The loop of `seal_directories` over its sorted directories. */
  function Sealed(t: Tree, ordered: seq<(string, Metadata)>): (Tree, bool)
    decreases |ordered|
  {
    if ordered == [] then (t, true)
    else
      var next := SealedOne(t, ordered[0].0, ordered[0].1);
      if next.Some? then Sealed(next.value, ordered[1..]) else (t, false)
  }

  /** The comparator of `seal_directories`: deeper first, then later text first. */
  predicate SealsBefore(a: string, b: string) {
    if SlashCount(a) != SlashCount(b) then SlashCount(a) > SlashCount(b) else Less(b, a)
  }

  ghost predicate Sorted(ordered: seq<(string, Metadata)>) {
    forall i, j :: 0 <= i < j < |ordered| ==> SealsBefore(ordered[i].0, ordered[j].0)
  }

  /** The list holds the text. */
  ghost predicate Pending(ordered: seq<(string, Metadata)>, text: string) {
    exists i :: 0 <= i < |ordered| && ordered[i].0 == text
  }

  ghost predicate IsRecorded(entry: (string, Metadata), directories: map<string, Metadata>) {
    entry.0 in directories && directories[entry.0] == entry.1
  }

  /** The sorted copy of the directory map: every entry once, in comparator order. */
  ghost predicate IsSealOrder(ordered: seq<(string, Metadata)>, directories: map<string, Metadata>) {
    && (forall i :: 0 <= i < |ordered| ==> IsRecorded(ordered[i], directories))
    && (forall text :: text in directories ==> Pending(ordered, text))
    && Sorted(ordered)
  }
}
