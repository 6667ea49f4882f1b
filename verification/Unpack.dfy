/**
 * The source archive extractor in its own imperative form
 * (src/source_archive_libarchive.cpp:162-491).
 *
 * Every method is proved to leave exactly the stage that the fold of `Extraction` computes,
 * where it returns and where it throws.
 */
module Unpack {
  import opened Outcomes
  import opened TextOrder
  import opened PathText
  import opened SymlinkCheck
  import opened SourceTree
  import opened Extraction
  import opened ExtractionTheorems
  import opened Sealing

  class Workspace {
    var tree: Tree
    var directories: map<string, Metadata>

    ghost function Now(): Stage
      reads this
    {
      Stage(tree, directories)
    }

    constructor (tree: Tree)
      ensures Now() == Stage(tree, map[])
    {
      this.tree := tree;
      this.directories := map[];
    }

    /** `mkdirat` with mode 0700. */
    method MakeDirectory(directory: Path, name: string) returns (made: bool)
      modifies this`tree
      ensures made == MayAdd(old(tree), directory, name)
      ensures tree == if made then Place(old(tree), directory, name, DirectoryNode(PRIVATE_DIRECTORY, WallClock))
                      else old(tree)
    {
      made := MayAdd(tree, directory, name);
      if made {
        tree := Place(tree, directory, name, DirectoryNode(PRIVATE_DIRECTORY, WallClock));
      }
    }

    /** The body of the `open_parent` loop. */
    method EnterDirectory(current: Path, name: string, prefix: string, mask: Mode) returns (entered: bool)
      modifies this
      ensures Attempt(Now(), entered) == Entered(old(Now()), current, name, prefix, mask)
    {
      var info := Stat(tree, current, name);
      match info {
        case Denied =>
          return false;
        case Missing =>
          var made := MakeDirectory(current, name);
          if !made {
            return false;
          }
          directories := Emplace(directories, prefix, Implicit(mask));
        case Found(node) =>
          if !node.DirectoryNode? {
            return false;
          }
      }
      entered := OpensDirectory(tree, current, name);
    }

    /** `open_parent`: walk to the parent, creating directories that are missing. */
    method OpenParent(path: SafePath, mask: Mode) returns (entered: bool, parent: Path)
      requires path.components != []
      modifies this
      ensures Attempt(Now(), entered) == ParentFrom(old(Now()), path.components, mask, 0)
      ensures entered ==> parent == path.components[..|path.components| - 1]
    {
      parent := [];
      var index := 0;
      while index + 1 < |path.components|
        invariant index < |path.components| && parent == path.components[..index]
        invariant ParentFrom(Now(), path.components, mask, index) == ParentFrom(old(Now()), path.components, mask, 0)
      {
        var name := path.components[index];
        var prefix := JoinComponents(path.components, index + 1);
        entered := EnterDirectory(parent, name, prefix, mask);
        if !entered {
          return;
        }
        parent := parent + [name];
        index := index + 1;
      }
      entered := true;
    }

    /** `open_existing_parent`: the same walk for a hard-link source, creating nothing. */
    method OpenExistingParent(path: SafePath) returns (entered: bool, parent: Path)
      requires path.components != []
      ensures entered == Reaches(tree, path.components, 0)
      ensures entered ==> parent == path.components[..|path.components| - 1]
    {
      parent := [];
      var index := 0;
      while index + 1 < |path.components|
        invariant index < |path.components| && parent == path.components[..index]
        invariant Reaches(tree, path.components, index) == Reaches(tree, path.components, 0)
      {
        if !OpensDirectory(tree, parent, path.components[index]) {
          return false, parent;
        }
        parent := parent + [path.components[index]];
        index := index + 1;
      }
      entered := true;
    }

    /** `require_absent`. */
    method RequireAbsent(parent: Path, name: string) returns (absent: bool)
      ensures absent == Stat(tree, parent, name).Missing?
    {
      absent := Stat(tree, parent, name).Missing?;
    }

    /** `extract_directory`. */
    method ExtractDirectory(item: Item, path: SafePath, mask: Mode) returns (done: bool)
      requires item.Item? && path.components != []
      modifies this
      ensures Attempt(Now(), done) == ExtractedDirectory(old(Now()), path, item.perm, item.mtime, mask)
    {
      var entered, parent := OpenParent(path, mask);
      if !entered {
        return false;
      }
      var name := path.components[|path.components| - 1];
      if path.text !in directories {
        var absent := RequireAbsent(parent, name);
        if !absent {
          return false;
        }
        done := MakeDirectory(parent, name);
        if done {
          directories := Emplace(directories, path.text, Metadata(Admitted(item.perm, mask), item.mtime, true));
        }
        return;
      }
      if directories[path.text].explicitEntry {
        return false;
      }
      directories := directories[path.text := Metadata(Admitted(item.perm, mask), item.mtime, true)];
      done := true;
    }

    /** `write_regular_data`: append every block, each by as many partial writes as it takes. */
    method WriteRegularData(path: Path, chunks: seq<Bytes>, intact: bool) returns (done: bool)
      requires tree.Exists(path) && tree.At(path).RegularNode? && tree.At(path).mtime == WallClock
      modifies this`tree
      ensures done == intact
      ensures tree == Rewrite(old(tree), path,
                RegularNode(old(tree.At(path).data) + Concat(chunks), old(tree.At(path).mode), WallClock))
    {
      ghost var start := tree.At(path);
      assert start.data + Concat([]) == start.data;
      var index := 0;
      while index < |chunks|
        invariant index <= |chunks|
        invariant tree ==
          Rewrite(old(tree), path, RegularNode(start.data + Concat(chunks[..index]), start.mode, WallClock))
      {
        ghost var before := Concat(chunks[..index]);
        var offset := 0;
        assert before + chunks[index][..0] == before;
        while offset < |chunks[index]|
          invariant offset <= |chunks[index]|
          invariant tree == Rewrite(old(tree), path,
            RegularNode(start.data + (before + chunks[index][..offset]), start.mode, WallClock))
        {
          var written :| 1 <= written <= |chunks[index]| - offset;
          var piece := chunks[index][offset..offset + written];
          var node := tree.At(path);
          tree := Rewrite(tree, path, RegularNode(node.data + piece, node.mode, WallClock));
          assert before + chunks[index][..offset] + piece == before + chunks[index][..offset + written];
          assert node.data + piece == start.data + (before + chunks[index][..offset + written]);
          offset := offset + written;
        }
        assert chunks[..index + 1][..index] == chunks[..index];
        assert chunks[index][..offset] == chunks[index];
        index := index + 1;
      }
      assert chunks[..index] == chunks;
      done := intact;
    }

    /** `extract_regular`: create privately, fill, then set the admitted mode and time. */
    method ExtractRegular(item: Item, path: SafePath, mask: Mode) returns (done: bool)
      requires item.Item? && path.components != []
      modifies this
      ensures var made := ExtractedLeaf(old(Now()), path.components,
                FileNode(item.chunks, item.intact, item.perm, item.mtime, mask), mask);
        Attempt(Now(), done) == Attempt(made.stage, made.ok && item.intact)
    {
      var entered, parent := OpenParent(path, mask);
      if !entered {
        return false;
      }
      label walked:
      var name := path.components[|path.components| - 1];
      var absent := RequireAbsent(parent, name);
      if !absent || !MayAdd(tree, parent, name) {
        return false;
      }
      assert parent + [name] == path.components;
      tree := Place(tree, parent, name, RegularNode([], PRIVATE_FILE, WallClock));
      done := FillRegular(item, path.components, mask);
      RewriteOfPlaced(old@walked(tree), parent, name, RegularNode([], PRIVATE_FILE, WallClock),
                      FileNode(item.chunks, item.intact, item.perm, item.mtime, mask));
    }

    /** The rest of `extract_regular`, through the descriptor of the created file. */
    method FillRegular(item: Item, path: Path, mask: Mode) returns (done: bool)
      requires item.Item? && tree.Exists(path) && tree.At(path) == RegularNode([], PRIVATE_FILE, WallClock)
      modifies this`tree
      ensures done == item.intact
      ensures tree == Rewrite(old(tree), path, FileNode(item.chunks, item.intact, item.perm, item.mtime, mask))
    {
      done := WriteRegularData(path, item.chunks, item.intact);
      assert [] + Concat(item.chunks) == Concat(item.chunks);
      if done {
        var node := tree.At(path);
        tree := Rewrite(tree, path, RegularNode(node.data, Admitted(item.perm, mask), node.mtime));
        node := tree.At(path);
        tree := Rewrite(tree, path, RegularNode(node.data, node.mode, item.mtime));
      }
    }

    /** `extract_symlink`: the lexical check comes before anything is created. */
    method ExtractSymlink(item: Item, path: SafePath, mask: Mode) returns (done: bool)
      requires item.Item? && path.components != []
      modifies this
      ensures Attempt(Now(), done) ==
        if item.symlink.None? || !StaysBeneath(path.components, item.symlink.value) then Attempt(old(Now()), false)
        else ExtractedLeaf(old(Now()), path.components, SymlinkNode(item.symlink.value, item.mtime), mask)
    {
      if item.symlink.None? {
        return false;
      }
      var target := item.symlink.value;
      var beneath := SymlinkTargetStaysBeneath(path, target);
      if !beneath {
        return false;
      }
      var entered, parent := OpenParent(path, mask);
      if !entered {
        return false;
      }
      label walked:
      var name := path.components[|path.components| - 1];
      var absent := RequireAbsent(parent, name);
      if !absent || !MayAdd(tree, parent, name) {
        return false;
      }
      assert parent + [name] == path.components;
      tree := Place(tree, parent, name, SymlinkNode(target, WallClock));
      tree := Rewrite(tree, path.components, SymlinkNode(target, item.mtime));
      RewriteOfPlaced(old@walked(tree), parent, name, SymlinkNode(target, WallClock), SymlinkNode(target, item.mtime));
      done := true;
    }

    /** `extract_hardlink`: the target must already be a regular file beneath the root. */
    method ExtractHardlink(item: Item, path: SafePath, mask: Mode) returns (done: bool)
      requires item.Item? && item.hardlink.Some? && path.components != []
      modifies this
      ensures Attempt(Now(), done) ==
        if ParsePath(item.hardlink).Err? then Attempt(old(Now()), false)
        else ExtractedHardlink(old(Now()), path.components, ParsePath(item.hardlink).value.components, mask)
    {
      var parsed := ParseArchivePath(item.hardlink);
      if parsed.Err? {
        return false;
      }
      var target := parsed.value;
      var reached, sourceParent := OpenExistingParent(target);
      if !reached {
        return false;
      }
      var sourceName := target.components[|target.components| - 1];
      var info := Stat(tree, sourceParent, sourceName);
      if !info.Found? || !info.node.RegularNode? {
        return false;
      }
      RegularTargetExists(tree, target.components);
      var source := tree.names[target.components];
      var entered, parent := OpenParent(path, mask);
      if !entered {
        return false;
      }
      var name := path.components[|path.components| - 1];
      var absent := RequireAbsent(parent, name);
      if !absent || !MayAdd(tree, parent, name) {
        return false;
      }
      tree := Link(tree, source, parent, name);
      done := true;
    }

    /** `open_path_directory`: reparse the recorded text and walk to the directory it names. */
    method OpenPathDirectory(text: string) returns (opens: bool, directory: Path)
      ensures opens == (ParsePath(Some(text)).Ok? && OpensPath(tree, ParsePath(Some(text)).value.components, 0))
      ensures opens ==> directory == ParsePath(Some(text)).value.components
    {
      directory := [];
      var parsed := ParseArchivePath(Some(text));
      if parsed.Err? {
        return false, directory;
      }
      var components := parsed.value.components;
      var index := 0;
      while index < |components|
        invariant index <= |components| && directory == components[..index]
        invariant OpensPath(tree, components, index) == OpensPath(tree, components, 0)
      {
        if !OpensDirectory(tree, directory, components[index]) {
          return false, directory;
        }
        directory := directory + [components[index]];
        index := index + 1;
      }
      assert directory == components;
      opens := true;
    }

    /** `seal_directories`: sort the recorded directories, then write modes and times in that order. */
    method SealDirectories() returns (done: bool, ghost ordered: seq<(string, Metadata)>)
      modifies this`tree
      ensures IsSealOrder(ordered, directories)
      ensures (tree, done) == Sealed(old(tree), ordered)
    {
      var sorted := SortForSealing(directories);
      ordered := sorted;
      var index := 0;
      assert sorted[0..] == sorted;
      while index < |sorted|
        invariant index <= |sorted|
        invariant Sealed(tree, sorted[index..]) == Sealed(old(tree), sorted)
      {
        var opens, directory := OpenPathDirectory(sorted[index].0);
        if !opens || directory !in tree.names {
          return false, ordered;
        }
        tree := Rewrite(tree, directory, DirectoryNode(sorted[index].1.mode, sorted[index].1.mtime));
        assert sorted[index..][1..] == sorted[index + 1..];
        index := index + 1;
      }
      done := true;
    }

    /** One turn of the `unpack` loop. */
    method UnpackItem(item: Item, mask: Mode) returns (done: bool)
      modifies this
      ensures Attempt(Now(), done) == Step(old(Now()), item, mask)
    {
      if item.BadHeader? || item.raw {
        return false;
      }
      var parsed := ParseArchivePath(item.pathname);
      if parsed.Err? {
        return false;
      }
      var path := parsed.value;
      if item.hardlink.Some? {
        done := ExtractHardlink(item, path, mask);
        return done && item.intact;
      }
      match item.filetype {
        case DirectoryEntry =>
          done := ExtractDirectory(item, path, mask);
          done := done && item.intact;
        case RegularEntry =>
          done := ExtractRegular(item, path, mask);
        case SymlinkEntry =>
          done := ExtractSymlink(item, path, mask);
          done := done && item.intact;
        case OtherEntry =>
          done := false;
      }
    }

    /** The entry loop of `unpack`. */
    method UnpackItems(items: seq<Item>, mask: Mode) returns (done: bool)
      modifies this
      ensures Attempt(Now(), done) == StepAll(old(Now()), items, mask)
    {
      var index := 0;
      assert items[0..] == items;
      while index < |items|
        invariant index <= |items|
        invariant StepAll(Now(), items[index..], mask) == StepAll(old(Now()), items, mask)
      {
        assert items[index..][1..] == items[index + 1..];
        done := UnpackItem(items[index], mask);
        if !done {
          return;
        }
        index := index + 1;
      }
      done := true;
    }

    /**
     * `unpack`: succeeds exactly for a non-empty archive whose items all read as entries that
     * fit, and then leaves the tree those entries stand for.  Success or not, nothing that was
     * there before is removed, replaced or altered.
     */
    method Unpack(items: seq<Item>, closes: bool, mask: Mode) returns (r: Result<()>)
      requires tree.WellFormed()
      modifies this
      ensures r.Ok? <==>
        items != [] && closes && Readings(items, mask).Some? && AllFit(old(tree), [], Readings(items, mask).value)
      ensures r.Ok? ==> Extracted(old(tree), Readings(items, mask).value, tree, mask)
      ensures r.Err? ==> r.code == SourceStagingFailed
      ensures tree.WellFormed() && KeepsNames(old(tree), tree)
    {
      directories := map[];
      StepAllPreserves(Now(), items, mask);
      var done := UnpackItems(items, mask);
      PreservesKeepsNames(old(tree), tree);
      UnpackMeans(old(tree), items, [], mask);
      if !done || items == [] {
        return Err(SourceStagingFailed);
      }
      ghost var ordered;
      done, ordered := SealDirectories();
      UnpackMeans(old(tree), items, ordered, mask);
      r := if done && closes then Ok(()) else Err(SourceStagingFailed);
    }
  }

  lemma RewriteOfPlaced(t: Tree, directory: Path, name: string, first: Inode, second: Inode)
    requires t.IsDirectory(directory)
    ensures Rewrite(Place(t, directory, name, first), directory + [name], second) == Place(t, directory, name, second)
  {
  }

  /** The sort of `seal_directories`: insert every entry of the map at its comparator position. */
  method SortForSealing(directories: map<string, Metadata>) returns (ordered: seq<(string, Metadata)>)
    ensures IsSealOrder(ordered, directories)
    ensures forall i, j :: 0 <= i < j < |ordered| ==>
      || SlashCount(ordered[i].0) > SlashCount(ordered[j].0)
      || (SlashCount(ordered[i].0) == SlashCount(ordered[j].0) && Less(ordered[j].0, ordered[i].0))
  {
    ordered := [];
    var remaining := directories.Keys;
    ghost var placed: map<string, Metadata> := map[];
    while remaining != {}
      invariant remaining <= directories.Keys
      invariant placed == map text | text in directories && text !in remaining :: directories[text]
      invariant IsSealOrder(ordered, placed)
      decreases |remaining|
    {
      var text :| text in remaining;
      ordered := InsertForSealing(ordered, placed, text, directories[text]);
      remaining := remaining - {text};
      placed := placed[text := directories[text]];
    }
    assert placed == directories;
    forall i, j | 0 <= i < j < |ordered|
      ensures
        || SlashCount(ordered[i].0) > SlashCount(ordered[j].0)
        || (SlashCount(ordered[i].0) == SlashCount(ordered[j].0) && Less(ordered[j].0, ordered[i].0))
    {
      assert SealsBefore(ordered[i].0, ordered[j].0);
    }
  }

  method InsertForSealing(ordered: seq<(string, Metadata)>, ghost placed: map<string, Metadata>,
                          text: string, metadata: Metadata)
    returns (longer: seq<(string, Metadata)>)
    requires IsSealOrder(ordered, placed) && text !in placed
    ensures IsSealOrder(longer, placed[text := metadata])
  {
    var at := 0;
    while at < |ordered| && SealsBefore(ordered[at].0, text)
      invariant at <= |ordered|
      invariant forall i :: 0 <= i < at ==> SealsBefore(ordered[i].0, text)
    {
      at := at + 1;
    }
    longer := ordered[..at] + [(text, metadata)] + ordered[at..];
    InsertedInOrder(ordered, placed, text, metadata, at);
  }

  /** One entry more at its comparator position. */
  lemma {:induction false} InsertedInOrder(ordered: seq<(string, Metadata)>, placed: map<string, Metadata>,
                                           text: string, metadata: Metadata, at: nat)
    requires IsSealOrder(ordered, placed) && text !in placed && at <= |ordered|
    requires forall i :: 0 <= i < at ==> SealsBefore(ordered[i].0, text)
    requires at < |ordered| ==> !SealsBefore(ordered[at].0, text)
    ensures IsSealOrder(ordered[..at] + [(text, metadata)] + ordered[at..], placed[text := metadata])
  {
    var longer := ordered[..at] + [(text, metadata)] + ordered[at..];
    InsertedHolds(ordered, placed, text, metadata, at, longer);
    if at < |ordered| {
      assert IsRecorded(ordered[at], placed);
    }
    InsertedSorted(ordered, (text, metadata), at, longer);
  }

  /** The longer list holds what the list held, and the new entry. */
  lemma {:induction false} InsertedHolds(ordered: seq<(string, Metadata)>, placed: map<string, Metadata>,
                                         text: string, metadata: Metadata, at: nat, longer: seq<(string, Metadata)>)
    requires IsSealOrder(ordered, placed) && text !in placed && at <= |ordered|
    requires longer == ordered[..at] + [(text, metadata)] + ordered[at..]
    ensures forall i :: 0 <= i < |longer| ==> IsRecorded(longer[i], placed[text := metadata])
    ensures forall key :: key in placed[text := metadata] ==> Pending(longer, key)
  {
    assert longer[at] == (text, metadata);
    forall i | 0 <= i < |longer| && i != at
      ensures IsRecorded(longer[i], placed[text := metadata])
    {
      assert longer[i] == ordered[if i < at then i else i - 1];
    }
    forall key | key in placed
      ensures Pending(longer, key)
    {
      assert Pending(ordered, key);
      var i :| 0 <= i < |ordered| && ordered[i].0 == key;
      assert longer[if i < at then i else i + 1].0 == key;
    }
  }

  lemma {:induction false} InsertedSorted(
      ordered: seq<(string, Metadata)>, entry: (string, Metadata), at: nat, longer: seq<(string, Metadata)>)
    requires Sorted(ordered) && at <= |ordered| && longer == ordered[..at] + [entry] + ordered[at..]
    requires forall i :: 0 <= i < at ==> SealsBefore(ordered[i].0, entry.0)
    requires at < |ordered| ==> !SealsBefore(ordered[at].0, entry.0) && ordered[at].0 != entry.0
    ensures Sorted(longer)
  {
    forall i | at <= i < |ordered|
      ensures SealsBefore(entry.0, ordered[i].0)
    {
      SealsBeforeTotal(entry.0, ordered[at].0);
      if at < i {
        SealsBeforeTransitive(entry.0, ordered[at].0, ordered[i].0);
      }
    }
    forall i, j | 0 <= i < j < |longer|
      ensures SealsBefore(longer[i].0, longer[j].0)
    {
      assert i != at ==> longer[i] == ordered[if i < at then i else i - 1];
      assert j != at ==> longer[j] == ordered[if j < at then j else j - 1];
    }
  }

  lemma SealsBeforeTotal(a: string, b: string)
    requires a != b
    ensures SealsBefore(a, b) || SealsBefore(b, a)
  {
    LessIsStrict(a, b, []);
  }

  lemma SealsBeforeTransitive(a: string, b: string, c: string)
    requires SealsBefore(a, b) && SealsBefore(b, c)
    ensures SealsBefore(a, c)
  {
    if SlashCount(a) == SlashCount(b) && SlashCount(b) == SlashCount(c) {
      LessIsStrict(c, b, a);
    }
  }
}
