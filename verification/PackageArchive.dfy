/**
 * Payload inspection followed by archive encoding of a quiescent tree, as the sequence of header
 * and data calls made to the archive writer (src/executor.cpp:677-714, 1126-1335).
 */
module PackageArchive {
  import opened Outcomes
  import opened OutputTree
  import opened Inspection
  import opened Inspector
  import opened Determinism

  // Inspection of the whole root -----------------------------------------------------------------------

  /** `payload_manifest::seal`: it may refuse, and it keeps only entries it was given. */
  type Sealer = seq<Entry> -> Option<seq<Entry>>

  ghost predicate SealerLawful(seal: Sealer) {
    forall es, e :: seal(es).Some? && e in seal(es).value ==> e in es
  }

  datatype Inspected = Inspected(manifest: seq<Entry>, regulars: seq<Retained>)

  /** The nodes beneath the root in the order of the walk. */
  function ItemsOf(root: Node): seq<Item> {
    if root.Folder? then Items([], Sort(TidiedAll(root.children))) else []
  }

  /** The root is a directory with something in it, and nothing in it is refused. */
  predicate Inspectable(w: Setting, seal: Sealer, root: Node) {
    root.Folder? && root.children != [] && AllAcceptable(w, ItemsOf(root)) && seal(RenderedAll(w, ItemsOf(root))).Some?
  }

  lemma {:induction false} SomeItems(root: Node)
    requires root.Folder? && WellNamed(root)
    ensures ItemsOf(root) == [] <==> root.children == []
  {
    var cs := Sort(TidiedAll(root.children));
    SortSorts(TidiedAll(root.children));
    if cs != [] {
      assert |Beneath([cs[0].name], cs[0].node)| > 0;
      assert Items([], cs) == Beneath([] + [cs[0].name], cs[0].node) + Items([], cs[1..]);
    }
  }

  /** Why a root is refused: the first refused node decides, and where none is, it is the sealer that refused. */
  function WhyNot(w: Setting, root: Node): ErrorCode {
    if !root.Folder? || root.children == [] then PayloadInspectionFailed
    else if AllAcceptable(w, ItemsOf(root)) then ArtifactVerificationFailed
    else WhyRefused(w, ItemsOf(root)[FirstRefused(w, ItemsOf(root))])
  }

  lemma {:induction false} ItemsInTree(root: Node, k: nat)
    requires WellNamed(root) && k < |ItemsOf(root)|
    ensures var item := ItemsOf(root)[k];
      item.path != [] && NodeAt(Tidied(root), item.path) == Some(item.node)
  {
    TidiedIsTidy(root);
    ItemIsThere([], root.attributes, Sort(TidiedAll(root.children)), k);
    assert ItemsOf(root)[k].path[0..] == ItemsOf(root)[k].path;
  }

  /** What an entry says of the node that its path leads to, field by field. */
  predicate EntryTells(w: Setting, root: Node, e: Entry) {
    match NodeAt(root, e.path)
    case None => false
    case Some(n) =>
      && e.path != []
      && e.mode == n.attributes.mode
      && e.user == n.attributes.user
      && e.group == n.attributes.group
      && e.seconds == (if w.epoch.Some? then w.epoch.value else n.attributes.seconds)
      && WhatTells(w.sha, root, n, e.what)
  }

  /** A file with more names than one is an entry of its own, or a link to another name of its inode. */
  predicate WhatTells(sha: Bytes -> string, root: Node, n: Node, what: What) {
    match n
    case Folder(_, _) => what == Directory
    case File(a, bytes) =>
      || what == Regular(|bytes|, sha(bytes))
      || (what.HardLink? && a.links > 1 && LeadsToInode(root, what.original, a.key))
    case Symlink(_, target) => what == SymbolicLink(target) && |target| < 1048576
    case Fifo(_) => what == NamedPipe
    case CharacterDevice(_, major, minor) => what == Character(major, minor)
    case BlockDevice(_, major, minor) => what == Block(major, minor)
    case Unsupported(_) => false
  }

  predicate LeadsToInode(root: Node, path: Path, key: Key) {
    match NodeAt(root, path)
    case Some(File(a, _)) => a.key == key
    case _ => false
  }

  lemma {:induction false} ItemIsNode(root: Node, k: nat)
    requires WellNamed(root) && k < |ItemsOf(root)|
    ensures var item := ItemsOf(root)[k];
      && item.path != []
      && NodeAt(root, item.path).Some?
      && item.node == Tidied(NodeAt(root, item.path).value)
  {
    ItemsInTree(root, k);
    TidiedKeepsPaths(root, ItemsOf(root)[k].path);
  }

  lemma {:induction false} RenderedTells(w: Setting, root: Node, i: nat)
    requires WellNamed(root) && AllAcceptable(w, ItemsOf(root)) && i < |ItemsOf(root)|
    ensures EntryTells(w, root, RenderedAll(w, ItemsOf(root))[i])
  {
    var items := ItemsOf(root);
    RenderedAt(w, items, i);
    ItemIsNode(root, i);
    if RenderedAll(w, items)[i].what.HardLink? {
      var j := HardLinksNameRegulars(w, items, i);
      RenderedAt(w, items, j);
      ItemIsNode(root, j);
    }
  }

  /** Everything in the manifest is true of the tree, whatever the sealer keeps. */
  lemma {:induction false} ManifestTells(w: Setting, seal: Sealer, root: Node)
    requires WellNamed(root) && SealerLawful(seal) && Inspectable(w, seal, root)
    ensures forall e :: e in seal(RenderedAll(w, ItemsOf(root))).value ==> EntryTells(w, root, e)
  {
    var es := RenderedAll(w, ItemsOf(root));
    forall e | e in seal(es).value
      ensures EntryTells(w, root, e)
    {
      assert e in es;
      var i :| 0 <= i < |es| && es[i] == e;
      RenderedTells(w, root, i);
    }
  }

  /** Nothing about this node keeps it from being inspected. */
  predicate MayBeInspected(w: Setting, path: Path, n: Node) {
    w.accepts(path) && !n.Unsupported? && (n.Symlink? ==> |n.target| < 1048576)
  }

  /** Nothing in the tree is refused. */
  ghost predicate AllMayBeInspected(w: Setting, root: Node) {
    forall path :: path != [] && NodeAt(root, path).Some? ==> MayBeInspected(w, path, NodeAt(root, path).value)
  }

  /** The walk meets every node, in the same place as in the tree. */
  lemma {:induction false} MetAt(root: Node, path: Path) returns (i: nat)
    requires WellNamed(root) && root.Folder? && path != [] && NodeAt(root, path).Some?
    ensures i < |ItemsOf(root)| && ItemsOf(root)[i] == Item(path, Tidied(NodeAt(root, path).value))
  {
    TidiedKeepsPaths(root, path);
    NodeIsMet([], root.attributes, Sort(TidiedAll(root.children)), path);
    assert [] + path == path;
    i :| 0 <= i < |ItemsOf(root)| && ItemsOf(root)[i] == Item(path, NodeAt(Tidied(root), path).value);
  }

  lemma {:induction false} AcceptableAt(w: Setting, root: Node, i: nat)
    requires WellNamed(root) && i < |ItemsOf(root)|
    ensures var path := ItemsOf(root)[i].path;
      && path != [] && NodeAt(root, path).Some?
      && (Acceptable(w, ItemsOf(root)[i]) <==> MayBeInspected(w, path, NodeAt(root, path).value))
  {
    ItemIsNode(root, i);
  }

  /** What the walk accepts, said of the tree. */
  lemma {:induction false} AcceptedExactly(w: Setting, root: Node)
    requires WellNamed(root) && root.Folder?
    ensures AllAcceptable(w, ItemsOf(root)) <==> AllMayBeInspected(w, root)
  {
    forall i | 0 <= i < |ItemsOf(root)| && AllMayBeInspected(w, root)
      ensures Acceptable(w, ItemsOf(root)[i])
    {
      AcceptableAt(w, root, i);
    }
    forall path | path != [] && NodeAt(root, path).Some? && AllAcceptable(w, ItemsOf(root))
      ensures MayBeInspected(w, path, NodeAt(root, path).value)
    {
      var i := MetAt(root, path);
      AcceptableAt(w, root, i);
    }
  }

  /** The refused node whose path comes first decides: an unacceptable path, or else an unacceptable node. */
  lemma {:induction false} FirstPathDecides(w: Setting, root: Node) returns (path: Path)
    requires WellNamed(root) && root.Folder? && root.children != [] && !AllMayBeInspected(w, root)
    ensures path != [] && NodeAt(root, path).Some? && !MayBeInspected(w, path, NodeAt(root, path).value)
    ensures forall p :: p != [] && NodeAt(root, p).Some? && PathLess(p, path) ==>
      MayBeInspected(w, p, NodeAt(root, p).value)
    ensures WhyNot(w, root) == if w.accepts(path) then PayloadInspectionFailed else ArtifactVerificationFailed
  {
    AcceptedExactly(w, root);
    var items := ItemsOf(root);
    var k := FirstRefused(w, items);
    path := items[k].path;
    AcceptableAt(w, root, k);
    ItemsDiffer(root);
    forall p | p != [] && NodeAt(root, p).Some? && PathLess(p, path)
      ensures MayBeInspected(w, p, NodeAt(root, p).value)
    {
      var i := MetAt(root, p);
      PathLessIsStrict(p);
      PathLessOneWay(p, path);
      assert i < k && items[i] == items[..k][i];
      AcceptableAt(w, root, i);
    }
  }

  /** `inspect_payload`. */
  method InspectPayload(w: Setting, seal: Sealer, root: Node) returns (r: Result<Inspected>)
    requires WellNamed(root)
    ensures r.Ok? <==> Inspectable(w, seal, root)
    ensures r.Ok? ==> root.Folder? && root.children != [] && AllMayBeInspected(w, root)
    ensures !root.Folder? || root.children == [] ==> r == Err(PayloadInspectionFailed)
    ensures root.Folder? && root.children != [] && AllMayBeInspected(w, root) && r.Err? ==>
      r.code == ArtifactVerificationFailed
    ensures r.Ok? ==>
      && r.value.manifest == seal(RenderedAll(w, ItemsOf(root))).value
      && r.value.regulars == RetainedAll(w, ItemsOf(root))
    ensures r.Ok? && SealerLawful(seal) ==> forall e :: e in r.value.manifest ==> EntryTells(w, root, e)
    ensures r.Err? ==> r.code == WhyNot(w, root)
  {
    if !root.Folder? {
      return Err(PayloadInspectionFailed);
    }
    AcceptedExactly(w, root);
    var walk := new Walk(w);
    ghost var items := ItemsOf(root);
    WalkDescribes(w, [], walk.State(), items);
    assert [] + items == items;
    SomeItems(root);
    var done := walk.InspectDirectory([], root.attributes, root.children);
    if done.Err? {
      FirstRefusedDecides(w, Scan([], [], map[]), items);
      return Err(done.code);
    }
    if |walk.entries| == 0 {
      return Err(PayloadInspectionFailed);
    }
    var manifest := seal(walk.entries);
    if manifest.None? {
      return Err(ArtifactVerificationFailed);
    }
    r := Ok(Inspected(manifest.value, walk.regulars));
    if SealerLawful(seal) {
      ManifestTells(w, seal, root);
    }
  }

  // The archive writer's calls ---------------------------------------------------------------------------

  datatype FileType = RegularType | DirectoryType | LinkType | PipeType | CharacterType | BlockType

  datatype Event =
    | Header(path: Path, mode: nat, user: nat, group: nat, seconds: int, fileType: FileType, size: nat,
             symlink: Option<string>, hardlink: Option<Path>, device: Option<(nat, nat)>)
    | Data(bytes: Bytes)
    | FinishEntry

  function HeaderOf(e: Entry): Event {
    match e.what
    case Regular(size, _) => Header(e.path, e.mode, e.user, e.group, e.seconds, RegularType, size, None, None, None)
    case Directory => Header(e.path, e.mode, e.user, e.group, e.seconds, DirectoryType, 0, None, None, None)
    case SymbolicLink(target) =>
      Header(e.path, e.mode, e.user, e.group, e.seconds, LinkType, 0, Some(target), None, None)
    case HardLink(original) =>
      Header(e.path, e.mode, e.user, e.group, e.seconds, RegularType, 0, None, Some(original), None)
    case NamedPipe => Header(e.path, e.mode, e.user, e.group, e.seconds, PipeType, 0, None, None, None)
    case Character(major, minor) =>
      Header(e.path, e.mode, e.user, e.group, e.seconds, CharacterType, 0, None, None, Some((major, minor)))
    case Block(major, minor) =>
      Header(e.path, e.mode, e.user, e.group, e.seconds, BlockType, 0, None, None, Some((major, minor)))
  }

  /** What a header says of the node that its path leads to, field by field. */
  predicate HeaderTells(w: Setting, root: Node, h: Event) {
    h.Header? &&
    match NodeAt(root, h.path)
    case None => false
    case Some(n) =>
      && h.mode == n.attributes.mode
      && h.user == n.attributes.user
      && h.group == n.attributes.group
      && h.seconds == (if w.epoch.Some? then w.epoch.value else n.attributes.seconds)
      && KindTells(root, n, h)
  }

  predicate KindTells(root: Node, n: Node, h: Event)
    requires h.Header?
  {
    match n
    case Folder(_, _) => h.fileType.DirectoryType? && Plain(h) && h.size == 0
    case File(a, bytes) =>
      && h.fileType.RegularType? && h.symlink.None? && h.device.None?
      && if h.hardlink.None? then h.size == |bytes| else h.size == 0 && LeadsToInode(root, h.hardlink.value, a.key)
    case Symlink(_, target) =>
      h.fileType.LinkType? && h.size == 0 && h.symlink == Some(target) && h.hardlink.None? && h.device.None?
    case Fifo(_) => h.fileType.PipeType? && Plain(h) && h.size == 0
    case CharacterDevice(_, major, minor) =>
      && h.fileType.CharacterType? && h.size == 0 && h.symlink.None? && h.hardlink.None?
      && h.device == Some((major, minor))
    case BlockDevice(_, major, minor) =>
      && h.fileType.BlockType? && h.size == 0 && h.symlink.None? && h.hardlink.None?
      && h.device == Some((major, minor))
    case Unsupported(_) => false
  }

  predicate Plain(h: Event)
    requires h.Header?
  {
    h.symlink.None? && h.hardlink.None? && h.device.None?
  }

  /** An entry that is true of the tree has a header that is, for the same path. */
  lemma {:induction false} HeadersTell(w: Setting, root: Node, e: Entry)
    requires EntryTells(w, root, e)
    ensures HeaderOf(e).path == e.path && HeaderTells(w, root, HeaderOf(e))
  {
  }

  const BUFFER: int := 65536

  /** A file read through the buffer, each bufferful written as it is read. */
  function Chunks(bytes: Bytes): seq<Event> {
    if bytes == [] then []
    else if |bytes| <= BUFFER then [Data(bytes)]
    else [Data(bytes[..BUFFER])] + Chunks(bytes[BUFFER..])
  }

  /** The data that a run of events writes. */
  function DataOf(events: seq<Event>): Bytes {
    if events == [] then []
    else (if events[0].Data? then events[0].bytes else []) + DataOf(events[1..])
  }

  /** A file's data is all of its bytes in order, in blocks of at most 64 KiB that are not empty. */
  lemma {:induction false} ChunksAreAll(bytes: Bytes)
    ensures DataOf(Chunks(bytes)) == bytes
    ensures forall i :: 0 <= i < |Chunks(bytes)| ==> Chunks(bytes)[i].Data? && 0 < |Chunks(bytes)[i].bytes| <= 65536
    decreases |bytes|
  {
    if |bytes| > BUFFER {
      ChunksAreAll(bytes[BUFFER..]);
      assert Chunks(bytes)[1..] == Chunks(bytes[BUFFER..]);
      assert bytes[..BUFFER] + bytes[BUFFER..] == bytes;
    } else if bytes != [] {
      assert Chunks(bytes)[1..] == [];
    }
  }

  /** The bytes at a path; none if it is not a file. */
  function BytesAt(root: Node, path: Path): Bytes {
    match NodeAt(root, path)
    case Some(File(_, bytes)) => bytes
    case _ => []
  }

  function EntryTrace(root: Node, e: Entry): seq<Event> {
    [HeaderOf(e)] + (if e.what.Regular? then Chunks(BytesAt(root, e.path)) else []) + [FinishEntry]
  }

  function Trace(root: Node, manifest: seq<Entry>): seq<Event> {
    if manifest == [] then [] else Trace(root, manifest[..|manifest| - 1]) + EntryTrace(root, manifest[|manifest| - 1])
  }

  lemma {:induction false} TraceMore(root: Node, manifest: seq<Entry>, i: nat)
    requires i < |manifest|
    ensures Trace(root, manifest[..i + 1]) == Trace(root, manifest[..i]) + EntryTrace(root, manifest[i])
  {
    assert manifest[..i + 1][..i] == manifest[..i];
  }

  /** `open_regular_beneath`: one component at a time, through directories only. */
  method OpenRegularBeneath(root: Node, path: Path) returns (r: Option<Node>)
    requires path != []
    ensures r == match NodeAt(root, path) case Some(n) => if n.Symlink? then None else Some(n) case None => None
  {
    var current := root;
    for i := 0 to |path|
      invariant NodeAt(root, path) == NodeAt(current, path[i..])
      invariant i > 0 ==> !current.Symlink?
    {
      var next := if current.Folder? then Find(current.children, path[i]) else None;
      assert path[i..][0] == path[i] && path[i..][1..] == path[i + 1..];
      if next.None? {
        return None;
      }
      assert NodeAt(root, path) == NodeAt(next.value, path[i + 1..]);
      if next.value.Symlink? || (i + 1 < |path| && !next.value.Folder?) {
        return None;
      }
      current := next.value;
    }
    r := Some(current);
  }

  class Archive {
    var events: seq<Event>

    constructor ()
      ensures events == []
    {
      events := [];
    }

    /** `write_regular_payload`: reopen, check the stamp, copy, and check size and digest again. */
    method WriteRegularPayload(w: Setting, root: Node, regular: Retained) returns (r: Result<()>)
      requires regular.path != []
      modifies this
      ensures r.Ok? <==> StillHolds(w, root, regular)
      ensures r.Ok? ==> events == old(events) + Chunks(BytesAt(root, regular.path))
      ensures r.Err? ==> r.code == ArtifactEncodingFailed
    {
      var node := OpenRegularBeneath(root, regular.path);
      if
        || node.None? || !node.value.File?
        || node.value.attributes != regular.stamp || |node.value.bytes| != regular.size
      {
        return Err(ArtifactEncodingFailed);
      }
      var bytes := node.value.bytes;
      var offset := 0;
      while offset < |bytes|
        invariant offset <= |bytes|
        invariant old(events) + Chunks(bytes) == events + Chunks(bytes[offset..])
      {
        var count := if |bytes| - offset <= BUFFER then |bytes| - offset else BUFFER;
        ChunksStep(bytes[offset..], count);
        assert bytes[offset..][count..] == bytes[offset + count..];
        assert bytes[offset..][..count] == bytes[offset..offset + count];
        events := events + [Data(bytes[offset..offset + count])];
        offset := offset + count;
      }
      if w.sha(bytes) != regular.digest {
        return Err(ArtifactEncodingFailed);
      }
      r := Ok(());
    }

    /** One entry: its header, a regular file's bytes, and the end of the entry. */
    method EncodeEntry(w: Setting, payload: Inspected, root: Node, e: Entry) returns (r: Result<()>)
      requires e.what.Regular? ==> e.path != []
      modifies this
      ensures r.Ok? <==> Holds(w, payload, root, e)
      ensures r.Ok? ==> events == old(events) + EntryTrace(root, e)
      ensures r.Err? ==> r.code == ArtifactEncodingFailed
    {
      events := events + [HeaderOf(e)];
      if e.what.Regular? {
        var regular := RegularFor(payload.regulars, e.path);
        if regular.None? {
          return Err(ArtifactEncodingFailed);
        }
        FoundIsFor(payload.regulars, e.path);
        var _ :- WriteRegularPayload(w, root, regular.value);
      }
      events := events + [FinishEntry];
      r := Ok(());
    }

    /** `encode_artifact`. */
    method EncodeArtifact(w: Setting, payload: Inspected, root: Node) returns (r: Result<()>)
      requires forall e :: e in payload.manifest && e.what.Regular? ==> e.path != []
      modifies this
      ensures r.Ok? <==> AllHold(w, payload, root)
      ensures r.Ok? ==> events == old(events) + Trace(root, payload.manifest)
      ensures r.Err? ==> r.code == ArtifactEncodingFailed
    {
      var manifest := payload.manifest;
      assert manifest[..0] == [];
      for i := 0 to |manifest|
        invariant events == old(events) + Trace(root, manifest[..i])
        invariant forall k :: 0 <= k < i ==> Holds(w, payload, root, payload.manifest[k])
      {
        ghost var before := events;
        var e := manifest[i];
        assert e in payload.manifest;
        var _ :- EncodeEntry(w, payload, root, e);
        TraceMore(root, manifest, i);
        assert before + EntryTrace(root, e) == old(events) + (Trace(root, manifest[..i]) + EntryTrace(root, e));
      }
      assert manifest[..|manifest|] == manifest;
      r := Ok(());
    }
  }

  lemma {:induction false} FoundIsFor(regulars: seq<Retained>, path: Path)
    ensures RegularFor(regulars, path).Some? ==> RegularFor(regulars, path).value.path == path
  {
    if regulars != [] && regulars[0].path != path {
      FoundIsFor(regulars[1..], path);
    }
  }

  lemma {:induction false} ChunksStep(bytes: Bytes, count: nat)
    requires bytes != [] && count == if |bytes| <= BUFFER then |bytes| else BUFFER
    ensures Chunks(bytes) == [Data(bytes[..count])] + Chunks(bytes[count..])
  {
    assert |bytes| <= BUFFER ==> bytes[..count] == bytes && bytes[count..] == [];
  }

  /** The path still leads to the file that was retained. */
  predicate StillHolds(w: Setting, root: Node, r: Retained) {
    match NodeAt(root, r.path)
    case Some(File(a, bytes)) => a == r.stamp && |bytes| == r.size && w.sha(bytes) == r.digest
    case _ => false
  }

  predicate Holds(w: Setting, payload: Inspected, root: Node, e: Entry) {
    var found := RegularFor(payload.regulars, e.path);
    e.what.Regular? ==> found.Some? && StillHolds(w, root, found.value)
  }

  predicate AllHold(w: Setting, payload: Inspected, root: Node) {
    forall k :: 0 <= k < |payload.manifest| ==> Holds(w, payload, root, payload.manifest[k])
  }

  // What follows --------------------------------------------------------------------------------------------

  /** A file's item is the file its path leads to. */
  lemma {:induction false} FileInTree(root: Node, k: nat)
    requires WellNamed(root) && k < |ItemsOf(root)| && ItemsOf(root)[k].node.File?
    ensures ItemsOf(root)[k].path != [] && NodeAt(root, ItemsOf(root)[k].path) == Some(ItemsOf(root)[k].node)
  {
    ItemsInTree(root, k);
    TidiedKeepsPaths(root, ItemsOf(root)[k].path);
  }

  lemma {:induction false} ItemsDiffer(root: Node)
    requires WellNamed(root)
    ensures PathsIncrease(ItemsOf(root)) && PathsDiffer(ItemsOf(root))
  {
    if root.Folder? {
      TidiedIsTidy(root);
      ItemsIncrease([], Sort(TidiedAll(root.children)));
    }
    IncreasingPathsDiffer(ItemsOf(root));
  }

  /** Every non-root node has exactly one entry, at its own path; no other path has one. */
  lemma {:induction false} EntriesCoverTree(w: Setting, root: Node, path: Path)
    requires WellNamed(root) && root.Folder? && AllAcceptable(w, ItemsOf(root)) && path != []
    ensures NodeAt(root, path).Some? <==>
      exists i :: 0 <= i < |ItemsOf(root)| && RenderedAll(w, ItemsOf(root))[i].path == path
    ensures forall i, j :: 0 <= i < j < |ItemsOf(root)| ==>
      PathLess(RenderedAll(w, ItemsOf(root))[i].path, RenderedAll(w, ItemsOf(root))[j].path)
  {
    var items := ItemsOf(root);
    TidiedKeepsPaths(root, path);
    ItemsDiffer(root);
    forall i | 0 <= i < |items|
      ensures RenderedAll(w, items)[i].path == items[i].path && NodeAt(Tidied(root), items[i].path).Some?
    {
      RenderedAt(w, items, i);
      ItemsInTree(root, i);
    }
    if NodeAt(root, path).Some? {
      NodeIsMet([], root.attributes, Sort(TidiedAll(root.children)), path);
      assert [] + path == path;
      var item := Item(path, NodeAt(Tidied(root), path).value);
      assert item in items;
      var i :| 0 <= i < |items| && items[i] == item;
      assert RenderedAll(w, items)[i].path == path;
    }
  }

  /** On a tree that does not change, every regular entry's record is found and still holds. */
  lemma {:induction false} QuiescentHolds(w: Setting, seal: Sealer, root: Node, payload: Inspected)
    requires WellNamed(root) && SealerLawful(seal) && Inspectable(w, seal, root)
    requires payload.manifest == seal(RenderedAll(w, ItemsOf(root))).value
    requires payload.regulars == RetainedAll(w, ItemsOf(root))
    ensures AllHold(w, payload, root)
    ensures forall e :: e in payload.manifest && e.what.Regular? ==> e.path != []
  {
    var items := ItemsOf(root);
    ItemsDiffer(root);
    forall e | e in payload.manifest && e.what.Regular?
      ensures Holds(w, payload, root, e) && e.path != []
    {
      assert e in RenderedAll(w, items);
      var i :| 0 <= i < |items| && RenderedAll(w, items)[i] == e;
      RenderedAt(w, items, i);
      RetainedFor(w, items, i);
      FileInTree(root, i);
    }
  }

  /** `inspect_payload`, then `encode_artifact`, with nothing changing in between. */
  method InspectAndEncode(w: Setting, seal: Sealer, root: Node) returns (r: Result<seq<Entry>>, events: seq<Event>)
    requires WellNamed(root) && SealerLawful(seal)
    ensures r.Ok? <==> Inspectable(w, seal, root)
    ensures r.Ok? ==> r.value == seal(RenderedAll(w, ItemsOf(root))).value && events == Trace(root, r.value)
  {
    events := [];
    var inspected := InspectPayload(w, seal, root);
    if inspected.Err? {
      return Err(inspected.code), [];
    }
    QuiescentHolds(w, seal, root, inspected.value);
    var archive := new Archive();
    var encoded := archive.EncodeArtifact(w, inspected.value, root);
    assert [] + Trace(root, inspected.value.manifest) == Trace(root, inspected.value.manifest);
    r := Ok(inspected.value.manifest);
    events := archive.events;
  }

  lemma {:induction false} SameEntryTraces(ren: Renaming, m: Node, n: Node, e: Entry)
    requires SameTree(ren, m, n) && (e.what.Regular? ==> NodeAt(m, e.path).Some?)
    ensures EntryTrace(m, e) == EntryTrace(n, e)
  {
    if e.what.Regular? {
      SameTreesHold(ren, m, n, e.path);
    }
  }

  lemma {:induction false} SameTraces(ren: Renaming, m: Node, n: Node, manifest: seq<Entry>)
    requires SameTree(ren, m, n)
    requires forall e :: e in manifest && e.what.Regular? ==> NodeAt(m, e.path).Some?
    ensures Trace(m, manifest) == Trace(n, manifest)
  {
    if manifest != [] {
      var last := |manifest| - 1;
      SameTraces(ren, m, n, manifest[..last]);
      assert manifest[last] in manifest;
      SameEntryTraces(ren, m, n, manifest[last]);
    }
  }

  /**
   * With a source date epoch, trees that are equal up to inode and device numbers, times, link
   * counts and enumeration order give the same manifest and the same calls to the archive writer.
   */
  lemma {:induction false} PayloadIsDetermined(w: Setting, seal: Sealer, ren: Renaming, m: Node, n: Node)
    requires w.epoch.Some? && Injective(ren) && SealerLawful(seal)
    requires WellNamed(m) && WellNamed(n) && SameTree(ren, m, n)
    requires LinksCounted(ItemsOf(m)) && LinksCounted(ItemsOf(n))
    ensures Inspectable(w, seal, m) <==> Inspectable(w, seal, n)
    ensures Inspectable(w, seal, m) ==>
      var manifest := seal(RenderedAll(w, ItemsOf(m))).value;
      seal(RenderedAll(w, ItemsOf(n))) == Some(manifest) && Trace(m, manifest) == Trace(n, manifest)
  {
    if m.Folder? {
      SameTreesAlign(ren, m, n);
      AlignedItemsAgree(ren, [], Tidied(m).children, Tidied(n).children);
      ScansAgree(w, ren, ItemsOf(m), ItemsOf(n));
      SameEmptiness(ren, m, n);
      if Inspectable(w, seal, m) {
        var manifest := seal(RenderedAll(w, ItemsOf(m))).value;
        RegularsAreThere(w, seal, m);
        SameTraces(ren, m, n, manifest);
      }
    }
  }

  lemma {:induction false} SameEmptiness(ren: Renaming, m: Node, n: Node)
    requires SameTree(ren, m, n) && m.Folder?
    ensures m.children == [] <==> n.children == []
  {
    if n.children != [] {
      SomeName(m.children, n.children);
    }
    if m.children != [] {
      SameChildAt(ren, m.children, n.children, 0);
    }
  }

  lemma {:induction false} RegularsAreThere(w: Setting, seal: Sealer, root: Node)
    requires WellNamed(root) && SealerLawful(seal) && Inspectable(w, seal, root)
    ensures forall e :: e in seal(RenderedAll(w, ItemsOf(root))).value && e.what.Regular? ==> NodeAt(root, e.path).Some?
  {
    var items := ItemsOf(root);
    forall e | e in seal(RenderedAll(w, items)).value && e.what.Regular?
      ensures NodeAt(root, e.path).Some?
    {
      assert e in RenderedAll(w, items);
      var i :| 0 <= i < |items| && RenderedAll(w, items)[i] == e;
      RenderedAt(w, items, i);
      FileInTree(root, i);
    }
  }
}
