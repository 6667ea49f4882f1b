/**
 * Payload inspection of a quiescent tree (src/executor.cpp:470-489, 523-714): entries in the order
 * of the walk, hard links found by inode, and one retained record for each regular file.
 */
module Inspection {
  import opened Outcomes
  import opened OutputTree

  datatype What =
    | Regular(size: nat, digest: string)
    | Directory
    | SymbolicLink(target: string)
    | HardLink(original: Path)
    | NamedPipe
    | Character(major: nat, minor: nat)
    | Block(major: nat, minor: nat)

  datatype Entry = Entry(path: Path, mode: nat, user: nat, group: nat, seconds: int, what: What)

  datatype Retained = Retained(path: Path, stamp: Attributes, size: nat, digest: string)

  /** The digest, the build policy's source date epoch, and the paths the payload library accepts. */
  datatype Setting = Setting(sha: Bytes -> string, epoch: Option<int>, accepts: Path -> bool)

  /** What `inspect_directory` has pushed so far. */
  datatype Scan = Scan(entries: seq<Entry>, regulars: seq<Retained>, targets: map<Key, Path>)

  const MAXIMUM_TARGET: int := 1024 * 1024

  /** `payload_time`. */
  function Time(w: Setting, a: Attributes): int {
    if w.epoch.Some? then w.epoch.value else a.seconds
  }

  function EntryFor(w: Setting, path: Path, a: Attributes, what: What): Entry {
    Entry(path, a.mode, a.user, a.group, Time(w, a), what)
  }

  function Pushed(w: Setting, s: Scan, path: Path, a: Attributes, what: What): Scan {
    s.(entries := s.entries + [EntryFor(w, path, a, what)])
  }

  /** One regular file: a hard link if its inode was seen, else hashed and retained. */
  function FileScanned(w: Setting, s: Scan, path: Path, a: Attributes, bytes: Bytes): Scan {
    if a.links > 1 && a.key in s.targets then
      Pushed(w, s, path, a, HardLink(s.targets[a.key]))
    else
      Scan(
        s.entries + [EntryFor(w, path, a, Regular(|bytes|, w.sha(bytes)))],
        s.regulars + [Retained(path, a, |bytes|, w.sha(bytes))],
        if a.links > 1 then s.targets[a.key := path] else s.targets)
  }

  /**
   * One node; a path the payload library refuses is a foreign exception, which the caller reports
   * as a failed verification.
   */
  function Scanned(w: Setting, s: Scan, item: Item): Result<Scan> {
    if !w.accepts(item.path) then
      Err(ArtifactVerificationFailed)
    else
      match item.node
      case Folder(a, _) => Ok(Pushed(w, s, item.path, a, Directory))
      case File(a, bytes) => Ok(FileScanned(w, s, item.path, a, bytes))
      case Symlink(a, target) =>
        if |target| < MAXIMUM_TARGET then Ok(Pushed(w, s, item.path, a, SymbolicLink(target)))
        else Err(PayloadInspectionFailed)
      case Fifo(a) => Ok(Pushed(w, s, item.path, a, NamedPipe))
      case CharacterDevice(a, major, minor) => Ok(Pushed(w, s, item.path, a, Character(major, minor)))
      case BlockDevice(a, major, minor) => Ok(Pushed(w, s, item.path, a, Block(major, minor)))
      case Unsupported(_) => Err(PayloadInspectionFailed)
  }

  function ScannedAll(w: Setting, s: Scan, items: seq<Item>): Result<Scan>
    decreases |items|
  {
    if items == [] then
      Ok(s)
    else
      match Scanned(w, s, items[0])
      case Err(code) => Err(code)
      case Ok(next) => ScannedAll(w, next, items[1..])
  }

  lemma {:induction false} ScannedInTwo(w: Setting, s: Scan, a: seq<Item>, b: seq<Item>)
    ensures ScannedAll(w, s, a + b) ==
      match ScannedAll(w, s, a) case Err(code) => Err(code) case Ok(next) => ScannedAll(w, next, b)
    decreases |a|
  {
    if a == [] {
      assert a + b == b;
    } else {
      assert (a + b)[1..] == a[1..] + b;
      if Scanned(w, s, a[0]).Ok? {
        ScannedInTwo(w, Scanned(w, s, a[0]).value, a[1..], b);
      }
    }
  }

  // What the walk finds, said without the walk ------------------------------------------------------

  predicate Shares(item: Item, key: Key) {
    item.node.File? && item.node.attributes.links > 1 && item.node.attributes.key == key
  }

  /** The first path met that leads to this many-linked inode. */
  function FirstShare(seen: seq<Item>, key: Key): Option<Path> {
    if seen == [] then
      None
    else
      var last := |seen| - 1;
      match FirstShare(seen[..last], key)
      case Some(p) => Some(p)
      case None => if Shares(seen[last], key) then Some(seen[last].path) else None
  }

  predicate Acceptable(w: Setting, item: Item) {
    w.accepts(item.path) && !item.node.Unsupported? && (item.node.Symlink? ==> |item.node.target| < MAXIMUM_TARGET)
  }

  /** What a file is in the payload, given the nodes met before it. */
  function FileWhat(w: Setting, seen: seq<Item>, a: Attributes, bytes: Bytes): What {
    var first := if a.links > 1 then FirstShare(seen, a.key) else None;
    if first.Some? then HardLink(first.value) else Regular(|bytes|, w.sha(bytes))
  }

  function Rendered(w: Setting, seen: seq<Item>, item: Item): Entry
    requires Acceptable(w, item)
  {
    var what := match item.node
      case Folder(_, _) => Directory
      case File(a, bytes) => FileWhat(w, seen, a, bytes)
      case Symlink(_, target) => SymbolicLink(target)
      case Fifo(_) => NamedPipe
      case CharacterDevice(_, major, minor) => Character(major, minor)
      case BlockDevice(_, major, minor) => Block(major, minor);
    EntryFor(w, item.path, item.node.attributes, what)
  }

  predicate AllAcceptable(w: Setting, items: seq<Item>) {
    forall i :: 0 <= i < |items| ==> Acceptable(w, items[i])
  }

  function RenderedAll(w: Setting, items: seq<Item>): (es: seq<Entry>)
    requires AllAcceptable(w, items)
    ensures |es| == |items|
  {
    if items == [] then
      []
    else
      var last := |items| - 1;
      RenderedAll(w, items[..last]) + [Rendered(w, items[..last], items[last])]
  }

  /** One record for each file that is not a hard link to an earlier one. */
  function RetainedAll(w: Setting, items: seq<Item>): seq<Retained> {
    if items == [] then
      []
    else
      var last := |items| - 1;
      RetainedAll(w, items[..last]) + RetainedHere(w, items[..last], items[last])
  }

  /** The scan describes exactly the items met. */
  ghost predicate Describes(w: Setting, items: seq<Item>, s: Scan) {
    && AllAcceptable(w, items)
    && s.entries == RenderedAll(w, items)
    && s.regulars == RetainedAll(w, items)
    && Remembers(items, s.targets)
  }

  lemma {:induction false} RenderedMore(w: Setting, items: seq<Item>, item: Item)
    requires AllAcceptable(w, items) && Acceptable(w, item)
    ensures AllAcceptable(w, items + [item])
    ensures RenderedAll(w, items + [item]) == RenderedAll(w, items) + [Rendered(w, items, item)]
  {
    assert (items + [item])[..|items|] == items;
  }

  function RetainedHere(w: Setting, seen: seq<Item>, item: Item): seq<Retained> {
    if item.node.File? && FileWhat(w, seen, item.node.attributes, item.node.bytes).Regular? then
      [Retained(item.path, item.node.attributes, |item.node.bytes|, w.sha(item.node.bytes))]
    else
      []
  }

  lemma {:induction false} RetainedMore(w: Setting, items: seq<Item>, item: Item)
    ensures RetainedAll(w, items + [item]) == RetainedAll(w, items) + RetainedHere(w, items, item)
  {
    assert (items + [item])[..|items|] == items;
  }

  /** The map of hard-link targets holds exactly the first shares. */
  ghost predicate Remembers(items: seq<Item>, targets: map<Key, Path>) {
    forall key :: FirstShare(items, key) == if key in targets then Some(targets[key]) else None
  }

  lemma {:induction false} FileDescribes(w: Setting, items: seq<Item>, s: Scan, item: Item)
    requires Remembers(items, s.targets) && item.node.File?
    ensures var after := FileScanned(w, s, item.path, item.node.attributes, item.node.bytes);
      && after.entries == s.entries +
           [EntryFor(w, item.path, item.node.attributes, FileWhat(w, items, item.node.attributes, item.node.bytes))]
      && after.regulars == s.regulars + RetainedHere(w, items, item)
      && Remembers(items + [item], after.targets)
  {
    FirstShareAfter(items, item);
    var key := item.node.attributes.key;
    assert FirstShare(items, key) == if key in s.targets then Some(s.targets[key]) else None;
  }

  lemma {:induction false} OtherDescribes(items: seq<Item>, targets: map<Key, Path>, item: Item)
    requires Remembers(items, targets) && !item.node.File?
    ensures Remembers(items + [item], targets)
  {
    FirstShareAfter(items, item);
  }

  lemma {:induction false} ScannedDescribes(w: Setting, items: seq<Item>, s: Scan, item: Item)
    requires Describes(w, items, s)
    ensures Scanned(w, s, item).Ok? <==> Acceptable(w, item)
    ensures Acceptable(w, item) ==> Describes(w, items + [item], Scanned(w, s, item).value)
  {
    if Acceptable(w, item) {
      RenderedMore(w, items, item);
      RetainedMore(w, items, item);
      if item.node.File? {
        FileDescribes(w, items, s, item);
      } else {
        OtherDescribes(items, s.targets, item);
      }
    }
  }

  function Sooner(earlier: Option<Path>, item: Item, key: Key): Option<Path> {
    if earlier.None? && Shares(item, key) then Some(item.path) else earlier
  }

  lemma {:induction false} FirstShareAfter(items: seq<Item>, item: Item)
    ensures forall key :: FirstShare(items + [item], key) == Sooner(FirstShare(items, key), item, key)
  {
    assert (items + [item])[..|items|] == items;
  }

  lemma {:induction false} WalkDescribes(w: Setting, done: seq<Item>, s: Scan, items: seq<Item>)
    requires Describes(w, done, s)
    ensures ScannedAll(w, s, items).Ok? <==> AllAcceptable(w, items)
    ensures AllAcceptable(w, items) ==> Describes(w, done + items, ScannedAll(w, s, items).value)
    decreases |items|
  {
    if items == [] {
      assert done + items == done;
    } else {
      ScannedDescribes(w, done, s, items[0]);
      if Acceptable(w, items[0]) {
        WalkDescribes(w, done + [items[0]], Scanned(w, s, items[0]).value, items[1..]);
        assert done + [items[0]] + items[1..] == done + items;
        assert AllAcceptable(w, items[1..]) ==> AllAcceptable(w, items);
      }
    }
  }

  /** The first node that is refused. */
  function FirstRefused(w: Setting, items: seq<Item>): (k: nat)
    requires !AllAcceptable(w, items)
    ensures k < |items| && !Acceptable(w, items[k]) && AllAcceptable(w, items[..k])
  {
    if !Acceptable(w, items[0]) then 0
    else
      assert items == [items[0]] + items[1..];
      1 + FirstRefused(w, items[1..])
  }

  /** Why a node is refused: the payload library's refusal of its path comes before its type. */
  function WhyRefused(w: Setting, item: Item): ErrorCode {
    if w.accepts(item.path) then PayloadInspectionFailed else ArtifactVerificationFailed
  }

  /** The first node that is refused decides the code. */
  lemma {:induction false} FirstRefusedDecides(w: Setting, s: Scan, items: seq<Item>)
    requires !AllAcceptable(w, items)
    ensures ScannedAll(w, s, items) == Err(WhyRefused(w, items[FirstRefused(w, items)]))
    decreases |items|
  {
    if Acceptable(w, items[0]) {
      assert items == [items[0]] + items[1..];
      assert Scanned(w, s, items[0]).Ok?;
      FirstRefusedDecides(w, Scanned(w, s, items[0]).value, items[1..]);
    }
  }

  // What is true of every inspected payload -------------------------------------------------------------

  lemma {:induction false} RenderedAt(w: Setting, items: seq<Item>, i: nat)
    requires AllAcceptable(w, items) && i < |items|
    ensures RenderedAll(w, items)[i] == Rendered(w, items[..i], items[i])
  {
    var last := |items| - 1;
    if i < last {
      RenderedAt(w, items[..last], i);
      assert items[..last][..i] == items[..i];
    }
  }

  lemma {:induction false} FirstShareIs(seen: seq<Item>, key: Key) returns (j: nat)
    ensures FirstShare(seen, key).Some? ==>
      && j < |seen|
      && Shares(seen[j], key)
      && seen[j].path == FirstShare(seen, key).value
      && FirstShare(seen[..j], key).None?
    ensures FirstShare(seen, key).None? ==> forall k :: 0 <= k < |seen| ==> !Shares(seen[k], key)
  {
    j := 0;
    if seen != [] {
      var last := |seen| - 1;
      j := FirstShareIs(seen[..last], key);
      if FirstShare(seen[..last], key).Some? {
        assert seen[..last][..j] == seen[..j];
      } else {
        j := last;
        assert forall k :: 0 <= k < last ==> seen[k] == seen[..last][k];
      }
    }
  }

  /** Once an inode has a first path, every longer listing gives it the same one. */
  lemma {:induction false} FirstShareStays(items: seq<Item>, i: nat, key: Key)
    requires i <= |items| && FirstShare(items[..i], key).Some?
    ensures FirstShare(items, key) == FirstShare(items[..i], key)
  {
    if i < |items| {
      var last := |items| - 1;
      assert items[..last][..i] == items[..i];
      FirstShareStays(items[..last], i, key);
    } else {
      assert items[..i] == items;
    }
  }

  /** A hard link names an earlier entry, which is a regular file: there are no chains. */
  lemma {:induction false} HardLinksNameRegulars(w: Setting, items: seq<Item>, i: nat) returns (j: nat)
    requires AllAcceptable(w, items) && i < |items| && RenderedAll(w, items)[i].what.HardLink?
    ensures j < i
    ensures var es := RenderedAll(w, items); es[j].path == es[i].what.original && es[j].what.Regular?
    ensures items[j].node.File? && items[j].node.attributes.key == items[i].node.attributes.key
  {
    RenderedAt(w, items, i);
    j := FirstShareIs(items[..i], items[i].node.attributes.key);
    RenderedAt(w, items, j);
    assert items[..i][..j] == items[..j];
  }

  /** The path whose bytes an entry has. */
  function Representative(e: Entry): Path {
    if e.what.HardLink? then e.what.original else e.path
  }

  /** Nodes that share an inode are counted as links to it. */
  predicate LinksCounted(items: seq<Item>) {
    forall i, j :: 0 <= i < j < |items| && SameInode(items[i], items[j]) ==>
      items[i].node.attributes.links > 1 && items[j].node.attributes.links > 1
  }

  predicate SameInode(a: Item, b: Item) {
    a.node.File? && b.node.File? && a.node.attributes.key == b.node.attributes.key
  }

  predicate PathsDiffer(items: seq<Item>) {
    forall i, j :: 0 <= i < j < |items| ==> items[i].path != items[j].path
  }

  lemma {:induction false} IncreasingPathsDiffer(items: seq<Item>)
    requires PathsIncrease(items)
    ensures PathsDiffer(items)
  {
    forall i, j | 0 <= i < j < |items|
      ensures items[i].path != items[j].path
    {
      PathLessIsStrict(items[i].path);
    }
  }

  /** A many-linked file's representative is the first path met to its inode. */
  lemma {:induction false} SharedRepresentative(w: Setting, items: seq<Item>, i: nat)
    requires AllAcceptable(w, items) && i < |items| && items[i].node.File? && items[i].node.attributes.links > 1
    ensures FirstShare(items, items[i].node.attributes.key) == Some(Representative(RenderedAll(w, items)[i]))
  {
    var key := items[i].node.attributes.key;
    RenderedAt(w, items, i);
    assert items[..i + 1][..i] == items[..i];
    FirstShareStays(items, i + 1, key);
  }

  /** Two files have the same representative exactly when they share an inode. */
  lemma {:induction false} RepresentativesAreInodes(w: Setting, items: seq<Item>, i: nat, j: nat)
    requires AllAcceptable(w, items) && PathsDiffer(items) && LinksCounted(items)
    requires i < |items| && j < |items| && items[i].node.File? && items[j].node.File?
    ensures var es := RenderedAll(w, items);
      Representative(es[i]) == Representative(es[j]) <==> items[i].node.attributes.key == items[j].node.attributes.key
  {
    var a := RepresentativeHasInode(w, items, i);
    var b := RepresentativeHasInode(w, items, j);
    if items[i].node.attributes.key == items[j].node.attributes.key && i != j {
      SharedRepresentative(w, items, i);
      SharedRepresentative(w, items, j);
    }
  }

  /** A file's representative is the path of a node with its inode. */
  lemma {:induction false} RepresentativeHasInode(w: Setting, items: seq<Item>, i: nat) returns (k: nat)
    requires AllAcceptable(w, items) && i < |items| && items[i].node.File?
    ensures k < |items| && items[k].node.File? && items[k].node.attributes.key == items[i].node.attributes.key
    ensures items[k].path == Representative(RenderedAll(w, items)[i])
  {
    RenderedAt(w, items, i);
    if RenderedAll(w, items)[i].what.HardLink? {
      k := HardLinksNameRegulars(w, items, i);
      RenderedAt(w, items, k);
    } else {
      k := i;
    }
  }

  /** `regular_for`. */
  function RegularFor(regulars: seq<Retained>, path: Path): Option<Retained> {
    if regulars == [] then None
    else if regulars[0].path == path then Some(regulars[0])
    else RegularFor(regulars[1..], path)
  }

  lemma {:induction false} RegularForIn(a: seq<Retained>, b: seq<Retained>, path: Path)
    ensures RegularFor(a + b, path) == if RegularFor(a, path).Some? then RegularFor(a, path) else RegularFor(b, path)
  {
    if a == [] {
      assert a + b == b;
    } else {
      assert (a + b)[1..] == a[1..] + b;
      RegularForIn(a[1..], b, path);
    }
  }

  predicate IsRetained(w: Setting, items: seq<Item>, i: nat)
    requires i < |items|
  {
    items[i].node.File? && FileWhat(w, items[..i], items[i].node.attributes, items[i].node.bytes).Regular?
  }

  /** No record for a path that was not met. */
  lemma {:induction false} NoneRetained(w: Setting, items: seq<Item>, path: Path)
    requires forall i :: 0 <= i < |items| ==> items[i].path != path
    ensures RegularFor(RetainedAll(w, items), path).None?
  {
    if items != [] {
      var last := |items| - 1;
      NoneRetained(w, items[..last], path);
      RegularForIn(RetainedAll(w, items[..last]), RetainedHere(w, items[..last], items[last]), path);
    }
  }

  /** A retained item's record is the one found for its path. */
  lemma {:induction false} RetainedFor(w: Setting, items: seq<Item>, i: nat)
    requires PathsDiffer(items) && i < |items| && IsRetained(w, items, i)
    ensures RegularFor(RetainedAll(w, items), items[i].path) ==
      Some(Retained(items[i].path, items[i].node.attributes, |items[i].node.bytes|, w.sha(items[i].node.bytes)))
  {
    var last := |items| - 1;
    RegularForIn(RetainedAll(w, items[..last]), RetainedHere(w, items[..last], items[last]), items[i].path);
    if i < last {
      assert items[..last][..i] == items[..i];
      RetainedFor(w, items[..last], i);
    } else {
      NoneRetained(w, items[..last], items[i].path);
    }
  }

  /** Every regular entry has its retained record, with the entry's size and digest. */
  lemma {:induction false} RegularsAreRetained(w: Setting, items: seq<Item>, i: nat)
    requires AllAcceptable(w, items) && PathsDiffer(items) && i < |items| && RenderedAll(w, items)[i].what.Regular?
    ensures var e, r := RenderedAll(w, items)[i], RegularFor(RetainedAll(w, items), items[i].path);
      r.Some? && r.value.path == e.path && e.what == Regular(r.value.size, r.value.digest)
  {
    RenderedAt(w, items, i);
    RetainedFor(w, items, i);
  }
}
