/**
 * What an accepted archive leaves, item by item and in the fields of the item: names, contents,
 * permission bits, times, link targets and shared inodes (src/source_archive_libarchive.cpp:125-482).
 */
module ExtractedTree {
  import opened Outcomes
  import opened PathText
  import opened SymlinkCheck
  import opened SourceTree
  import opened Extraction
  import opened ExtractionSpec
  import opened ExtractionTheorems
  import opened Sealing

  /**
   * The permission bits an entry ends with: no set-id or sticky bit, no bit of the mask, and every
   * other bit as the archive has it.
   */
  predicate ModeIs(mode: Mode, archived: Mode, mask: Mode) {
    mode & 0xE00 == 0 && mode & mask == 0 && mode & !(0xE00 | mask) == archived & !(0xE00 | mask)
  }

  lemma {:induction false} AdmittedBits(archived: Mode, mask: Mode)
    ensures ModeIs(Admitted(archived, mask), archived, mask)
  {
  }

  /** There is one such mode only. */
  lemma {:induction false} BitsDecide(a: Mode, b: Mode, archived: Mode, mask: Mode)
    requires ModeIs(a, archived, mask) && ModeIs(b, archived, mask)
    ensures a == b
  {
    OtherBits(a, mask);
    OtherBits(b, mask);
  }

  lemma {:induction false} OtherBits(a: Mode, mask: Mode)
    requires a & 0xE00 == 0 && a & mask == 0
    ensures a & !(0xE00 | mask) == a
  {
  }

  /** An ordinary relative path: components that are neither empty nor dots, without slashes. */
  predicate OrdinaryPath(cs: Path) {
    && cs != []
    && forall i :: 0 <= i < |cs| ==> cs[i] != "" && cs[i] != "." && cs[i] != ".." && '/' !in cs[i]
  }

  /** The item's name, as text, names these components. */
  ghost predicate IsNamed(name: Option<string>, cs: Path) {
    name.Some? && OrdinaryPath(cs) && Names(name.value, cs)
  }

  lemma {:induction false} ParsedIsNamed(name: Option<string>)
    requires ParsePath(name).Ok?
    ensures IsNamed(name, ParsePath(name).value.components)
  {
    AcceptedAreNames(name.value);
  }

  lemma {:induction false} NamedIsParsed(name: Option<string>, cs: Path)
    requires IsNamed(name, cs)
    ensures ParsePath(name).Ok? && ParsePath(name).value.components == cs
  {
    assert CanonicalPath(cs);
    NamesAreAccepted(name.value, cs);
  }

  /** What else an item needs: a hard link a named target, a symbolic link one that stays beneath the root. */
  ghost predicate IsReadable(item: Item, cs: Path)
    requires item.Item? && cs != []
  {
    if item.hardlink.Some? then
      exists target :: IsNamed(item.hardlink, target)
    else
      match item.filetype
      case DirectoryEntry => true
      case RegularEntry => true
      case SymlinkEntry => item.symlink.Some? && StaysBeneath(cs, item.symlink.value)
      case OtherEntry => false
  }

  /** Which items can be unpacked at all, whatever comes before them. */
  lemma {:induction false} ReadsExactly(item: Item, mask: Mode)
    ensures Reading(item, mask).Some? <==>
      && item.Item? && !item.raw && item.intact
      && exists cs :: IsNamed(item.pathname, cs) && IsReadable(item, cs)
  {
    if item.Item? {
      if cs :| IsNamed(item.pathname, cs) && IsReadable(item, cs) {
        NamedIsParsed(item.pathname, cs);
        if item.hardlink.Some? {
          var target :| IsNamed(item.hardlink, target);
          NamedIsParsed(item.hardlink, target);
        }
      }
      if Reading(item, mask).Some? {
        ParsedIsNamed(item.pathname);
        if item.hardlink.Some? {
          ParsedIsNamed(item.hardlink);
        }
        assert IsReadable(item, ParsePath(item.pathname).value.components);
      }
    }
  }

  lemma {:induction false} ReadingsAt(items: seq<Item>, mask: Mode, i: nat)
    requires Readings(items, mask).Some? && i < |items|
    ensures |Readings(items, mask).value| == |items|
    ensures Reading(items[i], mask) == Some(Readings(items, mask).value[i])
    decreases |items|
  {
    if i > 0 {
      ReadingsAt(items[1..], mask, i - 1);
    } else if |items| > 1 {
      ReadingsAt(items[1..], mask, 0);
    }
  }

  /** What an item leaves at its path, directories aside. */
  ghost predicate LeafIs(t: Tree, cs: Path, item: Item, mask: Mode)
    requires item.Item? && t.Exists(cs)
  {
    match item.filetype
    case RegularEntry =>
      && t.At(cs).RegularNode?
      && t.At(cs).data == Concat(item.chunks)
      && t.At(cs).mtime == item.mtime
      && ModeIs(t.At(cs).mode, item.perm, mask)
    case SymlinkEntry =>
      item.symlink.Some? && t.At(cs) == SymlinkNode(item.symlink.value, item.mtime)
    case DirectoryEntry =>
      && t.At(cs).DirectoryNode?
      && t.At(cs).mtime == item.mtime
      && ModeIs(t.At(cs).mode, item.perm, mask)
    case OtherEntry => false
  }

  /** Entries that fit are at different paths, but for a directory whose path comes again below it. */
  lemma {:induction false} LaterDiffer(t0: Tree, es: seq<Entry>, i: nat, j: nat)
    requires AllFitAt(t0, [], es) && i < j < |es| && (!es[i].what.Folder? || !es[j].what.Folder?)
    ensures es[i].path != es[j].path
  {
    assert Fits(t0, [] + es[..j], es[j]);
    assert [] + es[..j] == es[..j] && es[..j][i] == es[i];
    assert es[i] in es[..j];
  }

  lemma {:induction false} FolderIsMade(t0: Tree, es: seq<Entry>, i: nat)
    requires AllFitAt(t0, [], es) && i < |es| && es[i].what.Folder?
    ensures Made(t0, es, [], es[i].path)
  {
    assert Fits(t0, [] + es[..i], es[i]);
    assert es[i] in es;
    forall j | 0 <= j < |es| && !es[j].what.Folder?
      ensures es[j].path != es[i].path
    {
      if i < j {
        LaterDiffer(t0, es, i, j);
      } else {
        LaterDiffer(t0, es, j, i);
      }
    }
  }

  lemma {:induction false} FolderIsThere(t0: Tree, es: seq<Entry>, t: Tree, mask: Mode, i: nat)
    requires AllFitAt(t0, [], es) && Extracted(t0, es, t, mask) && i < |es| && es[i].what.Folder?
    ensures t.Exists(es[i].path)
    ensures t.At(es[i].path) == DirectoryNode(es[i].what.metadata.mode, es[i].what.metadata.mtime)
  {
    FolderIsMade(t0, es, i);
    assert es[i] in es;
    assert FolderIsSealed(es, t, es[i].path, mask);
  }

  lemma {:induction false} OtherIsThere(t0: Tree, es: seq<Entry>, t: Tree, mask: Mode, i: nat)
    requires Extracted(t0, es, t, mask) && i < |es| && !es[i].what.Folder?
    ensures t.Exists(es[i].path)
    ensures if es[i].what.Leaf? then t.At(es[i].path) == es[i].what.node else t.At(es[i].path).RegularNode?
  {
    assert es[i] in es;
  }

  /**
   * Every item of an accepted archive is there under its own name, with its own contents, time and
   * permission bits, or as a regular file if it is a hard link.
   */
  lemma {:induction false} ItemsAreThere(t0: Tree, items: seq<Item>, t: Tree, mask: Mode, i: nat) returns (cs: Path)
    requires Readings(items, mask).Some? && AllFit(t0, [], Readings(items, mask).value)
    requires Extracted(t0, Readings(items, mask).value, t, mask) && i < |items|
    ensures items[i].Item? && !items[i].raw && items[i].intact && IsNamed(items[i].pathname, cs)
    ensures t.Exists(cs)
    ensures if items[i].hardlink.Some? then t.At(cs).RegularNode? else LeafIs(t, cs, items[i], mask)
  {
    var es := Readings(items, mask).value;
    ReadingsAt(items, mask, i);
    ParsedIsNamed(items[i].pathname);
    cs := es[i].path;
    AdmittedBits(items[i].perm, mask);
    if es[i].what.Folder? {
      AllFitMeans(t0, [], es);
      FolderIsThere(t0, es, t, mask, i);
    } else {
      OtherIsThere(t0, es, t, mask, i);
    }
  }

  lemma {:induction false} OriginSkips(es: seq<Entry>, i: nat, p: Path)
    requires i <= |es| && forall j :: i <= j < |es| && es[j].what.HardLink? ==> es[j].path != p
    ensures Origin(es, p) == Origin(es[..i], p)
    decreases |es|
  {
    if i < |es| {
      var last := |es| - 1;
      assert es[..last][..i] == es[..i];
      OriginSkips(es[..last], i, p);
    } else {
      assert es[..i] == es;
    }
  }

  /** The target of a hard link was there before it. */
  lemma {:induction false} TargetIsEarlier(t0: Tree, es: seq<Entry>, i: nat, j: nat)
    requires t0.WellFormed() && AllFitAt(t0, [], es) && i <= j < |es|
    requires es[i].what.HardLink? && es[j].what.HardLink?
    ensures es[j].path != es[i].what.target
  {
    assert Fits(t0, [] + es[..i], es[i]) && Fits(t0, [] + es[..j], es[j]);
    assert [] + es[..i] == es[..i] && [] + es[..j] == es[..j];
    var target := es[i].what.target;
    if !t0.Exists(target) {
      var e :| e in es[..i] && e.path == target;
      assert e in es[..j] && e.path <= e.path;
    }
  }

  lemma {:induction false} OriginOfLink(t0: Tree, es: seq<Entry>, i: nat)
    requires t0.WellFormed() && AllFitAt(t0, [], es) && i < |es| && es[i].what.HardLink?
    ensures Origin(es, es[i].path) == Origin(es, es[i].what.target)
  {
    forall j | i < j < |es| && es[j].what.HardLink?
      ensures es[j].path != es[i].path
    {
      LaterDiffer(t0, es, i, j);
    }
    forall j | i <= j < |es| && es[j].what.HardLink?
      ensures es[j].path != es[i].what.target
    {
      TargetIsEarlier(t0, es, i, j);
    }
    OriginSkips(es, i + 1, es[i].path);
    OriginSkips(es, i, es[i].what.target);
    assert es[..i + 1][..i] == es[..i];
  }

  /** A hard link and the file that its target text names are one inode. */
  lemma {:induction false} LinksAreShared(t0: Tree, items: seq<Item>, t: Tree, mask: Mode, i: nat)
    returns (cs: Path, target: Path)
    requires t0.WellFormed() && Readings(items, mask).Some? && AllFit(t0, [], Readings(items, mask).value)
    requires Extracted(t0, Readings(items, mask).value, t, mask) && i < |items|
    requires items[i].Item? && items[i].hardlink.Some?
    ensures IsNamed(items[i].pathname, cs) && IsNamed(items[i].hardlink, target)
    ensures t.Exists(cs) && t.Exists(target) && t.names[cs] == t.names[target] && t.At(cs).RegularNode?
  {
    var es := Readings(items, mask).value;
    ReadingsAt(items, mask, i);
    AllFitMeans(t0, [], es);
    ParsedIsNamed(items[i].pathname);
    ParsedIsNamed(items[i].hardlink);
    cs, target := es[i].path, es[i].what.target;
    assert es[i] in es;
    OriginOfLink(t0, es, i);
    TargetIsClaimed(t0, es, i);
  }

  lemma {:induction false} TargetIsClaimed(t0: Tree, es: seq<Entry>, i: nat)
    requires AllFitAt(t0, [], es) && i < |es| && es[i].what.HardLink?
    ensures Claimed(t0, es, [], es[i].what.target)
  {
    assert Fits(t0, [] + es[..i], es[i]);
    assert [] + es[..i] == es[..i];
    var target := es[i].what.target;
    if !t0.Exists(target) {
      var e :| e in es[..i] && e.path == target;
      assert e in es && target <= e.path;
    }
  }

  /** No item is named like this. */
  ghost predicate Unnamed(items: seq<Item>, p: Path) {
    forall j :: 0 <= j < |items| ==> !IsNamedHere(items[j], p)
  }

  ghost predicate IsNamedHere(item: Item, p: Path) {
    item.Item? && IsNamed(item.pathname, p)
  }

  lemma {:induction false} ParentIsThere(t0: Tree, es: seq<Entry>, t: Tree, mask: Mode, i: nat, p: Path)
    requires Extracted(t0, es, t, mask) && i < |es| && p <= es[i].path && p !in t0.names
    requires forall e :: e in es ==> e.path != p
    ensures t.Exists(p) && t.At(p) == DirectoryNode(Admitted(0x1FF, mask), Stamp(0, 0))
  {
    assert es[i] in es;
    assert Made(t0, es, [], p);
    assert FolderIsSealed(es, t, p, mask);
  }

  lemma {:induction false} NamedAlike(items: seq<Item>, mask: Mode, i: nat, cs: Path)
    requires Readings(items, mask).Some? && i < |items| && IsNamedHere(items[i], cs)
    ensures i < |Readings(items, mask).value| && Readings(items, mask).value[i].path == cs
  {
    ReadingsAt(items, mask, i);
    NamedIsParsed(items[i].pathname, cs);
  }

  /** A parent that no item names has every permission the mask leaves, and the time zero. */
  lemma {:induction false} ParentsArePlain(
      t0: Tree, items: seq<Item>, t: Tree, mask: Mode, i: nat, cs: Path, p: Path)
    requires Readings(items, mask).Some? && Extracted(t0, Readings(items, mask).value, t, mask)
    requires i < |items| && IsNamedHere(items[i], cs) && p < cs && p !in t0.names && Unnamed(items, p)
    ensures t.Exists(p) && t.At(p).DirectoryNode? && t.At(p).mtime == Stamp(0, 0) && ModeIs(t.At(p).mode, 0x1FF, mask)
  {
    NamedAlike(items, mask, i, cs);
    NoEntryAt(items, mask, p);
    ParentIsThere(t0, Readings(items, mask).value, t, mask, i, p);
    AdmittedBits(0x1FF, mask);
  }

  lemma {:induction false} NoEntryAt(items: seq<Item>, mask: Mode, p: Path)
    requires Readings(items, mask).Some? && Unnamed(items, p)
    ensures forall e :: e in Readings(items, mask).value ==> e.path != p
  {
    var es := Readings(items, mask).value;
    forall j | 0 <= j < |es|
      ensures es[j].path != p
    {
      if items != [] {
        ReadingsAt(items, mask, 0);
        EntryIsNamed(items, mask, j);
        assert !IsNamedHere(items[j], p);
      }
    }
  }

  lemma {:induction false} EntryIsNamed(items: seq<Item>, mask: Mode, j: nat)
    requires Readings(items, mask).Some? && j < |items|
    ensures |Readings(items, mask).value| == |items| && IsNamedHere(items[j], Readings(items, mask).value[j].path)
  {
    ReadingsAt(items, mask, j);
    ParsedIsNamed(items[j].pathname);
  }
}
