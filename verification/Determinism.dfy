/**
 * Equal output trees give equal payloads (src/executor.cpp:408-420, 435-468, 523-675): the
 * manifest does not depend on inode numbers, modification times or enumeration order.
 */
module Determinism {
  import opened Outcomes
  import opened TextOrder
  import opened OutputTree
  import opened Inspection

  /** A renumbering of devices and inodes. */
  type Renaming = Key -> Key

  ghost predicate Injective(ren: Renaming) {
    forall j, k :: ren(j) == ren(k) ==> j == k
  }

  predicate SameMeta(a: Attributes, b: Attributes) {
    a.mode == b.mode && a.user == b.user && a.group == b.group
  }

  /** The same leaf, or two directories; times and link counts may differ. */
  predicate SameLeaf(ren: Renaming, m: Node, n: Node) {
    && SameMeta(m.attributes, n.attributes)
    && match m
       case Folder(_, _) => n.Folder?
       case File(a, bytes) => n.File? && n.bytes == bytes && n.attributes.key == ren(a.key)
       case Symlink(_, target) => n.Symlink? && n.target == target
       case Fifo(_) => n.Fifo?
       case CharacterDevice(_, major, minor) => n.CharacterDevice? && n.major == major && n.minor == minor
       case BlockDevice(_, major, minor) => n.BlockDevice? && n.major == major && n.minor == minor
       case Unsupported(_) => n.Unsupported?
  }

  /** The same names lead to the same nodes, in whatever order the directories list them. */
  predicate SameTree(ren: Renaming, m: Node, n: Node)
    decreases m
  {
    && SameLeaf(ren, m, n)
    && (m.Folder? ==> SameChildren(ren, m.children, n.children) && NamesWithin(n.children, m.children))
  }

  predicate SameChildren(ren: Renaming, cs: seq<Child>, ds: seq<Child>)
    decreases cs
  {
    cs == [] ||
    (&& Find(ds, cs[0].name).Some?
     && SameTree(ren, cs[0].node, Find(ds, cs[0].name).value)
     && SameChildren(ren, cs[1..], ds))
  }

  predicate NamesWithin(cs: seq<Child>, ds: seq<Child>) {
    forall i :: 0 <= i < |cs| ==> Find(ds, cs[i].name).Some?
  }

  /** The same tree, listed in the same order. */
  predicate Aligned(ren: Renaming, m: Node, n: Node)
    decreases m
  {
    SameLeaf(ren, m, n) && (m.Folder? ==> AlignedAll(ren, m.children, n.children))
  }

  predicate AlignedAll(ren: Renaming, cs: seq<Child>, ds: seq<Child>)
    decreases cs
  {
    if cs == [] then ds == []
    else
      && ds != []
      && cs[0].name == ds[0].name
      && Aligned(ren, cs[0].node, ds[0].node)
      && AlignedAll(ren, cs[1..], ds[1..])
  }

  lemma {:induction false} AlignedAllIf(ren: Renaming, cs: seq<Child>, ds: seq<Child>)
    requires |cs| == |ds|
    requires forall i :: 0 <= i < |cs| ==> cs[i].name == ds[i].name && Aligned(ren, cs[i].node, ds[i].node)
    ensures AlignedAll(ren, cs, ds)
    decreases |cs|
  {
    if cs != [] {
      AlignedAllIf(ren, cs[1..], ds[1..]);
    }
  }

  lemma {:induction false} SameChildAt(ren: Renaming, cs: seq<Child>, ds: seq<Child>, i: nat)
    requires SameChildren(ren, cs, ds) && i < |cs|
    ensures Find(ds, cs[i].name).Some? && SameTree(ren, cs[i].node, Find(ds, cs[i].name).value)
  {
    if i > 0 {
      SameChildAt(ren, cs[1..], ds, i - 1);
    }
  }

  lemma {:induction false} SomeName(cs: seq<Child>, ds: seq<Child>)
    requires ds != [] && NamesWithin(ds, cs)
    ensures cs != []
  {
    assert Find(cs, ds[0].name).Some?;
  }

  /** Two sorted listings of the same names have them at the same places. */
  lemma {:induction false} SortedNamesAgree(cs: seq<Child>, ds: seq<Child>)
    requires Increasing(cs) && Increasing(ds) && NamesWithin(cs, ds) && NamesWithin(ds, cs)
    ensures |cs| == |ds| && forall i :: 0 <= i < |cs| ==> cs[i].name == ds[i].name
    decreases |cs|
  {
    if ds != [] {
      SomeName(cs, ds);
    }
    if cs != [] {
      SomeName(ds, cs);
      FindIsIn(ds, cs[0].name);
      var j :| 0 <= j < |ds| && ds[j].name == cs[0].name;
      FindIsIn(cs, ds[0].name);
      var i :| 0 <= i < |cs| && cs[i].name == ds[0].name;
      LessIsStrict(ds[0].name, cs[0].name, ds[0].name);
      assert j == 0;
      TailNames(cs, ds);
      TailNames(ds, cs);
      SortedNamesAgree(cs[1..], ds[1..]);
      assert forall k :: 0 < k < |cs| ==> cs[k] == cs[1..][k - 1] && ds[k] == ds[1..][k - 1];
    }
  }

  lemma {:induction false} TailNames(cs: seq<Child>, ds: seq<Child>)
    requires cs != [] && ds != [] && cs[0].name == ds[0].name && Increasing(cs) && NamesWithin(cs, ds)
    ensures NamesWithin(cs[1..], ds[1..])
  {
    forall i | 0 <= i < |cs[1..]|
      ensures Find(ds[1..], cs[1..][i].name).Some?
    {
      assert cs[1..][i] == cs[i + 1];
      LessIsStrict(cs[0].name, cs[i + 1].name, []);
      assert Find(ds, cs[i + 1].name).Some?;
    }
  }

  /** Where a name is found after tidying and sorting. */
  lemma {:induction false} SortedFinds(cs: seq<Child>, name: string)
    requires DistinctNames(cs) && AllWellNamed(cs)
    ensures Find(Sort(TidiedAll(cs)), name) == match Find(cs, name) case None => None case Some(n) => Some(Tidied(n))
  {
    SortSorts(TidiedAll(cs));
    FindSame(TidiedAll(cs), Sort(TidiedAll(cs)), name);
    FindTidied(cs, name);
  }

  lemma {:induction false} SameNamesSorted(cs: seq<Child>, ds: seq<Child>)
    requires DistinctNames(cs) && AllWellNamed(cs) && DistinctNames(ds) && AllWellNamed(ds)
    requires NamesWithin(cs, ds)
    ensures NamesWithin(Sort(TidiedAll(cs)), Sort(TidiedAll(ds)))
  {
    var sorted := Sort(TidiedAll(cs));
    SortSorts(TidiedAll(cs));
    forall i | 0 <= i < |sorted|
      ensures Find(Sort(TidiedAll(ds)), sorted[i].name).Some?
    {
      assert sorted[i] in TidiedAll(cs);
      var j :| 0 <= j < |cs| && TidiedAll(cs)[j] == sorted[i];
      SortedFinds(ds, cs[j].name);
    }
  }

  /** Sorting every listing brings equal trees into step. */
  lemma {:induction false} SameTreesAlign(ren: Renaming, m: Node, n: Node)
    requires WellNamed(m) && WellNamed(n) && SameTree(ren, m, n)
    ensures Aligned(ren, Tidied(m), Tidied(n))
    decreases m
  {
    if m.Folder? {
      var cs, ds := m.children, n.children;
      var sorted, other := Sort(TidiedAll(cs)), Sort(TidiedAll(ds));
      SortSorts(TidiedAll(cs));
      SortSorts(TidiedAll(ds));
      SameIsWithin(ren, cs, ds);
      SameNamesSorted(cs, ds);
      SameNamesSorted(ds, cs);
      SortedNamesAgree(sorted, other);
      forall i | 0 <= i < |sorted|
        ensures Aligned(ren, sorted[i].node, other[i].node)
      {
        var child := SortedChildFound(cs, i);
        FindIsIn(cs, sorted[i].name);
        var j :| 0 <= j < |cs| && cs[j] == Child(sorted[i].name, child);
        SameChildAt(ren, cs, ds, j);
        SortedFinds(ds, sorted[i].name);
        FindAt(other, i) by {
          IncreasingIsDistinct(other);
        }
        ChildrenWellNamed(cs, j);
        FindTidied(ds, sorted[i].name);
        SameTreesAlign(ren, cs[j].node, Find(ds, cs[j].name).value);
      }
      AlignedAllIf(ren, sorted, other);
    }
  }

  lemma {:induction false} SameIsWithin(ren: Renaming, cs: seq<Child>, ds: seq<Child>)
    requires SameChildren(ren, cs, ds)
    ensures NamesWithin(cs, ds)
  {
    forall i | 0 <= i < |cs|
      ensures Find(ds, cs[i].name).Some?
    {
      SameChildAt(ren, cs, ds, i);
    }
  }

  lemma {:induction false} SortedChildFound(cs: seq<Child>, i: nat) returns (n: Node)
    requires DistinctNames(cs) && AllWellNamed(cs) && i < |Sort(TidiedAll(cs))|
    ensures Find(cs, Sort(TidiedAll(cs))[i].name) == Some(n) && Sort(TidiedAll(cs))[i].node == Tidied(n)
  {
    var sorted := Sort(TidiedAll(cs));
    SortSorts(TidiedAll(cs));
    IncreasingIsDistinct(sorted);
    FindAt(sorted, i);
    SortedFinds(cs, sorted[i].name);
    n := Find(cs, sorted[i].name).value;
  }

  lemma {:induction false} ChildrenWellNamed(cs: seq<Child>, j: nat)
    requires AllWellNamed(cs) && j < |cs|
    ensures WellNamed(cs[j].node)
  {
    if j > 0 {
      ChildrenWellNamed(cs[1..], j - 1);
    }
  }

  // In step, node by node -------------------------------------------------------------------------------

  predicate ItemsAgree(ren: Renaming, a: seq<Item>, b: seq<Item>) {
    && |a| == |b|
    && forall i :: 0 <= i < |a| ==> a[i].path == b[i].path && SameLeaf(ren, a[i].node, b[i].node)
  }

  lemma {:induction false} AlignedItemsAgree(ren: Renaming, prefix: Path, cs: seq<Child>, ds: seq<Child>)
    requires AlignedAll(ren, cs, ds)
    ensures ItemsAgree(ren, Items(prefix, cs), Items(prefix, ds))
    decreases cs
  {
    if cs != [] {
      var path := prefix + [cs[0].name];
      AlignedItemsAgree(ren, prefix, cs[1..], ds[1..]);
      if cs[0].node.Folder? {
        AlignedItemsAgree(ren, path, cs[0].node.children, ds[0].node.children);
      }
      assert ItemsAgree(ren, Beneath(path, cs[0].node), Beneath(path, ds[0].node));
    }
  }

  /** The first file met with this inode, however many links it is said to have. */
  function FirstSame(seen: seq<Item>, key: Key): Option<Path> {
    if seen == [] then
      None
    else
      var last := |seen| - 1;
      match FirstSame(seen[..last], key)
      case Some(p) => Some(p)
      case None =>
        if seen[last].node.File? && seen[last].node.attributes.key == key then Some(seen[last].path) else None
  }

  lemma {:induction false} FirstSameAgrees(ren: Renaming, a: seq<Item>, b: seq<Item>, key: Key)
    requires Injective(ren) && ItemsAgree(ren, a, b)
    ensures FirstSame(a, key) == FirstSame(b, ren(key))
  {
    if a != [] {
      var last := |a| - 1;
      FirstSameAgrees(ren, a[..last], b[..last], key);
    }
  }

  /** Links that are counted are found through the map exactly when they are there. */
  lemma {:induction false} CountedLinksAreFound(items: seq<Item>, i: nat, n: nat)
    requires LinksCounted(items) && n <= i < |items| && items[i].node.File?
    ensures var a := items[i].node.attributes;
      (if a.links > 1 then FirstShare(items[..n], a.key) else None) == FirstSame(items[..n], a.key)
  {
    if n > 0 {
      CountedLinksAreFound(items, i, n - 1);
      assert items[..n][..n - 1] == items[..n - 1];
      assert SameInode(items[n - 1], items[i]) ==> items[i].node.attributes.links > 1;
    }
  }

  lemma {:induction false} RenderedAgree(w: Setting, ren: Renaming, a: seq<Item>, b: seq<Item>, i: nat)
    requires w.epoch.Some? && Injective(ren) && ItemsAgree(ren, a, b) && LinksCounted(a) && LinksCounted(b)
    requires i < |a| && Acceptable(w, a[i]) && Acceptable(w, b[i])
    ensures Rendered(w, a[..i], a[i]) == Rendered(w, b[..i], b[i])
  {
    if a[i].node.File? {
      CountedLinksAreFound(a, i, i);
      CountedLinksAreFound(b, i, i);
      FirstSameAgrees(ren, a[..i], b[..i], a[i].node.attributes.key);
    }
  }

  /** The same entries, and records that differ in their stamps at most. */
  lemma {:induction false} ScansAgree(w: Setting, ren: Renaming, a: seq<Item>, b: seq<Item>)
    requires w.epoch.Some? && Injective(ren) && ItemsAgree(ren, a, b) && LinksCounted(a) && LinksCounted(b)
    ensures AllAcceptable(w, a) <==> AllAcceptable(w, b)
    ensures AllAcceptable(w, a) ==> RenderedAll(w, a) == RenderedAll(w, b)
  {
    forall i | 0 <= i < |a|
      ensures Acceptable(w, a[i]) <==> Acceptable(w, b[i])
    {
    }
    if AllAcceptable(w, a) {
      forall i | 0 <= i < |a|
        ensures RenderedAll(w, a)[i] == RenderedAll(w, b)[i]
      {
        RenderedAt(w, a, i);
        RenderedAt(w, b, i);
        RenderedAgree(w, ren, a, b, i);
      }
    }
  }

  /** Equal trees hold the same bytes at every path. */
  lemma {:induction false} SameTreesHold(ren: Renaming, m: Node, n: Node, path: Path)
    requires SameTree(ren, m, n) && NodeAt(m, path).Some?
    ensures NodeAt(n, path).Some? && SameTree(ren, NodeAt(m, path).value, NodeAt(n, path).value)
    decreases |path|
  {
    if path != [] {
      FindIsIn(m.children, path[0]);
      var c := Child(path[0], Find(m.children, path[0]).value);
      var j :| 0 <= j < |m.children| && m.children[j] == c;
      SameChildAt(ren, m.children, n.children, j);
      SameTreesHold(ren, c.node, Find(n.children, path[0]).value, path[1..]);
    }
  }
}
