/**
 * Directory sealing (src/source_archive_libarchive.cpp:366-399, 482-485) and what `unpack`
 * amounts to as a whole.
 *
 * Sealing walks from the root to each recorded directory and gives it its final mode.  It can
 * always do so because every directory is visited before the directories above it.
 */
module Sealing {
  import opened Outcomes
  import opened TextOrder
  import opened PathText
  import opened SourceTree
  import opened Extraction
  import opened ExtractionSpec
  import opened ExtractionTheorems

  /** The loop has reached `ordered`: pending directories are as extraction left them. */
  ghost predicate SealingAt(t0: Tree, es: seq<Entry>, s: Stage, t: Tree, ordered: seq<(string, Metadata)>) {
    && t.names == s.tree.names && t.privileged == s.tree.privileged
    && t.next == s.tree.next && t.inodes.Keys == s.tree.inodes.Keys
    && (forall p :: s.tree.Exists(p) && (Made(t0, es, [], p) ==> Pending(ordered, Join(p))) ==>
          t.Exists(p) && t.At(p) == s.tree.At(p))
    && (forall i :: 0 <= i < |ordered| ==>
          ordered[i].0 in s.directories && s.directories[ordered[i].0] == ordered[i].1)
    && (forall p, q :: Made(t0, es, [], p) && Made(t0, es, [], q) && q <= p && Pending(ordered, Join(p)) ==>
          Pending(ordered, Join(q)))
  }

  /** Deeper directories come first, so nothing pending lies below the directory being sealed. */
  lemma {:induction false} NothingBelowHead(ordered: seq<(string, Metadata)>, p: Path, q: Path)
    requires Sorted(ordered) && ordered != [] && ordered[0].0 == Join(p)
    requires CanonicalPath(p) && CanonicalPath(q) && p <= q && p != q
    ensures !Pending(ordered, Join(q))
  {
    SlashCountIsDepth(p);
    SlashCountIsDepth(q);
    JoinInjective(p, q);
    forall i | 0 < i < |ordered| ensures ordered[i].0 != Join(q) {
      assert SealsBefore(ordered[0].0, ordered[i].0);
    }
  }

  lemma {:induction false} HeadNotRepeated(ordered: seq<(string, Metadata)>)
    requires Sorted(ordered) && ordered != []
    ensures !Pending(ordered[1..], ordered[0].0)
    ensures forall text :: Pending(ordered, text) <==> text == ordered[0].0 || Pending(ordered[1..], text)
  {
    if i :| 0 <= i < |ordered[1..]| && ordered[1..][i].0 == ordered[0].0 {
      assert SealsBefore(ordered[0].0, ordered[i + 1].0);
      LessIsStrict(ordered[0].0, [], []);
    }
    forall text | Pending(ordered, text)
      ensures text == ordered[0].0 || Pending(ordered[1..], text)
    {
      var i :| 0 <= i < |ordered| && ordered[i].0 == text;
      if i > 0 {
        assert ordered[1..][i - 1].0 == text;
      }
    }
    forall text | Pending(ordered[1..], text)
      ensures Pending(ordered, text)
    {
      var i :| 0 <= i < |ordered[1..]| && ordered[1..][i].0 == text;
      assert ordered[i + 1].0 == text;
    }
  }

  lemma {:induction false} OpensPathMeans(t: Tree, p: Path, k: nat)
    requires k <= |p|
    requires forall i :: k <= i < |p| ==> t.CanSearch(p[..i])
    requires forall i :: k < i <= |p| ==> t.CanRead(p[..i])
    ensures OpensPath(t, p, k)
    decreases |p| - k
  {
    if k < |p| {
      assert p[..k] + [p[k]] == p[..k + 1];
      OpensPathMeans(t, p, k + 1);
    }
  }

  /** A pending directory and everything above it still opens. */
  lemma {:induction false} PendingOpens(t0: Tree, es: seq<Entry>, s: Stage, t: Tree, ordered: seq<(string, Metadata)>,
                                        p: Path, k: nat, mask: Mode)
    requires Realizes(t0, es, [], s, mask) && SealingAt(t0, es, s, t, ordered)
    requires Made(t0, es, [], p) && Pending(ordered, Join(p)) && k <= |p|
    ensures k < |p| ==> t.CanSearch(p[..k])
    ensures k > 0 ==> t.CanRead(p[..k])
  {
    var q := p[..k];
    assert q <= p;
    assert p in s.tree.names;
    AncestorsExist(s.tree, p, k);
    if Made(t0, es, [], q) {
      PrivateGrants(s.tree, q, OWNER_SEARCH);
      PrivateGrants(s.tree, q, OWNER_READ);
      assert t.At(q) == s.tree.At(q);
    } else {
      assert k < |p|;
      FolderOrOld(t0, es, s, q, mask);
      PreservedNode(t0, s.tree, q);
      assert t.At(q) == s.tree.At(q);
    }
  }

  /** A directory of the tree was there before or was made by the archive. */
  lemma {:induction false} FolderOrOld(t0: Tree, es: seq<Entry>, s: Stage, q: Path, mask: Mode)
    requires Realizes(t0, es, [], s, mask) && s.tree.IsDirectory(q)
    ensures q in t0.names || Made(t0, es, [], q)
  {
    if NonFolderAt(es, q) {
      assert false;
    }
  }

  /** What sealing needs to know of the directories the archive made. */
  ghost predicate FoldersKnown(t0: Tree, es: seq<Entry>, s: Stage, mask: Mode) {
    s.tree.WellFormed() && FoldersAre(t0, es, [], s, mask)
  }

  /** The next directory to be sealed opens, and sealing it keeps the loop invariant. */
  lemma {:induction false} SealOneStep(t0: Tree, es: seq<Entry>, s: Stage, t: Tree, ordered: seq<(string, Metadata)>,
                                       p: Path, mask: Mode)
    requires Realizes(t0, es, [], s, mask) && SealingAt(t0, es, s, t, ordered)
    requires Sorted(ordered) && ordered != [] && ordered[0].0 == Join(p) && Made(t0, es, [], p)
    ensures SealedOne(t, ordered[0].0, ordered[0].1)
         == Some(Rewrite(t, p, DirectoryNode(ordered[0].1.mode, ordered[0].1.mtime)))
  {
    assert CanonicalPath(p);
    assert Pending(ordered, Join(p));
    ReparseYieldsComponents(p);
    forall i | 0 <= i <= |p| ensures (i < |p| ==> t.CanSearch(p[..i])) && (i > 0 ==> t.CanRead(p[..i])) {
      PendingOpens(t0, es, s, t, ordered, p, i, mask);
    }
    OpensPathMeans(t, p, 0);
  }

  lemma {:induction false} SealOneKeeps(t0: Tree, es: seq<Entry>, s: Stage, t: Tree, ordered: seq<(string, Metadata)>,
                                        p: Path, mask: Mode)
    requires FoldersKnown(t0, es, s, mask) && SealingAt(t0, es, s, t, ordered)
    requires Sorted(ordered) && ordered != [] && ordered[0].0 == Join(p) && Made(t0, es, [], p)
    ensures SealingAt(t0, es, s, Rewrite(t, p, DirectoryNode(ordered[0].1.mode, ordered[0].1.mtime)), ordered[1..])
  {
    var rest, after := ordered[1..], Rewrite(t, p, DirectoryNode(ordered[0].1.mode, ordered[0].1.mtime));
    HeadNotRepeated(ordered);
    forall q | s.tree.Exists(q) && (Made(t0, es, [], q) ==> Pending(rest, Join(q)))
      ensures after.Exists(q) && after.At(q) == s.tree.At(q)
    {
      assert q != p;
      SealTouchesOne(t0, es, s, p, q, mask);
      assert t.Exists(q) && t.At(q) == s.tree.At(q);
    }
    PendingStaysClosed(t0, es, ordered, p);
  }

  lemma {:induction false} PendingStaysClosed(t0: Tree, es: seq<Entry>, ordered: seq<(string, Metadata)>, p: Path)
    requires Sorted(ordered) && ordered != [] && ordered[0].0 == Join(p) && Made(t0, es, [], p)
    requires forall x :: Made(t0, es, [], x) ==> CanonicalPath(x)
    requires forall x, y :: Made(t0, es, [], x) && Made(t0, es, [], y) && y <= x && Pending(ordered, Join(x)) ==>
      Pending(ordered, Join(y))
    ensures forall x, y :: Made(t0, es, [], x) && Made(t0, es, [], y) && y <= x && Pending(ordered[1..], Join(x)) ==>
      Pending(ordered[1..], Join(y))
  {
    var rest := ordered[1..];
    HeadNotRepeated(ordered);
    forall x, y | Made(t0, es, [], x) && Made(t0, es, [], y) && y <= x && Pending(rest, Join(x))
      ensures Pending(rest, Join(y))
    {
      JoinInjective(y, p);
      if y == p {
        if x != p {
          NothingBelowHead(ordered, p, x);
        }
      }
    }
  }

  /** A made directory has an inode of its own. */
  lemma {:induction false} SealTouchesOne(t0: Tree, es: seq<Entry>, s: Stage, p: Path, q: Path, mask: Mode)
    requires FoldersKnown(t0, es, s, mask) && Made(t0, es, [], p) && q in s.tree.names && q != p
    ensures s.tree.names[q] != s.tree.names[p]
  {
    assert s.tree.At(p).DirectoryNode?;
  }

  /** What a path holds once the pending directories have been sealed. */
  ghost function FinalNode(
      t0: Tree, es: seq<Entry>, s: Stage, t: Tree, ordered: seq<(string, Metadata)>, p: Path): Inode
    requires t.Exists(p)
  {
    if Made(t0, es, [], p) && Pending(ordered, Join(p)) && Join(p) in s.directories
    then DirectoryNode(s.directories[Join(p)].mode, s.directories[Join(p)].mtime) else t.At(p)
  }

  /** What sealing leaves, given what extraction left. */
  ghost predicate SealedFrom(
      t0: Tree, es: seq<Entry>, s: Stage, t: Tree, ordered: seq<(string, Metadata)>, final: Tree)
  {
    && final.names == t.names && final.privileged == t.privileged
    && final.next == t.next && final.inodes.Keys == t.inodes.Keys
    && forall p :: t.Exists(p) ==> final.Exists(p) && final.At(p) == FinalNode(t0, es, s, t, ordered, p)
  }

  /** The whole loop: it never fails, and writes each recorded mode and time exactly. */
  lemma {:induction false} SealRealizes(t0: Tree, es: seq<Entry>, s: Stage, t: Tree, ordered: seq<(string, Metadata)>,
                                        mask: Mode)
    requires Realizes(t0, es, [], s, mask) && SealingAt(t0, es, s, t, ordered) && Sorted(ordered)
    ensures Sealed(t, ordered).1
    ensures SealedFrom(t0, es, s, t, ordered, Sealed(t, ordered).0)
    decreases |ordered|
  {
    if ordered != [] {
      assert ordered[0].0 in s.directories;
      var p :| Made(t0, es, [], p) && Join(p) == ordered[0].0;
      var next := Rewrite(t, p, DirectoryNode(ordered[0].1.mode, ordered[0].1.mtime));
      SealOneStep(t0, es, s, t, ordered, p, mask);
      SealOneKeeps(t0, es, s, t, ordered, p, mask);
      assert Sorted(ordered[1..]);
      SealRealizes(t0, es, s, next, ordered[1..], mask);
      SealedFromStep(t0, es, s, t, ordered, p, Sealed(next, ordered[1..]).0, mask);
    }
  }

  lemma {:induction false} SealedFromStep(t0: Tree, es: seq<Entry>, s: Stage, t: Tree, ordered: seq<(string, Metadata)>,
                                          p: Path, final: Tree, mask: Mode)
    requires FoldersKnown(t0, es, s, mask) && SealingAt(t0, es, s, t, ordered) && Sorted(ordered)
    requires ordered != [] && Made(t0, es, [], p) && Join(p) == ordered[0].0
    requires SealedFrom(t0, es, s, Rewrite(t, p, DirectoryNode(ordered[0].1.mode, ordered[0].1.mtime)),
                        ordered[1..], final)
    ensures SealedFrom(t0, es, s, t, ordered, final)
  {
    HeadNotRepeated(ordered);
    var next := Rewrite(t, p, DirectoryNode(ordered[0].1.mode, ordered[0].1.mtime));
    forall q | t.Exists(q)
      ensures final.Exists(q) && final.At(q) == FinalNode(t0, es, s, t, ordered, q)
    {
      assert next.Exists(q);
      if q != p {
        SealTouchesOne(t0, es, s, p, q, mask);
        if Made(t0, es, [], q) {
          JoinInjective(p, q);
        }
      }
    }
  }

  // ---------------------------------------------------------------------------------------
  // The archive as a whole
  // ---------------------------------------------------------------------------------------

  /** Earlier names keep their inodes, and those keep everything but directory times. */
  ghost predicate KeepsNames(t0: Tree, t: Tree) {
    forall p :: p in t0.names ==>
      p in t.names && t.names[p] == t0.names[p] && t0.Exists(p) && t.Exists(p) && SameNode(t0.At(p), t.At(p))
  }

  /** The tree that the entries `es` of one archive stand for over `t0`. */
  ghost predicate Extracted(t0: Tree, es: seq<Entry>, t: Tree, mask: Mode) {
    && KeepsNames(t0, t)
    && (forall p :: p in t.names <==> Claimed(t0, es, [], p))
    && (forall e :: e in es && !e.what.Folder? ==>
          && t.Exists(e.path)
          && (e.what.Leaf? ==> t.At(e.path) == e.what.node)
          && (e.what.HardLink? ==> t.At(e.path).RegularNode?))
    && (forall p :: Made(t0, es, [], p) ==> FolderIsSealed(es, t, p, mask))
    && (forall p, q :: p in t.names && q in t.names ==>
          (t.names[p] == t.names[q] <==> SameOrigin(t0, Origin(es, p), Origin(es, q))))
  }

  /** A made directory has exactly the mode and time recorded for it. */
  ghost predicate FolderIsSealed(es: seq<Entry>, t: Tree, p: Path, mask: Mode) {
    exists metadata ::
      && Records(es, p, metadata, mask)
      && t.Exists(p) && t.At(p) == DirectoryNode(metadata.mode, metadata.mtime)
  }

  lemma {:induction false} SealingStarts(
      t0: Tree, es: seq<Entry>, s: Stage, ordered: seq<(string, Metadata)>, mask: Mode)
    requires Realizes(t0, es, [], s, mask) && IsSealOrder(ordered, s.directories)
    ensures SealingAt(t0, es, s, s.tree, ordered) && Sorted(ordered)
    ensures forall p :: Made(t0, es, [], p) ==> Pending(ordered, Join(p))
  {
    forall p | Made(t0, es, [], p) ensures Pending(ordered, Join(p)) {
      assert Join(p) in s.directories;
    }
  }

  lemma {:induction false} SealedWellFormed(t0: Tree, es: seq<Entry>, s: Stage, ordered: seq<(string, Metadata)>,
                                            final: Tree, mask: Mode)
    requires FoldersKnown(t0, es, s, mask) && SealedFrom(t0, es, s, s.tree, ordered, final)
    ensures final.WellFormed()
  {
    forall p | s.tree.Exists(p)
      ensures final.Exists(p) && (final.At(p).DirectoryNode? <==> s.tree.At(p).DirectoryNode?)
    {
      assert final.At(p) == FinalNode(t0, es, s, s.tree, ordered, p);
    }
    forall p | p in final.names ensures final.HasParent(p) {
      assert s.tree.HasParent(p);
    }
  }

  lemma {:induction false} SealedKeepsNames(t0: Tree, es: seq<Entry>, s: Stage, ordered: seq<(string, Metadata)>,
                                            final: Tree)
    requires Outline(t0, es, [], s) && SealedFrom(t0, es, s, s.tree, ordered, final)
    ensures KeepsNames(t0, final)
  {
    forall p | p in t0.names
      ensures p in final.names && final.names[p] == t0.names[p] && final.Exists(p) && SameNode(t0.At(p), final.At(p))
    {
      PreservedNode(t0, s.tree, p);
      assert final.At(p) == FinalNode(t0, es, s, s.tree, ordered, p);
    }
  }

  /** Sealing turns the realized tree into the extracted one. */
  lemma {:induction false} SealedIsExtracted(t0: Tree, es: seq<Entry>, s: Stage, ordered: seq<(string, Metadata)>,
                                             final: Tree, mask: Mode)
    requires Realizes(t0, es, [], s, mask) && SealedFrom(t0, es, s, s.tree, ordered, final)
    requires forall p :: Made(t0, es, [], p) ==> Pending(ordered, Join(p))
    ensures Extracted(t0, es, final, mask)
  {
    SealedKeepsNames(t0, es, s, ordered, final);
    forall e | e in es && !e.what.Folder?
      ensures final.Exists(e.path) && final.At(e.path) == s.tree.At(e.path)
    {
      assert final.At(e.path) == FinalNode(t0, es, s, s.tree, ordered, e.path);
      assert NonFolderAt(es, e.path);
    }
    forall p | Made(t0, es, [], p) ensures FolderIsSealed(es, final, p, mask) {
      assert final.At(p) == FinalNode(t0, es, s, s.tree, ordered, p);
      assert Records(es, p, s.directories[Join(p)], mask);
    }
  }

  /**
   * What `unpack` does, for every archive and every tree it is unpacked over: the entry loop
   * succeeds exactly when every item reads as an entry that fits the ones before it, sealing
   * then always succeeds, and the tree is the one those entries stand for.
   */
  lemma {:induction false} UnpackMeans(t0: Tree, items: seq<Item>, ordered: seq<(string, Metadata)>, mask: Mode)
    requires t0.WellFormed()
    ensures var folded := StepAll(Stage(t0, map[]), items, mask);
      var readings := Readings(items, mask);
      && (folded.ok <==> readings.Some? && AllFit(t0, [], readings.value))
      && (folded.ok && IsSealOrder(ordered, folded.stage.directories) ==>
            && Sealed(folded.stage.tree, ordered).1
            && Sealed(folded.stage.tree, ordered).0.WellFormed()
            && Extracted(t0, readings.value, Sealed(folded.stage.tree, ordered).0, mask))
  {
    NothingRealized(t0, mask);
    FoldRealizes(t0, [], Stage(t0, map[]), items, mask);
    var folded, readings := StepAll(Stage(t0, map[]), items, mask), Readings(items, mask);
    if folded.ok && IsSealOrder(ordered, folded.stage.directories) {
      var es, s := readings.value, folded.stage;
      assert [] + es == es;
      SealingStarts(t0, es, s, ordered, mask);
      SealRealizes(t0, es, s, s.tree, ordered, mask);
      var final := Sealed(s.tree, ordered).0;
      SealedWellFormed(t0, es, s, ordered, final, mask);
      SealedIsExtracted(t0, es, s, ordered, final, mask);
    }
  }

  /** Preserving inodes preserves names and what they lead to. */
  lemma {:induction false} PreservesKeepsNames(t0: Tree, t: Tree)
    requires t0.WellFormed() && Preserves(t0, t)
    ensures KeepsNames(t0, t)
  {
    forall p | p in t0.names
      ensures p in t.names && t.names[p] == t0.names[p] && t.Exists(p) && SameNode(t0.At(p), t.At(p))
    {
      PreservedNode(t0, t, p);
    }
  }
}
