/**
 * The symbolic-link admission check (src/source_archive_libarchive.cpp:241-270).
 *
 * The check never touches the tree.  It is shown to be exact as a statement about the
 * target's text, and to agree with a physical walk wherever no walked component is itself
 * a symbolic link.
 */
module SymlinkCheck {
  import opened Outcomes
  import opened PathText

  predicate Ordinary(piece: string) {
    piece != "" && piece != "." && piece != ".."
  }

  /** The directory reached lexically from `stack`, or None if the walk climbs above the root. */
  function Resolve(stack: seq<string>, pieces: seq<string>): Option<seq<string>>
    decreases |pieces|
  {
    if pieces == [] then Some(stack)
    else if pieces[0] == ".." then
      if stack == [] then None else Resolve(stack[..|stack| - 1], pieces[1..])
    else if Ordinary(pieces[0]) then Resolve(stack + [pieces[0]], pieces[1..])
    else Resolve(stack, pieces[1..])
  }

  predicate StaysBeneath(components: seq<string>, target: string)
    requires components != []
  {
    && target != ""
    && target[0] != '/'
    && Resolve(components[..|components| - 1], Split(target)).Some?
  }

  /** `symlink_target_stays_beneath`: replay the target on a stack of components. */
  method SymlinkTargetStaysBeneath(entry: SafePath, target: string) returns (accepted: bool)
    requires entry.components != []
    ensures accepted == StaysBeneath(entry.components, target)
  {
    if target == "" || target[0] == '/' {
      return false;
    }
    var stack := entry.components[..|entry.components| - 1];
    var offset := 0;
    while offset <= |target|
      invariant offset <= |target|
      invariant Resolve(stack, Pieces(target, offset))
             == Resolve(entry.components[..|entry.components| - 1], Split(target))
      decreases |target| - offset
    {
      var slash := FindSlash(target, offset);
      var component := target[offset..slash];
      FirstPiece(target, offset);
      if component == "" || component == "." {
      } else if component == ".." {
        if stack == [] {
          return false;
        }
        stack := stack[..|stack| - 1];
      } else {
        stack := stack + [component];
      }
      if slash == |target| {
        break;
      }
      offset := slash + 1;
    }
    accepted := true;
  }

  lemma FirstPiece(text: string, offset: nat)
    requires offset <= |text|
    ensures var slash := FindSlash(text, offset);
      && Pieces(text, offset)[0] == text[offset..slash]
      && Pieces(text, offset)[1..] == if slash == |text| then [] else Pieces(text, slash + 1)
  {
  }

  function Ups(pieces: seq<string>): nat {
    if pieces == [] then 0 else (if pieces[0] == ".." then 1 else 0) + Ups(pieces[1..])
  }

  /** The pieces that are neither empty nor dots. */
  function Downs(pieces: seq<string>): nat {
    if pieces == [] then 0
    else (if pieces[0] in {"", ".", ".."} then 0 else 1) + Downs(pieces[1..])
  }

  ghost predicate NeverAbove(depth: nat, pieces: seq<string>) {
    forall k :: 0 <= k <= |pieces| ==> Ups(pieces[..k]) <= depth + Downs(pieces[..k])
  }

  lemma {:induction false} PrefixCounts(pieces: seq<string>, k: nat)
    requires 0 < k <= |pieces|
    ensures Ups(pieces[..k]) == Ups(pieces[1..][..k - 1]) + (if pieces[0] == ".." then 1 else 0)
    ensures Downs(pieces[..k]) == Downs(pieces[1..][..k - 1]) + (if Ordinary(pieces[0]) then 1 else 0)
  {
    assert pieces[..k][1..] == pieces[1..][..k - 1];
  }

  lemma {:induction false} NeverAboveStep(depth: nat, pieces: seq<string>)
    requires pieces != []
    ensures NeverAbove(depth, pieces) <==>
      if pieces[0] == ".." then depth > 0 && NeverAbove(depth - 1, pieces[1..])
      else NeverAbove(depth + (if Ordinary(pieces[0]) then 1 else 0), pieces[1..])
  {
    var rest := pieces[1..];
    forall k: nat | 0 < k <= |pieces| {
      PrefixCounts(pieces, k);
    }
    if NeverAbove(depth, pieces) {
      PrefixCounts(pieces, 1);
      assert rest[..0] == [];
      forall k | 0 <= k <= |rest|
        ensures Ups(rest[..k]) + (if pieces[0] == ".." then 1 else 0)
             <= depth + Downs(rest[..k]) + (if Ordinary(pieces[0]) then 1 else 0)
      {
        assert Ups(pieces[..k + 1]) <= depth + Downs(pieces[..k + 1]);
        PrefixCounts(pieces, k + 1);
      }
    } else {
      var k :| 0 <= k <= |pieces| && !(Ups(pieces[..k]) <= depth + Downs(pieces[..k]));
      assert k > 0;
      PrefixCounts(pieces, k);
    }
  }

  /**
   * The replay succeeds exactly when no component prefix has more `..` than the parent
   * depth plus the ordinary components so far; the resolved depth is the difference.
   */
  lemma {:induction false} ResolveIsCounting(stack: seq<string>, pieces: seq<string>)
    ensures Resolve(stack, pieces).Some? <==> NeverAbove(|stack|, pieces)
    ensures Resolve(stack, pieces).Some? ==>
      |Resolve(stack, pieces).value| == |stack| + Downs(pieces) - Ups(pieces)
    decreases |pieces|
  {
    if pieces != [] {
      NeverAboveStep(|stack|, pieces);
      if pieces[0] == ".." {
        if stack != [] {
          ResolveIsCounting(stack[..|stack| - 1], pieces[1..]);
        }
      } else if Ordinary(pieces[0]) {
        ResolveIsCounting(stack + [pieces[0]], pieces[1..]);
      } else {
        ResolveIsCounting(stack, pieces[1..]);
      }
    }
  }

  /** A dot, or nothing between two slashes, does not move, wherever it stands. */
  lemma {:induction false} DotsStay(stack: seq<string>, a: seq<string>, b: seq<string>)
    ensures Resolve(stack, a + ["."] + b) == Resolve(stack, a + b)
    ensures Resolve(stack, a + [""] + b) == Resolve(stack, a + b)
    decreases |a|
  {
    if a == [] {
      assert [] + ["."] + b == ["."] + b && (["."] + b)[1..] == b && [] + b == b;
      assert [] + [""] + b == [""] + b && ([""] + b)[1..] == b;
    } else {
      assert (a + ["."] + b)[1..] == a[1..] + ["."] + b && (a + [""] + b)[1..] == a[1..] + [""] + b;
      assert (a + b)[1..] == a[1..] + b;
      if a[0] == ".." {
        if stack != [] {
          DotsStay(stack[..|stack| - 1], a[1..], b);
        }
      } else if Ordinary(a[0]) {
        DotsStay(stack + [a[0]], a[1..], b);
      } else {
        DotsStay(stack, a[1..], b);
      }
    }
  }

  /** A component and the ".." after it take each other back. */
  lemma {:induction false} UpTakesBack(stack: seq<string>, a: seq<string>, name: string, b: seq<string>)
    requires name !in {"", ".", ".."}
    ensures Resolve(stack, a + [name, ".."] + b) == Resolve(stack, a + b)
    decreases |a|
  {
    if a == [] {
      var pieces := [name, ".."] + b;
      assert [] + [name, ".."] + b == pieces && [] + b == b;
      assert pieces[1..] == [".."] + b && pieces[1..][1..] == b;
      assert (stack + [name])[..|stack|] == stack;
    } else {
      assert (a + [name, ".."] + b)[1..] == a[1..] + [name, ".."] + b && (a + b)[1..] == a[1..] + b;
      if a[0] == ".." {
        if stack != [] {
          UpTakesBack(stack[..|stack| - 1], a[1..], name, b);
        }
      } else if Ordinary(a[0]) {
        UpTakesBack(stack + [a[0]], a[1..], name, b);
      } else {
        UpTakesBack(stack, a[1..], name, b);
      }
    }
  }

  /** The admission check, as a condition on the counts of components in the text alone. */
  lemma {:induction false} CheckIsExact(components: seq<string>, target: string)
    requires components != []
    ensures StaysBeneath(components, target) <==>
      target != "" && target[0] != '/' && NeverAbove(|components| - 1, Split(target))
  {
    ResolveIsCounting(components[..|components| - 1], Split(target));
  }

  /**
   * Real directories: `child` names them downwards and `parent` is their `..` entry.
   * Directories above the extraction root may be present as well.
   */
  datatype Directories = Directories(child: map<(nat, string), nat>, parent: map<nat, nat>) {
    ghost predicate Consistent() {
      forall d, name :: (d, name) in child ==>
        child[(d, name)] in parent && parent[child[(d, name)]] == d
    }

    function Descend(root: nat, path: seq<string>): Option<nat> {
      if path == [] then Some(root)
      else
        var above := Descend(root, path[..|path| - 1]);
        if above.Some? && (above.value, path[|path| - 1]) in child
        then Some(child[(above.value, path[|path| - 1])])
        else None
    }

    /**
     * What the kernel does with the pieces: ".." is the parent, "." and nothing stay where they
     * are, and anything else has to name a directory.
     */
    function Walk(from: nat, pieces: seq<string>): Option<nat>
      decreases |pieces|
    {
      if pieces == [] then Some(from)
      else if pieces[0] == ".." then
        if from in parent then Walk(parent[from], pieces[1..]) else None
      else if pieces[0] == "." || pieces[0] == "" then
        Walk(from, pieces[1..])
      else
        if (from, pieces[0]) in child then Walk(child[(from, pieces[0])], pieces[1..]) else None
    }
  }

  /**
   * Lexical and physical resolution agree: an accepted target that can be walked through
   * directories ends at the node its lexical resolution names beneath the root.
   */
  lemma {:induction false} LexicalIsPhysical(
      tree: Directories, root: nat, stack: seq<string>, here: nat, pieces: seq<string>)
    requires tree.Consistent()
    requires tree.Descend(root, stack) == Some(here)
    requires Resolve(stack, pieces).Some?
    requires tree.Walk(here, pieces).Some?
    ensures tree.Descend(root, Resolve(stack, pieces).value) == tree.Walk(here, pieces)
    decreases |pieces|
  {
    if pieces != [] {
      if pieces[0] == ".." {
        LexicalIsPhysical(tree, root, stack[..|stack| - 1], tree.parent[here], pieces[1..]);
      } else if Ordinary(pieces[0]) {
        var below := stack + [pieces[0]];
        assert below[..|below| - 1] == stack;
        LexicalIsPhysical(tree, root, below, tree.child[(here, pieces[0])], pieces[1..]);
      } else {
        LexicalIsPhysical(tree, root, stack, here, pieces[1..]);
      }
    }
  }

  /** A refused relative target does ask for the parent of the root at some component. */
  lemma {:induction false} RefusedTargetsClimbOut(stack: seq<string>, pieces: seq<string>)
    requires Resolve(stack, pieces).None?
    ensures exists k :: 0 <= k < |pieces| && pieces[k] == ".." && Resolve(stack, pieces[..k]) == Some([])
    decreases |pieces|
  {
    if pieces[0] == ".." && stack == [] {
      assert pieces[..0] == [];
    } else {
      var next :=
        if pieces[0] == ".." then stack[..|stack| - 1]
        else if Ordinary(pieces[0]) then stack + [pieces[0]] else stack;
      RefusedTargetsClimbOut(next, pieces[1..]);
      var k :| 0 <= k < |pieces[1..]| && pieces[1..][k] == ".." && Resolve(next, pieces[1..][..k]) == Some([]);
      assert pieces[..k + 1][1..] == pieces[1..][..k];
      assert pieces[k + 1] == ".." && Resolve(stack, pieces[..k + 1]) == Some([]);
    }
  }
}
