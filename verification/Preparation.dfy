/**
 * The host effects of `prepare`: what it deletes, creates and writes, whatever fails on the way
 * (src/executor.cpp:243-345, 1477-1491, 1557-1636).  No ancestor is a symbolic link.
 */
module Preparation {
  import opened Outcomes
  import opened PathLayout
  import opened AdmittedSession
  import opened HostState

  const OWNER_ALL: bv12 := 0x1C0

  class HostTree {
    var nodes: Host
    var failed: bool  // some file-system call, or a library, has failed

    constructor (nodes: Host)
      ensures this.nodes == nodes && !failed
    {
      this.nodes := nodes;
      this.failed := false;
    }

    /** Any single call may fail. */
    method Attempt() returns (works: bool)
      modifies this`failed
      ensures failed == (old(failed) || !works)
    {
      works := *;
      failed := failed || !works;
    }

    /** `make_tree_removable`: add the owner's permissions to every directory of the tree. */
    method MakeTreeRemovable(root: Path) returns (r: Result<()>)
      modifies this
      ensures OnlyBeneath(old(nodes), nodes, root) && nodes.Keys == old(nodes).Keys
      ensures OnlyLoosens(old(nodes), nodes, root)
      ensures r.Ok? ==> AllLoosened(old(nodes), nodes, root, {})
      ensures r.Err? ==> r.code == UnsafePathLayout && failed
      ensures old(failed) ==> failed
    {
      ghost var start := nodes;
      var todo := set p | p in nodes && root <= p && nodes[p].Directory?;
      while todo != {}
        invariant OnlyLoosens(start, nodes, root) && AllLoosened(start, nodes, root, todo)
        invariant ToLoosen(start, nodes, root, todo)
        invariant old(failed) ==> failed
        decreases |todo|
      {
        var p :| p in todo;
        ghost var all := todo;
        todo := todo - {p};
        var works := Attempt();
        if !works {
          LoosensBeneath(start, nodes, root);
          return Err(UnsafePathLayout);
        }
        assert todo + {p} == all;
        LoosenedOne(start, nodes, root, todo, p);
        nodes := nodes[p := WithOwner(nodes[p])];
      }
      LoosensBeneath(start, nodes, root);
      r := Ok(());
    }

    /** `remove_all`: every node of the tree, one at a time. */
    method RemoveAll(root: Path) returns (r: Result<()>)
      modifies this
      ensures OnlyBeneath(old(nodes), nodes, root)
      ensures r.Ok? ==> nodes == Without(old(nodes), root)
      ensures r.Err? ==> r.code == UnsafePathLayout && failed
      ensures old(failed) ==> failed
    {
      var todo := set p | p in nodes && root <= p;
      while todo != {}
        invariant OnlyBeneath(old(nodes), nodes, root)
        invariant forall p :: p in nodes && root <= p ==> p in todo
        invariant forall p :: p in todo ==> root <= p
        invariant old(failed) ==> failed
        decreases |todo|
      {
        var p :| p in todo;
        todo := todo - {p};
        var works := Attempt();
        if !works {
          return Err(UnsafePathLayout);
        }
        ghost var before := nodes;
        nodes := nodes - {p};
        BeneathStill(old(nodes), before, nodes, root, p);
      }
      IsWithout(old(nodes), nodes, root);
      r := Ok(());
    }

    /** `create_directories`: the place and whatever is missing above it. */
    method CreateDirectories(place: Path) returns (r: Result<()>)
      requires place != []
      modifies this
      ensures SparesOne(old(nodes), nodes, place)
      ensures r.Ok? ==> nodes == WithDirectories(old(nodes), place) && DirectoriesAbove(nodes, place)
      ensures r.Err? ==> r.code == UnsafePathLayout && (failed || Blocked(old(nodes), place))
      ensures r.Err? && !failed ==> nodes == MadeUpTo(old(nodes), place, Reach(old(nodes), place, 0))
      ensures old(failed) ==> failed
    {
      ghost var start := nodes;
      NoneMade(start, place);
      for k := 0 to |place|
        invariant MadeSoFar(start, nodes, place, k)
        invariant old(failed) ==> failed
      {
        var above := place[..k + 1];
        if above in nodes && !nodes[above].Directory? {
          StopsHere(start, nodes, place, k);
          return Err(UnsafePathLayout);
        }
        ghost var before := nodes;
        if above !in nodes {
          var works := Attempt();
          if !works {
            return Err(UnsafePathLayout);
          }
          nodes := nodes[above := Directory(0x1FF, 0, 0)];
        }
        MadeOneMore(start, before, nodes, place, k);
      }
      AllMade(start, nodes, place);
      r := Ok(());
    }

    /** `reset_directory`: whatever was there is gone, and an empty directory is in its place. */
    method ResetDirectory(root: Path, mode: bv12) returns (r: Result<()>)
      requires root != []
      modifies this
      ensures SparesOne(old(nodes), nodes, root)
      ensures r.Ok? ==> nodes == Reset(old(nodes), root, mode, 0, 0) && DirectoriesAbove(nodes, root)
      ensures r.Ok? ==> Fits(old(nodes), root)
      ensures r.Err? ==> r.code == UnsafePathLayout && (failed || !Fits(old(nodes), root))
      ensures r.Err? && !failed ==> nodes == Stopped(old(nodes), root)
      ensures old(failed) ==> failed
    {
      ghost var start := nodes;
      var removable := MakeTreeRemovable(root);
      BeneathSpares(start, nodes, root);
      if removable.Err? {
        return removable;
      }
      ghost var loosened := nodes;
      var removed := RemoveAll(root);
      BeneathSpares(loosened, nodes, root);
      SparesOneTwice(start, loosened, nodes, root);
      if removed.Err? {
        return removed;
      }
      ghost var empty := nodes;
      var created := CreateDirectories(root);
      SparesOneTwice(start, empty, nodes, root);
      if created.Err? {
        if !failed {
          BlockedDoesNotFit(start, root);
        }
        return created;
      }
      assert root[..|root|] == root;
      ghost var made := nodes;
      var works := Attempt();
      if !works {
        return Err(UnsafePathLayout);
      }
      nodes := nodes[root := nodes[root].(mode := mode)];
      SparesAt(made, nodes, root, root);
      SparesOneTwice(start, made, nodes, root);
      IsReset(start, empty, made, nodes, root, mode);
      MadeFits(start, root);
      r := Ok(());
    }

    /** `prepare_writable_directory`. */
    method PrepareWritableDirectory(root: Path, mode: bv12, user: nat, group: nat) returns (r: Result<()>)
      requires root != []
      modifies this
      ensures SparesOne(old(nodes), nodes, root)
      ensures r.Ok? ==> nodes == Reset(old(nodes), root, mode, user, group) && DirectoriesAbove(nodes, root)
      ensures r.Ok? ==> Fits(old(nodes), root)
      ensures r.Err? ==> failed || (!Fits(old(nodes), root) && nodes == Stopped(old(nodes), root))
      ensures old(failed) ==> failed
    {
      var _ :- ResetDirectory(root, mode);
      var works := Attempt();
      if !works {
        return Err(ResourcePreparationFailed);
      }
      ghost var reset := nodes;
      nodes := nodes[root := Directory(mode, user, group)];
      SparesAt(reset, nodes, root, root);
      SparesOneTwice(old(nodes), reset, nodes, root);
      r := Ok(());
    }

    /** `prepare_writable_child`: it must not exist yet, and its parent must. */
    method PrepareWritableChild(place: Path, mode: bv12, user: nat, group: nat) returns (r: Result<()>)
      requires place != []
      modifies this
      ensures SparesOne(old(nodes), nodes, place)
      ensures r.Ok? ==> place !in old(nodes) && HasParent(old(nodes), place)
      ensures r.Ok? ==> nodes == old(nodes)[place := Directory(mode, user, group)]
      ensures r.Err? ==> r.code == ResourcePreparationFailed
      ensures r.Err? ==> failed || (!HasRoom(old(nodes), place) && nodes == old(nodes))
      ensures old(failed) ==> failed
    {
      var works := Attempt();
      if !works || place in nodes || !HasParent(nodes, place) {
        return Err(ResourcePreparationFailed);
      }
      nodes := nodes[place := Directory(mode, 0, 0)];
      works := Attempt();
      if !works {
        return Err(ResourcePreparationFailed);
      }
      nodes := nodes[place := Directory(mode, user, group)];
      r := Ok(());
    }

    /** The source library writes a tree: there is then what it left, complete or not, and nothing else changes. */
    method FillBeneath(root: Path, left: Host) returns (r: Result<()>)
      modifies this
      ensures SparesOne(old(nodes), nodes, root) && nodes == Filled(old(nodes), root, left)
      ensures r.Err? ==> r.code == SourceStagingFailed && failed
      ensures old(failed) ==> failed
    {
      nodes := Filled(nodes, root, left);
      FilledSpares(old(nodes), root, left);
      var works := Attempt();
      r := if works then Ok(()) else Err(SourceStagingFailed);
    }

    /** An archive is unpacked, completely or not: nodes are added, and none that was there gives way. */
    method UnpackBeneath(root: Path, added: Host) returns (r: Result<()>)
      modifies this
      ensures SparesOne(old(nodes), nodes, root) && nodes == Added(old(nodes), root, added)
      ensures r.Err? ==> r.code == SourceStagingFailed && failed
      ensures old(failed) ==> failed
    {
      nodes := Added(nodes, root, added);
      AddedSpares(old(nodes), root, added);
      var works := Attempt();
      r := if works then Ok(()) else Err(SourceStagingFailed);
    }

    /** Every archive among the sources is unpacked into the workspace. */
    method UnpackArchives(workspace: Path, archives: seq<Host>) returns (r: Result<()>)
      modifies this
      ensures SparesOne(old(nodes), nodes, workspace)
      ensures r.Ok? ==> nodes == AllAdded(old(nodes), workspace, archives)
      ensures r.Err? ==> failed
      ensures old(failed) ==> failed
    {
      ghost var start := nodes;
      for i := 0 to |archives|
        invariant SparesOne(start, nodes, workspace)
        invariant nodes == AllAdded(start, workspace, archives[..i])
        invariant old(failed) ==> failed
      {
        ghost var before := nodes;
        var unpacked := UnpackBeneath(workspace, archives[i]);
        SparesOneTwice(start, before, nodes, workspace);
        if unpacked.Err? {
          return unpacked;
        }
        assert archives[..i + 1][..i] == archives[..i];
      }
      assert archives[..|archives|] == archives;
      r := Ok(());
    }

    /** The session root, its sources, the workspace and the temporary root. */
    method PrepareSessionRoot(plan: Plan) returns (r: Result<()>)
      requires plan.session != [] && plan.output != []
      modifies this
      ensures Spares(old(nodes), nodes, plan.session, plan.output)
      ensures r.Ok? ==> nodes == SessionMade(old(nodes), plan) && Fits(old(nodes), plan.session)
      ensures r.Err? ==> failed || (!Fits(old(nodes), plan.session) && nodes == Stopped(old(nodes), plan.session))
      ensures old(failed) ==> failed
    {
      ghost var start := nodes;
      r := ResetDirectory(plan.session, 0x1C0);
      SparesRoot(start, nodes, plan.session, plan.session, plan.output);
      if r.Err? {
        return;
      }
      ghost var reset := nodes;
      r := FillBeneath(plan.session + ["source"], plan.staged);
      SparesRootToo(start, reset, nodes, plan.session + ["source"], plan.session, plan.output);
      if r.Err? {
        return;
      }
      ghost var filled := nodes;
      ChildFits(reset, filled, plan.session, "source", "work");
      r := PrepareWritableDirectory(plan.session + ["work"], 0x1C0, plan.user, plan.group);
      SparesRootToo(start, filled, nodes, plan.session + ["work"], plan.session, plan.output);
      if r.Err? {
        return;
      }
      ghost var workspace := nodes;
      ChildFits(filled, workspace, plan.session, "work", "tmp");
      r := PrepareWritableDirectory(plan.session + ["tmp"], 0x1C0, plan.user, plan.group);
      SparesRootToo(start, workspace, nodes, plan.session + ["tmp"], plan.session, plan.output);
    }

    /**
     * `prepare`, from the reset of the session root to the last unpacked archive.  Wherever it
     * stops, everything outside the session root and the output root is as it was, but for new
     * directories above them; and undisturbed it succeeds exactly if nothing is in its way.
     */
    method Prepare(plan: Plan) returns (r: Result<()>)
      requires plan.session != [] && plan.output != []
      modifies this
      ensures Spares(old(nodes), nodes, plan.session, plan.output)
      ensures !failed ==> (r.Ok? <==> Succeeds(old(nodes), plan)) && nodes == LeftBy(old(nodes), plan)
      ensures r.Ok? ==> Succeeds(old(nodes), plan) && nodes == PreparedFrom(old(nodes), plan)
      ensures r.Ok? ==> IsDirectory(nodes, plan.session, 0x1C0, 0, 0)
      ensures r.Ok? ==> forall p :: p in nodes && plan.session <= p ==> HasUse(plan, p)
    {
      ghost var start := nodes;
      r := PrepareSessionRoot(plan);
      if r.Err? {
        return;
      }
      ghost var made := nodes;
      r := PrepareWritableDirectory(plan.output, 0x1ED, plan.user, plan.group);
      SparesRootToo(start, made, nodes, plan.output, plan.session, plan.output);
      if r.Err? {
        return;
      }
      ghost var roots := nodes;
      var work := plan.session + ["work"];
      r := PrepareWritableChild(work + ["home"], 0x1C0, plan.user, plan.group);
      SparesRootToo(start, roots, nodes, work + ["home"], plan.session, plan.output);
      if r.Err? {
        return;
      }
      ghost var prepared := nodes;
      r := UnpackArchives(work, plan.archives);
      SparesRootToo(start, prepared, nodes, work, plan.session, plan.output);
      if r.Ok? {
        SucceedsApart(start, plan);
        SessionRootStays(start, plan);
        forall p | p in nodes && plan.session <= p
          ensures HasUse(plan, p)
        {
          SessionHolds(start, plan, p);
        }
      }
    }

    /**
     * `prepare` of an admitted session leaves everything at or beneath each protected place that the
     * overlap check could see alone, wherever it stops; and of what was in the two roots, where a
     * place that a trailing slash hid from the check always has a part, nothing outlives its success.
     */
    method PrepareSession(l: Layout, plan: Plan) returns (r: Result<()>)
      requires Apart(l) && NormalLayout(l) && IsPlan(l, plan)
      modifies this
      ensures Spares(old(nodes), nodes, plan.session, plan.output)
      ensures forall i, p :: 0 <= i < |Protected(l)| && Place(Protected(l)[i]) <= p && Seen(l, i) ==>
        Same(old(nodes), nodes, p)
      ensures !failed ==> (r.Ok? <==> Succeeds(old(nodes), plan)) && nodes == LeftBy(old(nodes), plan)
      ensures r.Ok? ==> Succeeds(old(nodes), plan) && nodes == PreparedFrom(old(nodes), plan)
      ensures r.Ok? ==> forall p :: InRoots(plan.session, plan.output, p) ==>
        Same(nodes, PreparedFrom(NO_HOST, plan), p)
      ensures r.Ok? && !(plan.session <= plan.output) ==> RootsReady(nodes, plan)
    {
      ghost var start := nodes;
      r := Prepare(plan);
      forall i, p | 0 <= i < |Protected(l)| && Place(Protected(l)[i]) <= p && Seen(l, i)
        ensures Same(start, nodes, p)
      {
        ProtectedSpared(l, i, p, start, nodes);
      }
      if r.Ok? {
        forall p | InRoots(plan.session, plan.output, p)
          ensures Same(nodes, PreparedFrom(NO_HOST, plan), p)
        {
          RootsForgotten(start, NO_HOST, plan, p);
        }
        if !(plan.session <= plan.output) {
          SucceedsApart(start, plan);
          PreparedIsReady(start, plan);
        }
      }
    }
  }

  /** The same directory, to which its owner has every permission. */
  predicate IsLoosened(before: HostNode, after: HostNode) {
    && before.Directory? && after.Directory?
    && after.mode == before.mode | 0x1C0 && after.user == before.user && after.group == before.group
  }

  function WithOwner(directory: HostNode): HostNode
    requires directory.Directory?
  {
    directory.(mode := directory.mode | OWNER_ALL)
  }

  /** Nothing changes but directories at or beneath the root, and those are loosened. */
  ghost predicate OnlyLoosens(start: Host, now: Host, root: Path) {
    && now.Keys == start.Keys
    && forall p :: p in now ==> now[p] == start[p] || (root <= p && IsLoosened(start[p], now[p]))
  }

  /** Every directory of the tree is loosened, but for those still to do. */
  ghost predicate AllLoosened(start: Host, now: Host, root: Path, todo: set<Path>) {
    forall p :: p in now && p in start && root <= p && now[p].Directory? && p !in todo ==> IsLoosened(start[p], now[p])
  }

  ghost predicate ToLoosen(start: Host, now: Host, root: Path, todo: set<Path>) {
    forall p :: p in todo ==> p in now && p in start && root <= p && now[p].Directory? && now[p] == start[p]
  }

  lemma {:induction false} LoosenedOne(start: Host, now: Host, root: Path, todo: set<Path>, p: Path)
    requires OnlyLoosens(start, now, root) && p !in todo
    requires AllLoosened(start, now, root, todo + {p}) && ToLoosen(start, now, root, todo + {p})
    ensures p in now && now[p].Directory?
    ensures var after := now[p := WithOwner(now[p])];
      OnlyLoosens(start, after, root) && AllLoosened(start, after, root, todo) && ToLoosen(start, after, root, todo)
  {
    assert p in todo + {p};
    assert IsLoosened(start[p], WithOwner(now[p]));
  }

  lemma {:induction false} LoosensBeneath(start: Host, now: Host, root: Path)
    requires OnlyLoosens(start, now, root)
    ensures OnlyBeneath(start, now, root)
  {
  }

  /** The plan works in the session's two roots. */
  predicate IsPlan(l: Layout, plan: Plan) {
    plan.session == Place(l.sessionRoot) != [] && plan.output == Place(l.outputRoot) != []
  }

  /** No trailing slash hid this place from the overlap check. */
  predicate Seen(l: Layout, i: nat)
    requires i < |Protected(l)|
  {
    !Hidden(l.sessionRoot, Protected(l)[i]) && !Hidden(l.outputRoot, Protected(l)[i])
  }

  /** What is at or beneath a protected place is neither in a root nor above one. */
  lemma {:induction false} ProtectedSpared(l: Layout, i: nat, p: Path, before: Host, after: Host)
    requires Apart(l) && NormalLayout(l) && i < |Protected(l)| && Place(Protected(l)[i]) <= p
    requires Seen(l, i) && Spares(before, after, Place(l.sessionRoot), Place(l.outputRoot))
    ensures Same(before, after, p)
  {
    var q, session, output := Protected(l)[i], Place(l.sessionRoot), Place(l.outputRoot);
    ProtectedNestExactly(l, i);
    if session <= p || p <= session {
      NestedIfShared(l.sessionRoot, q, session, p);
    }
    if output <= p || p <= output {
      NestedIfShared(l.outputRoot, q, output, p);
    }
  }

  /** A hidden place contains a root or lies in one. */
  lemma {:induction false} HiddenHasPart(l: Layout, i: nat) returns (p: Path)
    requires i < |Protected(l)| && !Seen(l, i)
    ensures Place(Protected(l)[i]) <= p && InRoots(Place(l.sessionRoot), Place(l.outputRoot), p)
  {
    var q, session, output := Place(Protected(l)[i]), Place(l.sessionRoot), Place(l.outputRoot);
    p := if InRoots(session, output, q) then q else if q <= session then session else output;
  }

  /**
   * So an undisturbed run of `prepare`, whether it succeeds or not, leaves a protected place as it
   * was on every host if and only if no trailing slash hid the place from the overlap check.
   */
  lemma {:induction false} SparedExactlyIfSeen(l: Layout, plan: Plan, i: nat)
    requires Apart(l) && NormalLayout(l) && IsPlan(l, plan) && i < |Protected(l)|
    ensures Seen(l, i) <==> forall h, p :: Place(Protected(l)[i]) <= p ==> Same(h, LeftBy(h, plan), p)
  {
    if Seen(l, i) {
      forall h, p | Place(Protected(l)[i]) <= p
        ensures Same(h, LeftBy(h, plan), p)
      {
        LeftSpares(h, plan);
        ProtectedSpared(l, i, p, h, LeftBy(h, plan));
      }
    } else {
      var p := HiddenHasPart(l, i);
      var h := SomeoneLoses(plan, p);
      assert !Same(h, LeftBy(h, plan), p);
    }
  }

  // Three admitted sessions -----------------------------------------------------------------------------------

  /** Names for a session with nested roots. */
  datatype Names = Names(outer: string, inner: string, output: string, artifact: string) {
    predicate Differ() {
      && Named(outer) && Named(inner) && Named(output) && Named(artifact)
      && outer != output && outer != artifact && output != artifact
    }
  }

  /** Session root "/<outer>/" with root view "/<outer>/<inner>". */
  function ViewInside(n: Names): RawLayout {
    RawLayout(RawPath(true, [n.outer, n.inner]), RawPath(true, [n.outer] + [""]),
              RawPath(true, [n.output]), RawPath(true, [n.artifact]))
  }

  /** Root view "/<outer>/" with session root "/<outer>/<inner>". */
  function ViewAround(n: Names): RawLayout {
    RawLayout(RawPath(true, [n.outer] + [""]), RawPath(true, [n.outer, n.inner]),
              RawPath(true, [n.output]), RawPath(true, [n.artifact]))
  }

  /** Output root "/<outer>/" with session root "/<outer>/<inner>" and root view "/<outer>/<output>". */
  function OutputAround(n: Names): RawLayout {
    RawLayout(RawPath(true, [n.outer, n.output]), RawPath(true, [n.outer, n.inner]),
              RawPath(true, [n.outer] + [""]), RawPath(true, [n.artifact]))
  }

  lemma {:induction false} ViewInsideIsAdmitted(n: Names)
    requires n.Differ()
    ensures LayoutAdmitted(ViewInside(n), [], []) ==
      Ok(Layout([n.outer, n.inner], [n.outer, ""], [n.output], [n.artifact], [], []))
  {
    var raw, l := ViewInside(n), Layout([n.outer, n.inner], [n.outer, ""], [n.output], [n.artifact], [], []);
    NormalNames(raw.rootView, l.rootView);
    NormalWithSlash(raw.sessionRoot, [n.outer], l.sessionRoot);
    NormalNames(raw.outputRoot, l.outputRoot);
    NormalNames(raw.artifact, l.artifact);
    assert l.rootView[1] != l.sessionRoot[1];
    OthersApart(l);
    AdmittedFrom(raw, l);
  }

  lemma {:induction false} ViewAroundIsAdmitted(n: Names)
    requires n.Differ()
    ensures LayoutAdmitted(ViewAround(n), [], []) ==
      Ok(Layout([n.outer, ""], [n.outer, n.inner], [n.output], [n.artifact], [], []))
  {
    var raw, l := ViewAround(n), Layout([n.outer, ""], [n.outer, n.inner], [n.output], [n.artifact], [], []);
    NormalWithSlash(raw.rootView, [n.outer], l.rootView);
    NormalNames(raw.sessionRoot, l.sessionRoot);
    NormalNames(raw.outputRoot, l.outputRoot);
    NormalNames(raw.artifact, l.artifact);
    assert l.rootView[1] != l.sessionRoot[1];
    OthersApart(l);
    AdmittedFrom(raw, l);
  }

  lemma {:induction false} OthersApart(l: Layout)
    requires l.inputs == [] && l.objects == [] && !Overlaps(l.rootView, l.sessionRoot)
    requires l.rootView != [] && l.sessionRoot != [] && l.outputRoot != [] && l.artifact != []
    requires l.rootView[0] == l.sessionRoot[0] != l.outputRoot[0] && l.artifact[0] != l.outputRoot[0]
    requires l.artifact[0] != l.sessionRoot[0]
    ensures Apart(l)
  {
    FirstDiffers(l.rootView, l.outputRoot);
    FirstDiffers(l.sessionRoot, l.outputRoot);
    FirstDiffers(l.artifact, l.rootView);
    FirstDiffers(l.artifact, l.sessionRoot);
    FirstDiffers(l.artifact, l.outputRoot);
  }

  lemma {:induction false} OutputAroundIsAdmitted(n: Names)
    requires n.Differ() && n.inner != n.output
    ensures LayoutAdmitted(OutputAround(n), [], []) ==
      Ok(Layout([n.outer, n.output], [n.outer, n.inner], [n.outer, ""], [n.artifact], [], []))
  {
    var raw := OutputAround(n);
    var l := Layout([n.outer, n.output], [n.outer, n.inner], [n.outer, ""], [n.artifact], [], []);
    NormalNames(raw.rootView, l.rootView);
    NormalNames(raw.sessionRoot, l.sessionRoot);
    NormalWithSlash(raw.outputRoot, [n.outer], l.outputRoot);
    NormalNames(raw.artifact, l.artifact);
    SecondDiffers(l.rootView, l.sessionRoot);
    SecondDiffers(l.rootView, l.outputRoot);
    SecondDiffers(l.sessionRoot, l.outputRoot);
    FirstDiffers(l.artifact, l.rootView);
    FirstDiffers(l.artifact, l.sessionRoot);
    FirstDiffers(l.artifact, l.outputRoot);
    FourApart(l);
    AdmittedFrom(raw, l);
  }

  lemma {:induction false} SecondDiffers(a: Path, b: Path)
    requires |a| > 1 && |b| > 1 && a[1] != b[1]
    ensures !Overlaps(a, b)
  {
  }

  lemma {:induction false} FourApart(l: Layout)
    requires l.inputs == [] && l.objects == []
    requires !Overlaps(l.rootView, l.sessionRoot) && !Overlaps(l.rootView, l.outputRoot)
    requires !Overlaps(l.sessionRoot, l.outputRoot) && !Overlaps(l.artifact, l.rootView)
    requires !Overlaps(l.artifact, l.sessionRoot) && !Overlaps(l.artifact, l.outputRoot)
    ensures Apart(l)
  {
  }

  /**
   * The third session is admitted, and its preparation fails on every host; but not before it has
   * deleted the whole root view, wherever it gets as far as its first directory.
   */
  lemma {:induction false} RootViewIsDeletedInVain(n: Names, h: Host, plan: Plan)
    requires n.Differ() && n.inner != n.output && plan.session == [n.outer, n.inner] && plan.output == [n.outer]
    ensures LayoutAdmitted(OutputAround(n), [], []).Ok?
    ensures !Succeeds(h, plan)
    ensures Fits(h, plan.session) ==> forall p :: [n.outer, n.output] <= p ==> p !in LeftBy(h, plan)
  {
    OutputAroundIsAdmitted(n);
    assert plan.output <= plan.session;
    if Succeeds(h, plan) {
      SucceedsApart(h, plan);
      assert false;
    }
    AlwaysFits(SessionMade(h, plan), n.outer);
    if Fits(h, plan.session) {
      LeftWithoutRoom(h, plan);
      forall p | [n.outer, n.output] <= p
        ensures p !in LeftBy(h, plan)
      {
        assert plan.output < p;
        NothingBeneath(SessionMade(h, plan), plan.output, 0x1ED, plan.user, plan.group, p);
      }
    }
  }

  /** Nothing is above a directory of the root. */
  lemma {:induction false} AlwaysFits(h: Host, name: string)
    ensures Fits(h, [name])
  {
    forall p | p in AtOrAbove([name])
      ensures p == [name]
    {
      assert [name][..1] == [name];
    }
  }

  /** The first session is admitted; on every host its preparation succeeds and deletes the whole root view. */
  lemma {:induction false} RootViewIsDeleted(n: Names, h: Host, plan: Plan)
    requires n.Differ() && n.inner !in {"source", "work", "tmp"}
    requires plan.session == [n.outer] && plan.output == [n.output]
    ensures LayoutAdmitted(ViewInside(n), [], []).Ok? && Succeeds(h, plan)
    ensures forall p :: [n.outer, n.inner] <= p ==> p !in PreparedFrom(h, plan)
  {
    ViewInsideIsAdmitted(n);
    AlwaysFits(h, n.outer);
    AlwaysFits(SessionMade(h, plan), n.output);
    assert plan.session[0] != plan.output[0];
    DisjointHasRoom(h, plan);
    forall p | [n.outer, n.inner] <= p
      ensures p !in PreparedFrom(h, plan)
    {
      assert p[0] == n.outer && p[1] == n.inner;
      Elsewhere(plan, p);
      if p in PreparedFrom(h, plan) {
        SessionHolds(h, plan, p);
        assert false;
      }
    }
  }

  lemma {:induction false} Elsewhere(plan: Plan, p: Path)
    requires |p| >= 2 && plan.session == [p[0]] && |plan.output| == 1 && plan.output[0] != p[0]
    requires p[1] !in {"source", "work", "tmp"}
    ensures plan.session <= p && !HasUse(plan, p)
  {
    assert plan.session + ["source"] == [p[0], "source"];
    assert plan.session + ["work"] == [p[0], "work"];
    assert plan.session + ["tmp"] == [p[0], "tmp"];
  }

  /**
   * The second is admitted too; it succeeds wherever the root view is a directory, and whatever the
   * view held at the session root is gone.
   */
  lemma {:induction false} RootViewIsOverwritten(n: Names, h: Host, plan: Plan)
    requires n.Differ() && plan.session == [n.outer, n.inner] && plan.output == [n.output]
    ensures LayoutAdmitted(ViewAround(n), [], []).Ok? && (Succeeds(h, plan) <==> Fits(h, plan.session))
    ensures IsDirectory(PreparedFrom(h, plan), [n.outer, n.inner], 0x1C0, 0, 0)
    ensures forall p :: [n.outer, n.inner] < p && p in PreparedFrom(h, plan) ==>
      [n.outer, n.inner] + ["source"] <= p || [n.outer, n.inner] + ["work"] <= p || [n.outer, n.inner] + ["tmp"] <= p
  {
    ViewAroundIsAdmitted(n);
    assert plan.session[0] != plan.output[0];
    AlwaysFits(SessionMade(h, plan), n.output);
    DisjointHasRoom(h, plan);
    PreparedIsReady(h, plan);
    forall p | plan.session < p && p in PreparedFrom(h, plan)
      ensures plan.session + ["source"] <= p || plan.session + ["work"] <= p || plan.session + ["tmp"] <= p
    {
      SessionHolds(h, plan, p);
      assert p[0] == plan.session[0];
    }
  }
}
