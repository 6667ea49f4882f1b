/**
 * The host tree that `prepare` works on: what its steps leave where they succeed, and what any of
 * them may touch at all (src/executor.cpp:243-345, 1557-1636).
 */
module HostState {
  import opened Outcomes
  import opened PathLayout

  datatype HostNode = Directory(mode: bv12, user: nat, group: nat) | Other(content: Bytes)

  type Host = map<Path, HostNode>

  /** The same node, or nothing, at a place. */
  predicate Same(before: Host, after: Host, p: Path) {
    (p in before <==> p in after) && (p in before ==> after[p] == before[p])
  }

  /** Nothing outside one root changed, except that directories above it may be new. */
  ghost predicate SparesOne(before: Host, after: Host, root: Path) {
    forall p :: !(root <= p) ==> Same(before, after, p) || IsNewAbove(before, after, p, root)
  }

  predicate IsNewAbove(before: Host, after: Host, p: Path, root: Path) {
    p !in before && p in after && p < root
  }

  /** Nothing outside the session root and the output root changed, except for new directories above them. */
  ghost predicate Spares(before: Host, after: Host, session: Path, output: Path) {
    forall p :: !(session <= p) && !(output <= p) ==>
      Same(before, after, p) || IsNewAbove(before, after, p, session) || IsNewAbove(before, after, p, output)
  }

  /** Nothing at all changed outside one root. */
  ghost predicate OnlyBeneath(before: Host, after: Host, root: Path) {
    forall p :: !(root <= p) ==> Same(before, after, p)
  }

  lemma {:induction false} SparesTwice(a: Host, b: Host, c: Host, session: Path, output: Path)
    requires Spares(a, b, session, output) && Spares(b, c, session, output)
    ensures Spares(a, c, session, output)
  {
    forall p | !(session <= p) && !(output <= p)
      ensures Same(a, c, p) || IsNewAbove(a, c, p, session) || IsNewAbove(a, c, p, output)
    {
      assert Same(a, b, p) || IsNewAbove(a, b, p, session) || IsNewAbove(a, b, p, output);
      assert Same(b, c, p) || IsNewAbove(b, c, p, session) || IsNewAbove(b, c, p, output);
    }
  }

  lemma {:induction false} SparesOneTwice(a: Host, b: Host, c: Host, root: Path)
    requires SparesOne(a, b, root) && SparesOne(b, c, root)
    ensures SparesOne(a, c, root)
  {
    forall p | !(root <= p)
      ensures Same(a, c, p) || IsNewAbove(a, c, p, root)
    {
      assert Same(a, b, p) || IsNewAbove(a, b, p, root);
      assert Same(b, c, p) || IsNewAbove(b, c, p, root);
    }
  }

  /** A change of one node at or beneath the root. */
  lemma {:induction false} SparesAt(before: Host, after: Host, root: Path, p: Path)
    requires root <= p && forall q :: q != p ==> Same(before, after, q)
    ensures SparesOne(before, after, root)
  {
    forall q | !(root <= q)
      ensures Same(before, after, q) || IsNewAbove(before, after, q, root)
    {
      assert q != p;
    }
  }

  /** A new directory at the root or above it. */
  lemma {:induction false} SparesNew(before: Host, after: Host, root: Path, k: nat)
    requires k <= |root| && root[..k] !in before && root[..k] in after
    requires forall q :: q != root[..k] ==> Same(before, after, q)
    ensures SparesOne(before, after, root)
  {
    forall q | !(root <= q)
      ensures Same(before, after, q) || IsNewAbove(before, after, q, root)
    {
      assert q != root[..k] || q < root;
    }
  }

  /** What spares everything outside a place beneath a root spares everything outside the root. */
  lemma {:induction false} SparesRoot(a: Host, b: Host, x: Path, session: Path, output: Path)
    requires SparesOne(a, b, x) && (session <= x || output <= x)
    ensures Spares(a, b, session, output)
  {
    var root := if session <= x then session else output;
    forall p | !(session <= p) && !(output <= p)
      ensures Same(a, b, p) || IsNewAbove(a, b, p, session) || IsNewAbove(a, b, p, output)
    {
      assert x <= p ==> root <= p;
      assert Same(a, b, p) || IsNewAbove(a, b, p, x);
      InLine(p, root, x);
    }
  }

  /** Two places at or above the same one are in line. */
  lemma {:induction false} InLine(p: Path, r: Path, x: Path)
    ensures p <= x && r <= x && !(r <= p) ==> p < r
  {
    if p <= x && r <= x {
      assert p == x[..|p|] && r == x[..|r|];
      assert |r| <= |p| ==> x[..|p|][..|r|] == x[..|r|];
      assert |p| < |r| ==> x[..|r|][..|p|] == x[..|p|];
    }
  }

  predicate IsDirectory(h: Host, p: Path, mode: bv12, user: nat, group: nat) {
    p in h && h[p] == Directory(mode, user, group)
  }

  /** An empty directory. */
  ghost predicate Fresh(h: Host, root: Path, mode: bv12, user: nat, group: nat) {
    IsDirectory(h, root, mode, user, group) && forall p :: p in h && root <= p ==> p == root
  }

  // What the steps leave where they succeed ----------------------------------------------------------------

  /** What one preparation is given. */
  datatype Plan = Plan(session: Path, output: Path, user: nat, group: nat, staged: Host, archives: seq<Host>)

  const NO_HOST: Host := map[]

  function Without(h: Host, root: Path): Host {
    map p | p in h && !(root <= p) :: h[p]
  }

  function AtOrAbove(place: Path): set<Path> {
    set k: nat | 1 <= k <= |place| :: place[..k]
  }

  function WithDirectories(h: Host, place: Path): Host {
    (map p | p in AtOrAbove(place) :: Directory(0x1FF, 0, 0)) + h
  }

  /** The same after the first `k` of them. */
  function MadeUpTo(h: Host, place: Path, k: nat): Host
    requires k <= |place|
  {
    WithDirectories(h, place[..k])
  }

  /** A directory can be made where one contains it. */
  predicate HasParent(h: Host, place: Path)
    requires place != []
  {
    var parent := place[..|place| - 1];
    parent == [] || (parent in h && h[parent].Directory?)
  }

  /** The place and everything above it are directories. */
  predicate DirectoriesAbove(h: Host, place: Path) {
    forall p :: p in AtOrAbove(place) ==> p in h && h[p].Directory?
  }

  /** Something else is where a directory is needed. */
  predicate Blocked(h: Host, place: Path) {
    exists p :: p in AtOrAbove(place) && p in h && !h[p].Directory?
  }

  /** The same, not counting the place itself. */
  predicate Fits(h: Host, place: Path) {
    forall p :: p in AtOrAbove(place) && p != place && p in h ==> h[p].Directory?
  }

  /** An empty directory where the tree was, beneath directories. */
  function Reset(h: Host, root: Path, mode: bv12, user: nat, group: nat): Host {
    WithDirectories(Without(h, root), root)[root := Directory(mode, user, group)]
  }

  /** Another tree where the tree was. */
  function Filled(h: Host, root: Path, left: Host): Host {
    Without(h, root) + (map p | p in left && root <= p :: left[p])
  }

  /** New nodes beneath the root; no node that was there gives way. */
  function Added(h: Host, root: Path, more: Host): Host {
    (map p | p in more && root < p :: more[p]) + h
  }

  function AllAdded(h: Host, root: Path, archives: seq<Host>): Host {
    if archives == [] then h
    else var last := |archives| - 1; Added(AllAdded(h, root, archives[..last]), root, archives[last])
  }

  /** The session root with its sources and its two writable directories. */
  function SessionMade(h: Host, plan: Plan): Host {
    var sources := Filled(Reset(h, plan.session, 0x1C0, 0, 0), plan.session + ["source"], plan.staged);
    var work := Reset(sources, plan.session + ["work"], 0x1C0, plan.user, plan.group);
    Reset(work, plan.session + ["tmp"], 0x1C0, plan.user, plan.group)
  }

  /** The output root as well. */
  function RootsMade(h: Host, plan: Plan): Host {
    Reset(SessionMade(h, plan), plan.output, 0x1ED, plan.user, plan.group)
  }

  /** Everything `prepare` leaves. */
  function PreparedFrom(h: Host, plan: Plan): Host {
    var work, directory := plan.session + ["work"], Directory(0x1C0, plan.user, plan.group);
    AllAdded(RootsMade(h, plan)[work + ["home"] := directory], work, plan.archives)
  }

  /** A run that no call fails in succeeds exactly under these conditions. */
  predicate Succeeds(h: Host, plan: Plan) {
    && Fits(h, plan.session)
    && Fits(SessionMade(h, plan), plan.output)
    && HasRoom(RootsMade(h, plan), plan.session + ["work"] + ["home"])
  }

  /** How many of the components are directories, or can be made, before something is in the way. */
  function Reach(h: Host, place: Path, k: nat): (reached: nat)
    requires k <= |place|
    ensures k <= reached <= |place|
    decreases |place| - k
  {
    if k == |place| || (place[..k + 1] in h && !h[place[..k + 1]].Directory?) then k else Reach(h, place, k + 1)
  }

  /** What a reset leaves that something above its root stops. */
  function Stopped(h: Host, root: Path): Host {
    MadeUpTo(Without(h, root), root, Reach(Without(h, root), root, 0))
  }

  /** What a run leaves that no call fails in, whether it succeeds or something in its way stops it. */
  function LeftBy(h: Host, plan: Plan): Host {
    if !Fits(h, plan.session) then Stopped(h, plan.session)
    else if !Fits(SessionMade(h, plan), plan.output) then Stopped(SessionMade(h, plan), plan.output)
    else if !HasRoom(RootsMade(h, plan), plan.session + ["work"] + ["home"]) then RootsMade(h, plan)
    else PreparedFrom(h, plan)
  }

  /** The place is free and its parent is there. */
  predicate HasRoom(h: Host, place: Path)
    requires place != []
  {
    place !in h && HasParent(h, place)
  }

  /** What stands at a place not reached yet stood there before. */
  lemma {:induction false} NotMade(h: Host, place: Path, k: nat)
    requires 1 <= k <= |place| && place[..k] in MadeUpTo(h, place, k - 1)
    requires !MadeUpTo(h, place, k - 1)[place[..k]].Directory?
    ensures Blocked(h, place)
  {
    var p := place[..k];
    assert p in AtOrAbove(place) && p in h && !h[p].Directory?;
  }

  lemma {:induction false} BlockedDoesNotFit(h: Host, root: Path)
    requires Blocked(Without(h, root), root)
    ensures !Fits(h, root)
  {
    var p :| p in AtOrAbove(root) && p in Without(h, root) && !Without(h, root)[p].Directory?;
    assert p != root && p in h && !h[p].Directory?;
  }

  lemma {:induction false} MadeFits(h: Host, root: Path)
    requires DirectoriesAbove(WithDirectories(Without(h, root), root), root)
    ensures Fits(h, root)
  {
    forall p | p in AtOrAbove(root) && p != root && p in h
      ensures h[p].Directory?
    {
      assert |p| < |root|;
      assert WithDirectories(Without(h, root), root)[p] == h[p];
    }
  }

  /** One child of a directory never stands in the way of another. */
  lemma {:induction false} ChildFits(before: Host, after: Host, session: Path, child: string, other: string)
    requires DirectoriesAbove(before, session) && SparesOne(before, after, session + [child])
    ensures DirectoriesAbove(after, session) && Fits(after, session + [other])
  {
    forall p | p in AtOrAbove(session)
      ensures p in after && after[p].Directory?
    {
      assert |p| <= |session|;
      assert Same(before, after, p) || IsNewAbove(before, after, p, session + [child]);
    }
    var place := session + [other];
    assert place[..|place| - 1] == session;
    AddedPrefix(place, session);
  }

  lemma {:induction false} BeneathStill(start: Host, before: Host, after: Host, root: Path, p: Path)
    requires OnlyBeneath(start, before, root) && root <= p && forall q :: q != p ==> Same(before, after, q)
    ensures OnlyBeneath(start, after, root)
  {
    forall q | !(root <= q)
      ensures Same(start, after, q)
    {
      assert Same(start, before, q) && Same(before, after, q);
    }
  }

  lemma {:induction false} IsWithout(start: Host, after: Host, root: Path)
    requires OnlyBeneath(start, after, root) && forall p :: p in after ==> !(root <= p)
    ensures after == Without(start, root)
  {
    forall p
      ensures Same(after, Without(start, root), p)
    {
      assert !(root <= p) ==> Same(start, after, p);
    }
    SameEverywhere(after, Without(start, root));
  }

  lemma {:induction false} SameEverywhere(a: Host, b: Host)
    requires forall p :: Same(a, b, p)
    ensures a == b
  {
    forall p
      ensures p in a <==> p in b
    {
      assert Same(a, b, p);
    }
    forall p | p in a
      ensures a[p] == b[p]
    {
      assert Same(a, b, p);
    }
  }

  /** What changes nothing outside a root spares it, and clearing the root then forgets the change. */
  lemma {:induction false} BeneathSpares(before: Host, after: Host, root: Path)
    requires OnlyBeneath(before, after, root)
    ensures SparesOne(before, after, root) && Without(after, root) == Without(before, root)
  {
    var a, b := Without(after, root), Without(before, root);
    forall p
      ensures Same(a, b, p)
    {
      assert !(root <= p) ==> Same(before, after, p);
    }
    SameEverywhere(a, b);
  }

  lemma {:induction false} OneMore(h: Host, before: Host, after: Host, place: Path, k: nat)
    requires 1 <= k <= |place| && before == MadeUpTo(h, place, k - 1)
    requires after == if place[..k] in before then before else before[place[..k] := Directory(0x1FF, 0, 0)]
    ensures after == MadeUpTo(h, place, k)
  {
    var above, shorter := place[..k], place[..k - 1];
    assert |above| == k && above[..k] == above;
    forall j: nat | 1 <= j < k
      ensures above[..j] == shorter[..j]
    {
    }
    AddedPrefix(above, shorter);
    forall p
      ensures Same(after, WithDirectories(h, above), p)
    {
    }
    SameEverywhere(after, WithDirectories(h, above));
  }

  /** `create_directories` after the first `k` components: each is a directory, new or not. */
  ghost predicate MadeSoFar(start: Host, now: Host, place: Path, k: nat)
    requires k <= |place|
  {
    && SparesOne(start, now, place)
    && now == MadeUpTo(start, place, k)
    && (forall j :: 1 <= j <= k ==> place[..j] in now && now[place[..j]].Directory?)
    && Reach(start, place, 0) == Reach(start, place, k)
  }

  lemma {:induction false} NoneMade(start: Host, place: Path)
    ensures MadeSoFar(start, start, place, 0)
  {
    assert AtOrAbove(place[..0]) == {};
  }

  lemma {:induction false} MadeOneMore(start: Host, before: Host, after: Host, place: Path, k: nat)
    requires k < |place| && MadeSoFar(start, before, place, k)
    requires place[..k + 1] in before ==> before[place[..k + 1]].Directory?
    requires after == if place[..k + 1] in before then before else before[place[..k + 1] := Directory(0x1FF, 0, 0)]
    ensures MadeSoFar(start, after, place, k + 1)
  {
    OneMore(start, before, after, place, k + 1);
    if place[..k + 1] !in before {
      SparesNew(before, after, place, k + 1);
      SparesOneTwice(start, before, after, place);
    }
    GoesOn(start, before, place, k);
  }

  /** What is a directory or missing now did not stop the way. */
  lemma {:induction false} GoesOn(start: Host, now: Host, place: Path, k: nat)
    requires k < |place| && MadeSoFar(start, now, place, k)
    requires place[..k + 1] in now ==> now[place[..k + 1]].Directory?
    ensures Reach(start, place, k) == Reach(start, place, k + 1)
  {
  }

  lemma {:induction false} StopsHere(start: Host, now: Host, place: Path, k: nat)
    requires k < |place| && MadeSoFar(start, now, place, k)
    requires place[..k + 1] in now && !now[place[..k + 1]].Directory?
    ensures Blocked(start, place) && now == MadeUpTo(start, place, Reach(start, place, 0))
  {
    NotMade(start, place, k + 1);
  }

  lemma {:induction false} AllMade(start: Host, now: Host, place: Path)
    requires MadeSoFar(start, now, place, |place|)
    ensures now == WithDirectories(start, place) && DirectoriesAbove(now, place)
  {
    assert place[..|place|] == place;
  }

  lemma {:induction false} AddedPrefix(above: Path, shorter: Path)
    requires above != [] && shorter == above[..|above| - 1]
    ensures AtOrAbove(above) == AtOrAbove(shorter) + {above}
  {
    forall p
      ensures p in AtOrAbove(above) <==> p in AtOrAbove(shorter) + {above}
    {
      if p in AtOrAbove(above) {
        var j: nat :| 1 <= j <= |above| && above[..j] == p;
        assert j < |above| ==> shorter[..j] == p;
      }
      if p in AtOrAbove(shorter) {
        var j: nat :| 1 <= j <= |shorter| && shorter[..j] == p;
        assert above[..j] == p;
      }
      assert above[..|above|] == above;
    }
  }

  lemma {:induction false} IsReset(start: Host, empty: Host, made: Host, after: Host, root: Path, mode: bv12)
    requires root != [] && made == WithDirectories(empty, root)
    requires after == made[root := Directory(mode, 0, 0)]
    requires empty == Without(start, root)
    ensures after == Reset(start, root, mode, 0, 0)
  {
  }

  /** A step acts on each place by itself; a reset forgets what was at and beneath its root. */
  lemma {:induction false} ResetSame(a: Host, b: Host, root: Path, mode: bv12, user: nat, group: nat, p: Path)
    requires Same(a, b, p) || root <= p
    ensures Same(Reset(a, root, mode, user, group), Reset(b, root, mode, user, group), p)
  {
    if root <= p && p != root {
      forall k: nat | 1 <= k <= |root|
        ensures root[..k] != p
      {
        assert |root| < |p|;
      }
    }
  }

  lemma {:induction false} FilledSame(a: Host, b: Host, root: Path, left: Host, p: Path)
    requires Same(a, b, p)
    ensures Same(Filled(a, root, left), Filled(b, root, left), p)
  {
  }

  lemma {:induction false} AllAddedSame(a: Host, b: Host, root: Path, archives: seq<Host>, p: Path)
    requires Same(a, b, p)
    ensures Same(AllAdded(a, root, archives), AllAdded(b, root, archives), p)
  {
    if archives != [] {
      AllAddedSame(a, b, root, archives[..|archives| - 1], p);
    }
  }

  lemma {:induction false} SessionMadeSame(a: Host, b: Host, plan: Plan, p: Path)
    requires Same(a, b, p) || plan.session <= p
    ensures Same(SessionMade(a, plan), SessionMade(b, plan), p)
  {
    var source, work, tmp := plan.session + ["source"], plan.session + ["work"], plan.session + ["tmp"];
    var a0, b0 := Reset(a, plan.session, 0x1C0, 0, 0), Reset(b, plan.session, 0x1C0, 0, 0);
    ResetSame(a, b, plan.session, 0x1C0, 0, 0, p);
    var a1, b1 := Filled(a0, source, plan.staged), Filled(b0, source, plan.staged);
    FilledSame(a0, b0, source, plan.staged, p);
    var a2, b2 := Reset(a1, work, 0x1C0, plan.user, plan.group), Reset(b1, work, 0x1C0, plan.user, plan.group);
    ResetSame(a1, b1, work, 0x1C0, plan.user, plan.group, p);
    ResetSame(a2, b2, tmp, 0x1C0, plan.user, plan.group, p);
  }

  /** The place lies in one of the two roots. */
  predicate InRoots(session: Path, output: Path, p: Path) {
    session <= p || output <= p
  }

  /** Nothing of what was in the two roots survives: there every host ends alike. */
  lemma {:induction false} RootsForgotten(a: Host, b: Host, plan: Plan, p: Path)
    requires InRoots(plan.session, plan.output, p)
    ensures Same(PreparedFrom(a, plan), PreparedFrom(b, plan), p)
  {
    var work, directory := plan.session + ["work"], Directory(0x1C0, plan.user, plan.group);
    var a0, b0 := SessionMade(a, plan), SessionMade(b, plan);
    if plan.session <= p {
      SessionMadeSame(a, b, plan, p);
    }
    var a1, b1 := RootsMade(a, plan), RootsMade(b, plan);
    ResetSame(a0, b0, plan.output, 0x1ED, plan.user, plan.group, p);
    var a2, b2 := a1[work + ["home"] := directory], b1[work + ["home"] := directory];
    AllAddedSame(a2, b2, work, plan.archives, p);
  }

  /** The places beneath the session root that `prepare` may leave something at. */
  predicate HasUse(plan: Plan, p: Path) {
    || p == plan.session || plan.session + ["source"] <= p || plan.session + ["work"] <= p
    || plan.session + ["tmp"] <= p || plan.output <= p || p < plan.output
  }

  /** In the session root there is nothing but its sources, its two directories, and the output root. */
  lemma {:induction false} SessionHolds(h: Host, plan: Plan, p: Path)
    requires plan.session <= p && p in PreparedFrom(h, plan)
    ensures HasUse(plan, p)
  {
    if !HasUse(plan, p) {
      var roots := RootsMade(h, plan);
      var work := plan.session + ["work"];
      var made := roots[work + ["home"] := Directory(0x1C0, plan.user, plan.group)];
      AllAddedOnly(made, work, plan.archives, p);
      ResetOnly(SessionMade(h, plan), plan.output, 0x1ED, plan.user, plan.group, p);
      assert work <= work + ["home"];
      SessionMadeOnly(h, plan, p);
    }
  }

  lemma {:induction false} SessionMadeOnly(h: Host, plan: Plan, p: Path)
    requires plan.session <= p && p != plan.session && p in SessionMade(h, plan)
    requires !(plan.session + ["work"] <= p) && !(plan.session + ["tmp"] <= p)
    ensures plan.session + ["source"] <= p
  {
    var cleared := Reset(h, plan.session, 0x1C0, 0, 0);
    var sources := Filled(cleared, plan.session + ["source"], plan.staged);
    var work := Reset(sources, plan.session + ["work"], 0x1C0, plan.user, plan.group);
    NotFromChild(work, plan.session, "tmp", 0x1C0, plan.user, plan.group, p);
    NotFromChild(sources, plan.session, "work", 0x1C0, plan.user, plan.group, p);
    FilledOnly(cleared, plan.session + ["source"], plan.staged, p);
    NothingBeneath(h, plan.session, 0x1C0, 0, 0, p);
  }

  lemma {:induction false} FilledOnly(h: Host, root: Path, left: Host, p: Path)
    requires p in Filled(h, root, left)
    ensures p in h || root <= p
  {
  }

  /** Resetting one directory of the session root adds nothing elsewhere in it. */
  lemma {:induction false} NotFromChild(
      h: Host, session: Path, name: string, mode: bv12, user: nat, group: nat, p: Path)
    requires session < p && !(session + [name] <= p)
    requires p in Reset(h, session + [name], mode, user, group)
    ensures p in h
  {
    ResetOnly(h, session + [name], mode, user, group, p);
    assert p <= session + [name] ==> |p| == |session + [name]|;
    assert |p| == |session + [name]| && p <= session + [name] ==> p == session + [name];
  }

  /** A reset adds nothing but its root and what is above it. */
  lemma {:induction false} ResetOnly(h: Host, root: Path, mode: bv12, user: nat, group: nat, p: Path)
    requires p in Reset(h, root, mode, user, group)
    ensures p <= root || (p in h && !(root <= p))
  {
  }

  /** A reset leaves nothing beneath its root. */
  lemma {:induction false} NothingBeneath(h: Host, root: Path, mode: bv12, user: nat, group: nat, p: Path)
    requires root < p
    ensures p !in Reset(h, root, mode, user, group)
  {
    if p in Reset(h, root, mode, user, group) {
      ResetOnly(h, root, mode, user, group, p);
      assert false;
    }
  }

  lemma {:induction false} AllAddedOnly(h: Host, root: Path, archives: seq<Host>, p: Path)
    requires p in AllAdded(h, root, archives) && !(root <= p)
    ensures p in h
  {
    if archives != [] {
      AllAddedOnly(h, root, archives[..|archives| - 1], p);
    }
  }

  /** What was there before the archives stays. */
  lemma {:induction false} AllAddedKeeps(h: Host, root: Path, archives: seq<Host>, p: Path)
    requires p in h
    ensures p in AllAdded(h, root, archives) && AllAdded(h, root, archives)[p] == h[p]
  {
    if archives != [] {
      AllAddedKeeps(h, root, archives[..|archives| - 1], p);
    }
  }

  lemma {:induction false} FilledSpares(h: Host, root: Path, left: Host)
    ensures SparesOne(h, Filled(h, root, left), root)
  {
    forall p | !(root <= p)
      ensures Same(h, Filled(h, root, left), p)
    {
    }
  }

  lemma {:induction false} AddedSpares(h: Host, root: Path, more: Host)
    ensures SparesOne(h, Added(h, root, more), root)
  {
    forall p | !(root <= p)
      ensures Same(h, Added(h, root, more), p)
    {
    }
  }

  /** One more step inside a root. */
  lemma {:induction false} SparesRootToo(a: Host, b: Host, c: Host, x: Path, session: Path, output: Path)
    requires Spares(a, b, session, output) && SparesOne(b, c, x) && (session <= x || output <= x)
    ensures Spares(a, c, session, output)
  {
    SparesRoot(b, c, x, session, output);
    SparesTwice(a, b, c, session, output);
  }

  /** An output root at or above the session root takes the workspace away before its home is made. */
  lemma {:induction false} OutputNotAbove(made: Host, roots: Host, plan: Plan)
    requires roots == Reset(made, plan.output, 0x1ED, plan.user, plan.group)
    requires HasParent(roots, plan.session + ["work"] + ["home"])
    ensures !(plan.output <= plan.session)
  {
    var work := plan.session + ["work"];
    assert (work + ["home"])[..|work|] == work;
    if plan.output <= plan.session {
      NothingBeneath(made, plan.output, 0x1ED, plan.user, plan.group, work);
      assert false;
    }
  }

  lemma {:induction false} ResetElsewhere(h: Host, root: Path, mode: bv12, user: nat, group: nat, p: Path)
    requires !(root <= p) && (!(p <= root) || p in h)
    ensures Same(h, Reset(h, root, mode, user, group), p)
  {
  }

  /** An empty directory stays one while another place, neither above nor beneath it, is reset. */
  lemma {:induction false} FreshStays(
      h: Host, x: Path, mode: bv12, user: nat, group: nat, root: Path, m: bv12, u: nat, g: nat)
    requires Fresh(h, root, m, u, g) && !(x <= root) && !(root <= x)
    ensures Fresh(Reset(h, x, mode, user, group), root, m, u, g)
  {
    ResetElsewhere(h, x, mode, user, group, root);
    forall p | p in Reset(h, x, mode, user, group) && root <= p
      ensures p == root
    {
      ResetOnly(h, x, mode, user, group, p);
      InLine(root, x, p);
      InLine(x, root, p);
    }
  }

  /** Adding elsewhere leaves it empty too. */
  lemma {:induction false} FreshKept(h: Host, work: Path, archives: seq<Host>, root: Path, m: bv12, u: nat, g: nat)
    requires Fresh(h, root, m, u, g) && !(work <= root) && !(root <= work)
    ensures Fresh(AllAdded(h, work, archives), root, m, u, g)
  {
    AllAddedKeeps(h, work, archives, root);
    forall p | p in AllAdded(h, work, archives) && root <= p
      ensures p == root
    {
      InLine(root, work, p);
      InLine(work, root, p);
      AllAddedOnly(h, work, archives, p);
    }
  }

  lemma {:induction false} ResetIsFresh(h: Host, root: Path, mode: bv12, user: nat, group: nat)
    ensures Fresh(Reset(h, root, mode, user, group), root, mode, user, group)
  {
    forall p | p in Reset(h, root, mode, user, group) && root <= p
      ensures p == root
    {
      ResetOnly(h, root, mode, user, group, p);
    }
  }

  /** The directories as the build finds them. */
  ghost predicate RootsReady(h: Host, plan: Plan) {
    && IsDirectory(h, plan.session, 0x1C0, 0, 0)
    && IsDirectory(h, plan.session + ["work"], 0x1C0, plan.user, plan.group)
    && IsDirectory(h, plan.session + ["work"] + ["home"], 0x1C0, plan.user, plan.group)
    && Fresh(h, plan.session + ["tmp"], 0x1C0, plan.user, plan.group)
    && Fresh(h, plan.output, 0x1ED, plan.user, plan.group)
  }

  /** An output root that is not at or above the session root leaves it alone. */
  lemma {:induction false} SessionRootStays(h: Host, plan: Plan)
    requires !(plan.output <= plan.session)
    ensures IsDirectory(PreparedFrom(h, plan), plan.session, 0x1C0, 0, 0)
  {
    var work := plan.session + ["work"];
    SessionMadeIsReady(h, plan);
    ResetElsewhere(SessionMade(h, plan), plan.output, 0x1ED, plan.user, plan.group, plan.session);
    var homed := RootsMade(h, plan)[work + ["home"] := Directory(0x1C0, plan.user, plan.group)];
    assert |work + ["home"]| > |plan.session|;
    AllAddedKeeps(homed, work, plan.archives, plan.session);
  }

  /** Disjoint roots end ready, whatever the archives added. */
  lemma {:induction false} PreparedIsReady(h: Host, plan: Plan)
    requires !(plan.session <= plan.output) && !(plan.output <= plan.session)
    ensures RootsReady(PreparedFrom(h, plan), plan)
  {
    var work, tmp := plan.session + ["work"], plan.session + ["tmp"];
    var made := SessionMade(h, plan);
    SessionMadeIsReady(h, plan);
    InLine(plan.output, plan.session, work);
    InLine(plan.output, plan.session, tmp);
    var roots := Reset(made, plan.output, 0x1ED, plan.user, plan.group);
    ResetIsFresh(made, plan.output, 0x1ED, plan.user, plan.group);
    FreshStays(made, plan.output, 0x1ED, plan.user, plan.group, tmp, 0x1C0, plan.user, plan.group);
    ResetElsewhere(made, plan.output, 0x1ED, plan.user, plan.group, plan.session);
    ResetElsewhere(made, plan.output, 0x1ED, plan.user, plan.group, work);
    var homed := roots[work + ["home"] := Directory(0x1C0, plan.user, plan.group)];
    HomeIsElsewhere(plan);
    FreshKept(homed, work, plan.archives, tmp, 0x1C0, plan.user, plan.group);
    FreshKept(homed, work, plan.archives, plan.output, 0x1ED, plan.user, plan.group);
    AllAddedKeeps(homed, work, plan.archives, plan.session);
    AllAddedKeeps(homed, work, plan.archives, work);
    AllAddedKeeps(homed, work, plan.archives, work + ["home"]);
  }

  lemma {:induction false} HomeIsElsewhere(plan: Plan)
    requires !(plan.session <= plan.output) && !(plan.output <= plan.session)
    ensures var work, tmp, home := plan.session + ["work"], plan.session + ["tmp"], plan.session + ["work"] + ["home"];
      && !(tmp <= home) && !(plan.output <= home) && !(work <= tmp) && !(tmp <= work)
      && home != plan.session && home != work
  {
    var work, tmp, home := plan.session + ["work"], plan.session + ["tmp"], plan.session + ["work"] + ["home"];
    assert home[|plan.session|] == "work" && work[|plan.session|] == "work" && tmp[|plan.session|] == "tmp";
    InLine(plan.output, plan.session, home);
    assert plan.session <= home;
  }

  lemma {:induction false} SessionMadeIsReady(h: Host, plan: Plan)
    ensures var made := SessionMade(h, plan);
      && IsDirectory(made, plan.session, 0x1C0, 0, 0)
      && IsDirectory(made, plan.session + ["work"], 0x1C0, plan.user, plan.group)
      && Fresh(made, plan.session + ["tmp"], 0x1C0, plan.user, plan.group)
  {
    var source, work, tmp := plan.session + ["source"], plan.session + ["work"], plan.session + ["tmp"];
    assert work[|plan.session|] == "work" && tmp[|plan.session|] == "tmp";
    var sources := Filled(Reset(h, plan.session, 0x1C0, 0, 0), source, plan.staged);
    assert !(source <= plan.session);
    assert plan.session in sources && sources[plan.session] == Directory(0x1C0, 0, 0);
    var made := Reset(sources, work, 0x1C0, plan.user, plan.group);
    ResetIsFresh(sources, work, 0x1C0, plan.user, plan.group);
    ResetElsewhere(sources, work, 0x1C0, plan.user, plan.group, plan.session);
    ResetIsFresh(made, tmp, 0x1C0, plan.user, plan.group);
    ResetElsewhere(made, tmp, 0x1C0, plan.user, plan.group, plan.session);
    ResetElsewhere(made, tmp, 0x1C0, plan.user, plan.group, work);
  }

  lemma {:induction false} SucceedsApart(h: Host, plan: Plan)
    requires Succeeds(h, plan)
    ensures !(plan.output <= plan.session)
  {
    OutputNotAbove(SessionMade(h, plan), RootsMade(h, plan), plan);
  }

  lemma {:induction false} ResetSpares(h: Host, root: Path, mode: bv12, user: nat, group: nat)
    ensures SparesOne(h, Reset(h, root, mode, user, group), root)
  {
    var after := Reset(h, root, mode, user, group);
    forall p | !(root <= p)
      ensures Same(h, after, p) || IsNewAbove(h, after, p, root)
    {
      if p in after {
        ResetOnly(h, root, mode, user, group, p);
      }
    }
  }

  lemma {:induction false} SessionMadeSpares(h: Host, plan: Plan)
    ensures Spares(h, SessionMade(h, plan), plan.session, plan.output)
  {
    var session := plan.session;
    var source, work, tmp := session + ["source"], session + ["work"], session + ["tmp"];
    var h0 := Reset(h, session, 0x1C0, 0, 0);
    ResetSpares(h, session, 0x1C0, 0, 0);
    SparesRoot(h, h0, session, session, plan.output);
    var h1 := Filled(h0, source, plan.staged);
    FilledSpares(h0, source, plan.staged);
    SparesRootToo(h, h0, h1, source, session, plan.output);
    var h2 := Reset(h1, work, 0x1C0, plan.user, plan.group);
    ResetSpares(h1, work, 0x1C0, plan.user, plan.group);
    SparesRootToo(h, h1, h2, work, session, plan.output);
    ResetSpares(h2, tmp, 0x1C0, plan.user, plan.group);
    SparesRootToo(h, h2, Reset(h2, tmp, 0x1C0, plan.user, plan.group), tmp, session, plan.output);
  }

  lemma {:induction false} AllAddedSpares(h: Host, root: Path, archives: seq<Host>)
    ensures SparesOne(h, AllAdded(h, root, archives), root)
  {
    forall p | !(root <= p)
      ensures Same(h, AllAdded(h, root, archives), p)
    {
      if p in AllAdded(h, root, archives) {
        AllAddedOnly(h, root, archives, p);
      }
      if p in h {
        AllAddedKeeps(h, root, archives, p);
      }
    }
  }

  lemma {:induction false} RootsMadeSpares(h: Host, plan: Plan)
    ensures Spares(h, RootsMade(h, plan), plan.session, plan.output)
  {
    SessionMadeSpares(h, plan);
    ResetSpares(SessionMade(h, plan), plan.output, 0x1ED, plan.user, plan.group);
    SparesRootToo(h, SessionMade(h, plan), RootsMade(h, plan), plan.output, plan.session, plan.output);
  }

  lemma {:induction false} PreparedSpares(h: Host, plan: Plan)
    ensures Spares(h, PreparedFrom(h, plan), plan.session, plan.output)
  {
    var session, output, work := plan.session, plan.output, plan.session + ["work"];
    var roots := RootsMade(h, plan);
    RootsMadeSpares(h, plan);
    var homed := roots[work + ["home"] := Directory(0x1C0, plan.user, plan.group)];
    SparesAt(roots, homed, work + ["home"], work + ["home"]);
    SparesRootToo(h, roots, homed, work + ["home"], session, output);
    AllAddedSpares(homed, work, plan.archives);
    SparesRootToo(h, homed, AllAdded(homed, work, plan.archives), work, session, output);
  }

  /** For every place in the roots there is a host whose node there does not outlive an undisturbed run. */
  lemma {:induction false} SomeoneLoses(plan: Plan, p: Path) returns (h: Host)
    requires InRoots(plan.session, plan.output, p)
    ensures !Same(h, LeftBy(h, plan), p)
  {
    h := AnotherDirectory(LeftBy(NO_HOST, plan), p);
    DirectoryForgotten(h, plan, p);
    NotSame(h, LeftBy(h, plan), LeftBy(NO_HOST, plan), p);
  }

  lemma {:induction false} AnotherDirectory(left: Host, p: Path) returns (h: Host)
    ensures h.Keys == {p} && h[p].Directory? && !Same(h, left, p)
  {
    var mode: bv12 := if p in left && left[p] == Directory(0, 0, 0) then 1 else 0;
    h := map[p := Directory(mode, 0, 0)];
  }

  lemma {:induction false} NotSame(a: Host, b: Host, c: Host, p: Path)
    requires !Same(a, c, p) && Same(b, c, p)
    ensures !Same(a, b, p)
  {
  }

  /** A directory in one of the roots makes no difference there: it is in no run's way. */
  lemma {:induction false} DirectoryForgotten(h: Host, plan: Plan, p: Path)
    requires h.Keys == {p} && h[p].Directory? && InRoots(plan.session, plan.output, p)
    ensures Same(LeftBy(h, plan), LeftBy(NO_HOST, plan), p)
  {
    if plan.session <= p {
      InSessionForgotten(h, plan, p);
    } else {
      OutputFitsAlike(h, plan, p);
      if Fits(SessionMade(h, plan), plan.output) {
        InOutputForgotten(h, plan, p);
      } else {
        InStoppedForgotten(h, plan, p);
      }
    }
  }

  lemma {:induction false} InOutputForgotten(h: Host, plan: Plan, p: Path)
    requires h.Keys == {p} && h[p].Directory? && plan.output <= p
    requires Fits(SessionMade(h, plan), plan.output) && Fits(SessionMade(NO_HOST, plan), plan.output)
    ensures Same(LeftBy(h, plan), LeftBy(NO_HOST, plan), p)
  {
    if HasRoom(RootsMade(h, plan), plan.session + ["work"] + ["home"]) {
      RoomAlike(NO_HOST, h, plan);
      InOutputReplaced(h, plan, p);
    } else {
      NoRoomAlike(h, NO_HOST, plan);
      InOutputDeleted(h, plan, p);
    }
  }

  lemma {:induction false} InStoppedForgotten(h: Host, plan: Plan, p: Path)
    requires h.Keys == {p} && h[p].Directory? && plan.output <= p
    requires !Fits(SessionMade(h, plan), plan.output) && !Fits(SessionMade(NO_HOST, plan), plan.output)
    ensures Same(LeftBy(h, plan), LeftBy(NO_HOST, plan), p)
  {
    StoppedAtOutput(h, plan, p);
    StoppedAtOutput(NO_HOST, plan, p);
  }

  lemma {:induction false} StoppedAtOutput(h: Host, plan: Plan, p: Path)
    requires Fits(h, plan.session) && !Fits(SessionMade(h, plan), plan.output) && plan.output <= p
    ensures p !in LeftBy(h, plan)
  {
    StoppedForgets(SessionMade(h, plan), plan.output, p);
  }

  lemma {:induction false} InSessionForgotten(h: Host, plan: Plan, p: Path)
    requires h.Keys == {p} && h[p].Directory? && plan.session <= p
    ensures Same(LeftBy(h, plan), LeftBy(NO_HOST, plan), p)
  {
    SessionsAgree(h, plan, p);
    SameLeft(h, NO_HOST, plan);
  }

  /** From the session root on, a run depends on nothing else. */
  lemma {:induction false} SameLeft(a: Host, b: Host, plan: Plan)
    requires Fits(a, plan.session) && Fits(b, plan.session) && SessionMade(a, plan) == SessionMade(b, plan)
    ensures LeftBy(a, plan) == LeftBy(b, plan)
  {
    SamePrepared(a, b, plan);
    if Fits(SessionMade(a, plan), plan.output) {
      if HasRoom(RootsMade(a, plan), plan.session + ["work"] + ["home"]) {
        LeftWithRoom(a, plan);
        LeftWithRoom(b, plan);
      } else {
        LeftWithoutRoom(a, plan);
        LeftWithoutRoom(b, plan);
      }
    }
  }

  lemma {:induction false} SamePrepared(a: Host, b: Host, plan: Plan)
    requires SessionMade(a, plan) == SessionMade(b, plan)
    ensures RootsMade(a, plan) == RootsMade(b, plan) && PreparedFrom(a, plan) == PreparedFrom(b, plan)
  {
  }

  lemma {:induction false} InOutputReplaced(h: Host, plan: Plan, p: Path)
    requires h.Keys == {p} && h[p].Directory? && plan.output <= p
    requires Fits(SessionMade(h, plan), plan.output) && Fits(SessionMade(NO_HOST, plan), plan.output)
    requires HasRoom(RootsMade(h, plan), plan.session + ["work"] + ["home"])
    requires HasRoom(RootsMade(NO_HOST, plan), plan.session + ["work"] + ["home"])
    ensures Same(LeftBy(h, plan), LeftBy(NO_HOST, plan), p)
  {
    LeftWithRoom(h, plan);
    LeftWithRoom(NO_HOST, plan);
    RootsForgotten(h, NO_HOST, plan, p);
  }

  lemma {:induction false} InOutputDeleted(h: Host, plan: Plan, p: Path)
    requires h.Keys == {p} && h[p].Directory? && plan.output <= p
    requires Fits(SessionMade(h, plan), plan.output) && Fits(SessionMade(NO_HOST, plan), plan.output)
    requires !HasRoom(RootsMade(h, plan), plan.session + ["work"] + ["home"])
    requires !HasRoom(RootsMade(NO_HOST, plan), plan.session + ["work"] + ["home"])
    ensures Same(LeftBy(h, plan), LeftBy(NO_HOST, plan), p)
  {
    LeftWithoutRoom(h, plan);
    LeftWithoutRoom(NO_HOST, plan);
    RootsMadeSame(h, NO_HOST, plan, p);
  }

  lemma {:induction false} NoRoomAlike(a: Host, b: Host, plan: Plan)
    requires !HasRoom(RootsMade(a, plan), plan.session + ["work"] + ["home"])
    ensures !HasRoom(RootsMade(b, plan), plan.session + ["work"] + ["home"])
  {
    if HasRoom(RootsMade(b, plan), plan.session + ["work"] + ["home"]) {
      RoomAlike(a, b, plan);
      assert false;
    }
  }

  lemma LeftWithRoom(h: Host, plan: Plan)
    requires Fits(h, plan.session) && Fits(SessionMade(h, plan), plan.output)
    requires HasRoom(RootsMade(h, plan), plan.session + ["work"] + ["home"])
    ensures LeftBy(h, plan) == PreparedFrom(h, plan)
  {
  }

  lemma LeftWithoutRoom(h: Host, plan: Plan)
    requires Fits(h, plan.session) && Fits(SessionMade(h, plan), plan.output)
    requires !HasRoom(RootsMade(h, plan), plan.session + ["work"] + ["home"])
    ensures LeftBy(h, plan) == RootsMade(h, plan)
  {
  }

  /** What was in the session root makes no difference at all. */
  lemma {:induction false} SessionsAgree(h: Host, plan: Plan, p: Path)
    requires h.Keys == {p} && plan.session <= p
    ensures SessionMade(h, plan) == SessionMade(NO_HOST, plan)
  {
    forall q
      ensures Same(SessionMade(h, plan), SessionMade(NO_HOST, plan), q)
    {
      assert q == p || Same(h, NO_HOST, q);
      SessionMadeSame(h, NO_HOST, plan, q);
    }
    SameEverywhere(SessionMade(h, plan), SessionMade(NO_HOST, plan));
  }

  lemma {:induction false} OutputFitsAlike(h: Host, plan: Plan, p: Path)
    requires h.Keys == {p} && plan.output <= p
    ensures Fits(SessionMade(h, plan), plan.output) <==> Fits(SessionMade(NO_HOST, plan), plan.output)
  {
    forall q | q in AtOrAbove(plan.output) && q != plan.output
      ensures Same(SessionMade(h, plan), SessionMade(NO_HOST, plan), q)
      ensures Same(SessionMade(NO_HOST, plan), SessionMade(h, plan), q)
    {
      assert q <= plan.output && q != p;
      SessionMadeSame(h, NO_HOST, plan, q);
    }
    if Fits(SessionMade(h, plan), plan.output) {
      FitsAlike(SessionMade(NO_HOST, plan), SessionMade(h, plan), plan.output);
    }
    if Fits(SessionMade(NO_HOST, plan), plan.output) {
      FitsAlike(SessionMade(h, plan), SessionMade(NO_HOST, plan), plan.output);
    }
  }

  lemma {:induction false} RootsMadeSame(a: Host, b: Host, plan: Plan, p: Path)
    requires plan.output <= p
    ensures Same(RootsMade(a, plan), RootsMade(b, plan), p)
  {
    ResetSame(SessionMade(a, plan), SessionMade(b, plan), plan.output, 0x1ED, plan.user, plan.group, p);
  }

  /** A reset that is stopped has deleted its tree all the same. */
  lemma {:induction false} StoppedForgets(h: Host, root: Path, p: Path)
    requires !Fits(h, root) && root <= p
    ensures p !in Stopped(h, root)
  {
    var q :| q in AtOrAbove(root) && q != root && q in h && !h[q].Directory?;
    var j: nat :| 1 <= j <= |root| && root[..j] == q;
    assert j < |root| && q in Without(h, root);
    ReachStops(Without(h, root), root, 0, j);
    assert |root[..Reach(Without(h, root), root, 0)]| < |root|;
  }

  lemma {:induction false} ReachStops(h: Host, place: Path, k: nat, j: nat)
    requires k < j <= |place| && place[..j] in h && !h[place[..j]].Directory?
    ensures Reach(h, place, k) < j
    decreases j - k
  {
    if k + 1 < j {
      ReachStops(h, place, k + 1, j);
    }
  }

  lemma {:induction false} RoomAlike(a: Host, b: Host, plan: Plan)
    requires HasRoom(RootsMade(b, plan), plan.session + ["work"] + ["home"])
    ensures HasRoom(RootsMade(a, plan), plan.session + ["work"] + ["home"])
  {
    var home := plan.session + ["work"] + ["home"];
    assert home[..|home| - 1] == plan.session + ["work"];
    RootsAlike(a, b, plan, home[..|home| - 1]);
    RootsAlike(a, b, plan, home);
  }

  /** What an undisturbed run leaves spares what any run spares. */
  lemma {:induction false} LeftSpares(h: Host, plan: Plan)
    ensures Spares(h, LeftBy(h, plan), plan.session, plan.output)
  {
    if !Fits(h, plan.session) {
      StoppedSpares(h, plan.session);
      SparesRoot(h, Stopped(h, plan.session), plan.session, plan.session, plan.output);
    } else if !Fits(SessionMade(h, plan), plan.output) {
      SessionMadeSpares(h, plan);
      StoppedSpares(SessionMade(h, plan), plan.output);
      SparesRootToo(h, SessionMade(h, plan), Stopped(SessionMade(h, plan), plan.output), plan.output,
                    plan.session, plan.output);
    } else if !HasRoom(RootsMade(h, plan), plan.session + ["work"] + ["home"]) {
      RootsMadeSpares(h, plan);
    } else {
      PreparedSpares(h, plan);
    }
  }

  lemma {:induction false} StoppedSpares(h: Host, root: Path)
    ensures SparesOne(h, Stopped(h, root), root)
  {
    var reached := root[..Reach(Without(h, root), root, 0)];
    forall p | !(root <= p)
      ensures Same(h, Stopped(h, root), p) || IsNewAbove(h, Stopped(h, root), p, root)
    {
      if p in AtOrAbove(reached) {
        assert p <= reached <= root;
      }
    }
  }

  lemma {:induction false} FitsAlike(a: Host, b: Host, root: Path)
    requires forall q :: q in AtOrAbove(root) && q != root ==> Same(a, b, q)
    requires Fits(b, root)
    ensures Fits(a, root)
  {
    forall q | q in AtOrAbove(root) && q != root && q in a
      ensures a[q].Directory?
    {
      assert Same(a, b, q);
    }
  }

  lemma {:induction false} RootsAlike(a: Host, b: Host, plan: Plan, q: Path)
    requires plan.session <= q
    ensures Same(RootsMade(a, plan), RootsMade(b, plan), q)
  {
    SessionMadeSame(a, b, plan, q);
    ResetSame(SessionMade(a, plan), SessionMade(b, plan), plan.output, 0x1ED, plan.user, plan.group, q);
  }

  /** Disjoint roots never stand in each other's way. */
  lemma {:induction false} DisjointHasRoom(h: Host, plan: Plan)
    requires !(plan.session <= plan.output) && !(plan.output <= plan.session)
    ensures HasRoom(RootsMade(h, plan), plan.session + ["work"] + ["home"])
  {
    var work := plan.session + ["work"];
    var home := work + ["home"];
    assert home[..|home| - 1] == work;
    SessionMadeIsReady(h, plan);
    InLine(plan.output, plan.session, work);
    ResetElsewhere(SessionMade(h, plan), plan.output, 0x1ED, plan.user, plan.group, work);
    HomeNotMade(h, plan);
    HomeIsElsewhere(plan);
    if home in RootsMade(h, plan) {
      ResetOnly(SessionMade(h, plan), plan.output, 0x1ED, plan.user, plan.group, home);
      assert false;
    }
  }

  lemma {:induction false} HomeNotMade(h: Host, plan: Plan)
    ensures plan.session + ["work"] + ["home"] !in SessionMade(h, plan)
  {
    var work, tmp := plan.session + ["work"], plan.session + ["tmp"];
    var home := work + ["home"];
    var sources := Filled(Reset(h, plan.session, 0x1C0, 0, 0), plan.session + ["source"], plan.staged);
    var made := Reset(sources, work, 0x1C0, plan.user, plan.group);
    NothingBeneath(sources, work, 0x1C0, plan.user, plan.group, home);
    assert |home| > |tmp|;
    if home in SessionMade(h, plan) {
      ResetOnly(made, tmp, 0x1C0, plan.user, plan.group, home);
      assert false;
    }
  }
}
