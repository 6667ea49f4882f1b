/**
 * `publish_sealed_artifact` over any history of faults and process deaths
 * (src/executor.cpp:999-1074, 1760-1804).
 */
module SealedPublication {
  import opened Outcomes
  import opened ArtifactDisk
  import opened Publication
  import PathLayout
  import AdmittedSession

  /** The private and the public name of one sealed artifact, and its retained size and digest. */
  datatype Artifact = Artifact(sha: Hash, private: Path, public: Path, want: Evidence) {
    /**
     * The two names differ, and the private one is not a temporary beside the public one.  The
     * second always holds (`SealedIsNoTemporary`); the first fails for an admitted session exactly
     * as `AdmittedSession.PublicIsSealedExactly` says.
     */
    ghost predicate Separate() {
      public != [] && private != public && !IsTemporary(private, public)
    }

    predicate PrivateExact(d: Disk) {
      Exact(sha, d, private, want)
    }

    predicate PublicExact(d: Disk) {
      Exact(sha, d, public, want)
    }

    /** The bytes are not lost. */
    predicate Safe(d: Disk) {
      PrivateExact(d) || PublicExact(d)
    }

    /**
     * From here one undisturbed run publishes: the public name is free, nothing stands in its way,
     * and the private artifact is exact; or the public one is exact already, and the private name
     * leads to a regular file or is at most missing.
     */
    predicate Ready(d: Disk) {
      || (public !in d.names && d.Clear(public) && PrivateExact(d))
      || (PublicExact(d) && Removable(d, private))
    }

    /** Published, with nothing private left. */
    predicate Settled(d: Disk) {
      PublicExact(d) && private !in d.names
    }
  }

  /**
   * No file changed its bytes, no name but the private one leads elsewhere or is gone, and only
   * the public name and temporaries beside it are new.
   */
  ghost predicate LeavesOthers(a: Artifact, before: Disk, after: Disk)
    requires a.public != []
  {
    && after.WellFormed()
    && KeepsContents(before, after)
    && (forall n :: n in before.names && n != a.private ==> KeepsName(before, after, n))
    && (forall n :: n in after.names && n !in before.names ==> IsNew(a, before, n))
  }

  /** The public name or a temporary beside it, where nothing was in the way. */
  ghost predicate IsNew(a: Artifact, before: Disk, n: Path)
    requires a.public != []
  {
    (n == a.public || IsTemporary(n, a.public)) && before.Clear(n)
  }

  /** What any number of runs, each stopped anywhere, keep. */
  ghost predicate RunKeeps(a: Artifact, before: Disk, after: Disk)
    requires a.public != []
  {
    && LeavesOthers(a, before, after)
    && (a.private in before.names && a.private !in after.names ==> a.PublicExact(after))
    && (a.private in before.names && a.private in after.names ==> KeepsName(before, after, a.private))
    && (a.public in after.names && a.public !in before.names ==> a.PublicExact(after))
    && (a.private !in before.names && a.Separate() ==> a.private !in after.names)
    && (a.public in before.names ==> after.names.Keys <= before.names.Keys)
  }

  lemma {:induction false} RunsKeep(a: Artifact, first: Disk, second: Disk, third: Disk)
    requires first.WellFormed() && a.Separate()
    requires RunKeeps(a, first, second) && RunKeeps(a, second, third)
    ensures RunKeeps(a, first, third)
  {
    RunsLeaveOthers(a, first, second, third);
    assert a.private != a.public;
    if a.PublicExact(second) {
      KeepsExact(a.sha, second, third, a.public, a.want);
    }
    assert a.public in first.names ==> KeepsName(first, second, a.public);
  }

  lemma {:induction false} RunsLeaveOthers(a: Artifact, first: Disk, second: Disk, third: Disk)
    requires a.Separate() && RunKeeps(a, first, second) && RunKeeps(a, second, third)
    ensures LeavesOthers(a, first, third)
  {
    forall i | i in first.files
      ensures i in third.files && third.files[i].(version := 0) == first.files[i].(version := 0)
    {
      assert second.files[i].(version := 0) == first.files[i].(version := 0);
    }
    forall n | n in first.names && n != a.private
      ensures KeepsName(first, third, n)
    {
      assert KeepsName(first, second, n) && KeepsName(second, third, n);
    }
    forall n | n in third.names && n !in first.names
      ensures IsNew(a, first, n)
    {
      if n in second.names {
        assert IsNew(a, first, n);
      } else {
        NewStaysNew(a, first, second, n);
      }
    }
  }

  /** Only the private name may go in between, and it only goes when there is nothing new any more. */
  lemma {:induction false} NewStaysNew(a: Artifact, first: Disk, second: Disk, n: Path)
    requires a.public != [] && LeavesOthers(a, first, second) && IsNew(a, second, n)
    requires a.private in first.names ==> a.private in second.names
    ensures IsNew(a, first, n)
  {
    forall m | m in first.names
      ensures m in second.names
    {
      assert m != a.private ==> KeepsName(first, second, m);
    }
    ClearWithFewer(first, second, n);
  }

  /** No run loses the bytes, and a state from which one quiet run publishes stays one. */
  lemma {:induction false} RunsStaySafe(a: Artifact, before: Disk, after: Disk)
    requires before.WellFormed() && a.Separate() && RunKeeps(a, before, after)
    ensures a.Safe(before) ==> a.Safe(after)
    ensures a.Ready(before) ==> a.Ready(after)
    ensures a.Settled(before) ==> a.Settled(after)
  {
    assert a.private != a.public;
    if a.public in before.names {
      KeepsExact(a.sha, before, after, a.public, a.want);
    }
    if a.private in before.names && a.private in after.names {
      KeepsExact(a.sha, before, after, a.private, a.want);
    }
  }

  /** A regular file, or a name that is at most missing. */
  predicate Removable(d: Disk, n: Path) {
    if n in d.names then d.Has(n) && d.Of(n).kind.Regular? else d.Clear(n)
  }

  /** `remove_private_sealed_artifact`. */
  method RemovePrivateSealedArtifact(kernel: Kernel, n: Path) returns (r: Result<()>)
    requires kernel.disk.WellFormed()
    modifies kernel
    ensures Moves(old(kernel.disk), kernel.disk, {n})
    ensures n in kernel.disk.names ==> KeepsName(old(kernel.disk), kernel.disk, n)
    ensures n !in old(kernel.disk).names ==> kernel.disk == old(kernel.disk)
    ensures r.Ok? ==> n !in kernel.disk.names
    ensures r.Err? ==> r.code == ArtifactCleanupFailed
    ensures old(kernel.Calm()) ==> kernel.Calm()
    ensures !Removable(old(kernel.disk), n) ==> r.Err? && kernel.disk == old(kernel.disk)
    ensures old(kernel.Calm()) && Removable(old(kernel.disk), n) ==> r.Ok?
  {
    var named, missing := kernel.Lstat(n);
    if missing {
      return Ok(());
    }
    if named.None? || !named.value.kind.Regular? {
      return Err(ArtifactCleanupFailed);
    }
    var works := kernel.Tick();
    if !works {
      return Err(ArtifactCleanupFailed);
    }
    works := kernel.Unlink(n);
    if works {
      UnlinkMoves(old(kernel.disk), n);
      works := kernel.Tick();
    }
    r := if works then Ok(()) else Err(ArtifactCleanupFailed);
  }

  /** The codes that `execute` turns into a publication failure. */
  predicate PublicationError(code: ErrorCode) {
    code in {ArtifactPublicationFailed, ArtifactCleanupFailed, ArtifactVerificationFailed}
  }

  /** What a temporary artifact made for a free public name has done so far. */
  ghost predicate Publishing(t: TemporaryArtifact, kernel: Kernel, a: Artifact)
    reads t, kernel`disk
  {
    && t.kernel == kernel
    && a.sha == kernel.sha
    && t.Valid()
    && a.public !in t.origin.names
    && (t.aim.None? || t.aim == Some(a.public))
    && (a.public in kernel.disk.names ==> ExactFile(a.sha, kernel.disk.files[t.inode], a.want))
  }

  /** An empty private file beside a name that nothing stands in the way of. */
  ghost predicate FreshCopy(t: TemporaryArtifact, kernel: Kernel, a: Artifact)
    requires t.inode in kernel.disk.files
    reads t, kernel`disk
  {
    t.home in kernel.disk.names && kernel.disk.files[t.inode].bytes == [] && kernel.disk.Clear(a.public)
  }

  /** The part of `publish_sealed_artifact` between the private file's verification and its removal. */
  method CopyAndPublish(kernel: Kernel, t: TemporaryArtifact, source: nat, a: Artifact) returns (r: Result<()>)
    requires Publishing(t, kernel, a) && t.home != a.public
    requires source in t.origin.files && t.path.Some? && t.published.None? && t.aim.None?
    modifies kernel, t
    ensures Publishing(t, kernel, a)
    ensures r.Ok? ==> t.path.None? && t.published.None? && t.home !in kernel.disk.names && a.public in kernel.disk.names
    ensures r.Err? ==> PublicationError(r.code)
    ensures old(kernel.Calm()) ==> kernel.Calm()
    ensures old(kernel.Calm() && FreshCopy(t, kernel, a)) ==>
      Evidence(a.sha(old(kernel.disk).files[source].bytes), |old(kernel.disk).files[source].bytes|) == a.want ==> r.Ok?
  {
    ghost var before := kernel.disk;
    assert KeepsName(t.origin, before, a.public);
    var copied := CopyExactArtifact(kernel, source, t.descriptor, a.want);
    HeldAfterWriting(t.origin, before, kernel.disk, t.home, t.inode, t.aim);
    if copied.Err? {
      return copied;
    }
    ghost var filled := kernel.disk;
    var published := t.Publish(a.public, a.want);
    assert kernel.disk.files[t.inode].(version := 0) == filled.files[t.inode].(version := 0);
    if published.Err? {
      return published;
    }
    var verified := t.VerifyPublishedBinding();
    if verified.Err? {
      return verified;
    }
    t.Retain();
    r := Ok(());
  }

  /** `CopyAndPublish`, then the destructor. */
  method PublishAndDestroy(kernel: Kernel, t: TemporaryArtifact, source: nat, a: Artifact) returns (r: Result<()>)
    requires Publishing(t, kernel, a) && t.home != a.public
    requires source in t.origin.files && t.path.Some? && t.published.None? && t.aim.None?
    modifies kernel, t
    ensures Moves(t.origin, kernel.disk, {t.home, a.public})
    ensures a.public in kernel.disk.names ==> a.PublicExact(kernel.disk)
    ensures r.Ok? ==> a.public in kernel.disk.names
    ensures r.Err? ==> PublicationError(r.code)
    ensures old(kernel.Calm()) ==> kernel.Calm()
    ensures old(kernel.Calm() && FreshCopy(t, kernel, a)) ==>
      Evidence(a.sha(old(kernel.disk).files[source].bytes), |old(kernel.disk).files[source].bytes|) == a.want ==> r.Ok?
  {
    r := CopyAndPublish(kernel, t, source, a);
    ghost var sealed := kernel.disk;
    t.Destroy();
    assert t.aim.None? ==> KeepsName(t.origin, kernel.disk, a.public);
    MovesMore(t.origin, kernel.disk, {t.home} + Names(t.aim), {t.home, a.public});
    assert kernel.disk.files[t.inode].(version := 0) == sealed.files[t.inode].(version := 0);
  }

  /** A temporary does not stand in the way of the name it is made for. */
  lemma {:induction false} BesideIsClear(d: Disk, home: Path, public: Path)
    requires public != [] && IsTemporary(home, public) && d.Clear(public)
    ensures Created(d, home).Clear(public)
  {
    var suffix :| home == Temporary(public, suffix);
    TemporaryDiffers(home, public);
    assert |home| == |public|;
  }

  lemma {:induction false} NewNameRuns(a: Artifact, before: Disk, after: Disk, home: Path)
    requires before.WellFormed() && a.Separate() && a.public !in before.names
    requires home !in before.names && IsTemporary(home, a.public) && Moves(before, after, {home, a.public})
    requires a.public in after.names ==> a.PublicExact(after)
    ensures RunKeeps(a, before, after) && KeepsName(before, after, a.private)
  {
    TemporaryDiffers(home, a.public);
    assert a.private !in {home, a.public};
    forall n | n in before.names
      ensures KeepsName(before, after, n)
    {
      assert n !in {home, a.public};
    }
    forall n | n in after.names && n !in before.names
      ensures n == a.public || IsTemporary(n, a.public)
    {
      assert n !in {home, a.public} ==> KeepsName(before, after, n);
    }
  }

  lemma {:induction false} RemovalRuns(a: Artifact, before: Disk, after: Disk)
    requires before.WellFormed() && a.Separate() && a.PublicExact(before)
    requires Moves(before, after, {a.private})
    requires a.private in after.names ==> KeepsName(before, after, a.private)
    ensures RunKeeps(a, before, after) && a.PublicExact(after)
  {
    assert a.public !in {a.private};
    KeepsExact(a.sha, before, after, a.public, a.want);
    forall n | n in after.names
      ensures n in before.names
    {
      assert n == a.private || KeepsName(before, after, n);
    }
  }

  /** `publish_sealed_artifact` for a free public name, up to and including the destructor. */
  method PublishFresh(kernel: Kernel, source: nat, a: Artifact) returns (r: Result<()>)
    requires kernel.disk.WellFormed() && a.Separate() && a.sha == kernel.sha
    requires a.public !in kernel.disk.names && kernel.disk.Clear(a.public)
    requires a.PrivateExact(kernel.disk) && kernel.disk.names[a.private] == source
    modifies kernel
    ensures RunKeeps(a, old(kernel.disk), kernel.disk) && KeepsName(old(kernel.disk), kernel.disk, a.private)
    ensures r.Ok? ==> a.PublicExact(kernel.disk)
    ensures r.Err? ==> PublicationError(r.code)
    ensures old(kernel.Calm()) ==> kernel.Calm() && r.Ok?
  {
    ghost var before := kernel.disk;
    var made, home := Create(kernel, a.public);
    TemporaryDiffers(home, a.public);
    assert KeepsName(before, kernel.disk, a.public);
    MovesMore(before, kernel.disk, {home}, {home, a.public});
    if made.Err? {
      NewNameRuns(a, before, kernel.disk, home);
      return Err(made.code);
    }
    BesideIsClear(before, home, a.public);
    r := PublishAndDestroy(kernel, made.value, source, a);
    NewNameRuns(a, before, kernel.disk, home);
  }

  /** The same from the opening of the private artifact, without which nothing changes. */
  method PublishRetained(kernel: Kernel, a: Artifact) returns (r: Result<()>)
    requires kernel.disk.WellFormed() && a.public != [] && !IsTemporary(a.private, a.public) && a.sha == kernel.sha
    requires a.public !in kernel.disk.names && kernel.disk.Clear(a.public)
    modifies kernel
    ensures RunKeeps(a, old(kernel.disk), kernel.disk) && KeepsName(old(kernel.disk), kernel.disk, a.private)
    ensures r.Ok? ==> a.PublicExact(kernel.disk) && Removable(kernel.disk, a.private) && a.private in kernel.disk.names
    ensures r.Err? ==> PublicationError(r.code)
    ensures !a.PrivateExact(old(kernel.disk)) ==> r.Err? && kernel.disk == old(kernel.disk)
    ensures old(kernel.Calm()) ==> kernel.Calm() && r.Ok? == a.PrivateExact(old(kernel.disk))
  {
    ghost var before := kernel.disk;
    var retained := OpenExactReadOnly(kernel, a.private, a.want, false);
    if retained.Err? {
      return Err(retained.code);
    }
    r := PublishFresh(kernel, retained.value.value, a);
    KeepsExact(kernel.sha, before, kernel.disk, a.private, a.want);
  }

  /** What the terminal record says: the evidence of a sealed success, and whose session it is. */
  datatype Terminal = Terminal(artifact: Option<Evidence>, sameSession: bool)

  /** No private sealed name has the form of a temporary, which begins with a dot. */
  lemma {:induction false} SealedIsNoTemporary(sessionRoot: Path, destination: Path)
    requires destination != []
    ensures !IsTemporary(AdmittedSession.SealedPath(sessionRoot), destination)
  {
    var n := AdmittedSession.SealedPath(sessionRoot);
    assert n[|n| - 1] == AdmittedSession.SEALED_NAME && AdmittedSession.SEALED_NAME[0] == 's';
    forall suffix
      ensures n != Temporary(destination, suffix)
    {
      var t := Temporary(destination, suffix);
      assert t[|t| - 1][0] == '.';
    }
  }

  /** A name removed from where it was, or left. */
  lemma {:induction false} RemovalLeavesOthers(a: Artifact, before: Disk, after: Disk)
    requires a.public != [] && Moves(before, after, {a.private})
    requires a.private in after.names ==> KeepsName(before, after, a.private)
    ensures LeavesOthers(a, before, after)
  {
    forall n | n in after.names
      ensures n in before.names
    {
      assert n == a.private || KeepsName(before, after, n);
    }
  }

  /**
   * What one run is for if the two names differ.  Whatever fails, and wherever the process dies, it
   * keeps what `RunKeeps` says; undisturbed, it publishes exactly from the states that are ready,
   * and from any other state it fails and changes nothing.
   */
  ghost predicate Publishes(a: Artifact, before: Disk, after: Disk, r: Result<()>, calm: bool)
    requires a.public != []
  {
    && RunKeeps(a, before, after)
    && (r.Ok? ==> a.Settled(after))
    && (a.Settled(before) ==> after == before)
    && (!a.Ready(before) ==> r.Err? && after == before)
    && (calm && a.Ready(before) ==> r.Ok?)
  }

  /**
   * What one run is if they are the same: it succeeds, undisturbed, exactly if the artifact is
   * there, and then has removed it.
   */
  ghost predicate Loses(a: Artifact, before: Disk, after: Disk, r: Result<()>, calm: bool) {
    && (r.Ok? ==> a.PublicExact(before) && a.public !in after.names)
    && (calm ==> (r.Ok? <==> a.PublicExact(before)))
  }

  /** `publish_sealed_artifact`, for any session root and any artifact path. */
  method PublishSealedArtifact(kernel: Kernel, terminal: Terminal, sessionRoot: Path, public: Path)
    returns (r: Result<()>, ghost a: Artifact)
    requires kernel.disk.WellFormed() && public != []
    modifies kernel
    ensures a.sha == kernel.sha && a.private == AdmittedSession.SealedPath(sessionRoot) && a.public == public
    ensures terminal.artifact.Some? ==> a.want == terminal.artifact.value
    ensures terminal.artifact.None? || !terminal.sameSession ==>
      r == Err(ArtifactPublicationFailed) && kernel.disk == old(kernel.disk)
    ensures LeavesOthers(a, old(kernel.disk), kernel.disk)
    ensures public in old(kernel.disk).names && !a.PublicExact(old(kernel.disk)) ==>
      r == Err(ArtifactPublicationFailed) && kernel.disk == old(kernel.disk)
    ensures public !in old(kernel.disk).names && !old(kernel.disk).Clear(public) ==>
      r == Err(ArtifactPublicationFailed) && kernel.disk == old(kernel.disk)
    ensures r.Err? ==> PublicationError(r.code)
    ensures old(kernel.Calm()) ==> kernel.Calm()
    ensures terminal.artifact.Some? && terminal.sameSession && a.private != public ==>
      Publishes(a, old(kernel.disk), kernel.disk, r, old(kernel.Calm()))
    ensures terminal.artifact.Some? && terminal.sameSession && a.private == public ==>
      Loses(a, old(kernel.disk), kernel.disk, r, old(kernel.Calm()))
  {
    var private := AdmittedSession.SealedPath(sessionRoot);
    SealedIsNoTemporary(sessionRoot, public);
    var expected := terminal.artifact.GetOr(Evidence("", 0));
    a := Artifact(kernel.sha, private, public, expected);
    if terminal.artifact.None? || !terminal.sameSession {
      return Err(ArtifactPublicationFailed), a;
    }
    ghost var before := kernel.disk;
    var published := OpenExactReadOnly(kernel, public, expected, true);
    if published.Err? {
      return Err(published.code), a;
    }
    if published.value.None? {
      r := PublishRetained(kernel, Artifact(kernel.sha, private, public, expected));
      if r.Err? {
        return;
      }
    }
    ghost var placed := kernel.disk;
    r := RemovePrivateSealedArtifact(kernel, private);
    if private != public {
      RemovalRuns(a, placed, kernel.disk);
      RunsKeep(a, before, placed, kernel.disk);
    } else {
      RemovalLeavesOthers(a, placed, kernel.disk);
    }
  }

  /** What a run keeps after others, and that the bytes are safe after it if they were at the start. */
  lemma {:induction false} OneRunMore(a: Artifact, first: Disk, second: Disk, third: Disk)
    requires first.WellFormed() && a.Separate()
    requires RunKeeps(a, first, second) && RunKeeps(a, second, third)
    ensures RunKeeps(a, first, third) && (a.Safe(first) ==> a.Safe(third)) && (a.Ready(first) ==> a.Ready(third))
  {
    RunsKeep(a, first, second, third);
    RunsStaySafe(a, first, third);
  }

  /** Every disk that the runs left keeps what one run keeps, and is safe if the first was. */
  ghost predicate AllKeep(a: Artifact, before: Disk, left: seq<Disk>)
    requires a.public != []
  {
    forall i :: 0 <= i < |left| ==> RunKeeps(a, before, left[i]) && (a.Safe(before) ==> a.Safe(left[i]))
  }

  ghost predicate AllSame(before: Disk, left: seq<Disk>) {
    forall i :: 0 <= i < |left| ==> left[i] == before
  }

  /** What any number of runs leave: ready states stay ready, and no run changes any other. */
  ghost predicate HistoryKeeps(a: Artifact, before: Disk, now: Disk, left: seq<Disk>)
    requires a.public != []
  {
    && RunKeeps(a, before, now)
    && AllKeep(a, before, left)
    && (a.Ready(before) ==> a.Ready(now))
    && (!a.Ready(before) ==> now == before && AllSame(before, left))
  }

  lemma {:induction false} HistoryStarts(a: Artifact, before: Disk)
    requires a.public != [] && before.WellFormed()
    ensures HistoryKeeps(a, before, before, [])
  {
  }

  lemma {:induction false} HistoryGoesOn(
      a: Artifact, before: Disk, started: Disk, now: Disk, left: seq<Disk>, r: Result<()>, calm: bool)
    requires before.WellFormed() && a.Separate()
    requires HistoryKeeps(a, before, started, left) && Publishes(a, started, now, r, calm)
    ensures HistoryKeeps(a, before, now, left + [now])
  {
    OneRunMore(a, before, started, now);
  }

  /** Runs that each meet the faults of their history, and may die at any call. */
  method RunHistories(
      kernel: Kernel, expected: Evidence, sessionRoot: Path, public: Path, histories: seq<seq<Fault>>,
      ghost a: Artifact)
    returns (left: seq<Disk>)
    requires kernel.disk.WellFormed() && public != []
    requires a == Artifact(kernel.sha, AdmittedSession.SealedPath(sessionRoot), public, expected)
    modifies kernel
    ensures kernel.disk.WellFormed() && |left| == |histories|
    ensures histories == [] ==> kernel.disk == old(kernel.disk)
    ensures a.private != public ==> HistoryKeeps(a, old(kernel.disk), kernel.disk, left)
  {
    ghost var before := kernel.disk;
    SealedIsNoTemporary(sessionRoot, public);
    HistoryStarts(a, before);
    left := [];
    for i := 0 to |histories|
      invariant |left| == i && kernel.disk.WellFormed()
      invariant i == 0 ==> kernel.disk == before
      invariant a.private != public ==> HistoryKeeps(a, before, kernel.disk, left)
    {
      ghost var started := kernel.disk;
      kernel.Restart(histories[i]);
      ghost var calm := kernel.Calm();
      var r, _ := PublishSealedArtifact(kernel, Terminal(Some(expected), true), sessionRoot, public);
      if a.private != public {
        HistoryGoesOn(a, before, started, kernel.disk, left, r, calm);
      }
      left := left + [kernel.disk];
    }
  }

  /**
   * A controller that restarts publication: the disks recorded range over every state a crash can
   * leave.  After them one undisturbed run publishes, if the names differ exactly from the states
   * that were ready at the start; from the others no run ever changes anything.
   */
  method PublishUntilSettled(
      kernel: Kernel, expected: Evidence, sessionRoot: Path, public: Path, histories: seq<seq<Fault>>)
    returns (r: Result<()>, left: seq<Disk>, ghost a: Artifact)
    requires kernel.disk.WellFormed() && public != []
    modifies kernel
    ensures a == Artifact(kernel.sha, AdmittedSession.SealedPath(sessionRoot), public, expected)
    ensures |left| == |histories|
    ensures a.private != public ==>
      && RunKeeps(a, old(kernel.disk), kernel.disk)
      && AllKeep(a, old(kernel.disk), left)
      && (r.Ok? ==> a.Settled(kernel.disk))
      && (r.Ok? <==> a.Ready(old(kernel.disk)))
      && (r.Err? ==> kernel.disk == old(kernel.disk) && AllSame(old(kernel.disk), left))
    ensures a.private == public && r.Ok? ==> public !in kernel.disk.names
    ensures histories == [] && a.private == public && a.PrivateExact(old(kernel.disk)) ==> r.Ok?
  {
    ghost var before := kernel.disk;
    a := Artifact(kernel.sha, AdmittedSession.SealedPath(sessionRoot), public, expected);
    SealedIsNoTemporary(sessionRoot, public);
    left := RunHistories(kernel, expected, sessionRoot, public, histories, a);
    kernel.Restart([]);
    ghost var started := kernel.disk;
    ghost var again;
    r, again := PublishSealedArtifact(kernel, Terminal(Some(expected), true), sessionRoot, public);
    if a.private != public {
      RunsKeep(a, before, started, kernel.disk);
    }
  }

  /**
   * While the private artifact is there, a public name above or beneath it is not ready: the one
   * would be a directory, the other lies beneath a regular file.  Any other free name is, exactly
   * if nothing else is in line with it.
   */
  lemma {:induction false} ReadyExactly(a: Artifact, d: Disk)
    requires d.WellFormed() && a.PrivateExact(d) && a.private != a.public
    ensures a.private < a.public || a.public < a.private ==> !a.Ready(d) && a.public !in d.names && !d.Clear(a.public)
    ensures a.public !in d.names ==> (a.Ready(d) <==> d.Clear(a.public))
    ensures a.public in d.names ==> (a.Ready(d) <==> a.PublicExact(d))
  {
    assert Above(a.private, a.public) <==> a.private < a.public;
    assert Above(a.public, a.private) <==> a.public < a.private;
  }

  /**
   * The admitted layouts in which the names are the same: one undisturbed publication of an exact
   * artifact reports success, and the artifact is gone.
   */
  method SlashedRootLosesArtifact(kernel: Kernel, expected: Evidence, view: string, root: string, output: string)
    returns (r: Result<()>)
    requires PathLayout.Named(view) && PathLayout.Named(root) && PathLayout.Named(output)
    requires view != root && view != output && root != output
    requires kernel.disk.WellFormed() && kernel.Calm()
    requires Exact(kernel.sha, kernel.disk, [root, AdmittedSession.SEALED_NAME], expected)
    modifies kernel
    ensures var raw := AdmittedSession.SharedLayout(view, root, output, [AdmittedSession.SEALED_NAME]);
      AdmittedSession.LayoutAdmitted(raw, [], []).Ok?
    ensures r.Ok? && [root, AdmittedSession.SEALED_NAME] !in kernel.disk.names
  {
    AdmittedSession.ArtifactCanBeAtSealed(view, root, output, []);
    assert [AdmittedSession.SEALED_NAME] + [] == [AdmittedSession.SEALED_NAME];
    var raw := AdmittedSession.SharedLayout(view, root, output, [AdmittedSession.SEALED_NAME]);
    var layout := AdmittedSession.LayoutAdmitted(raw, [], []).value;
    ghost var a;
    r, a := PublishSealedArtifact(kernel, Terminal(Some(expected), true), layout.sessionRoot, layout.artifact);
  }

  /**
   * The admitted layouts in which the public name lies beneath the private one: over an exact
   * artifact every run fails, whatever its faults, and so does the undisturbed one after them; no
   * run ever changes the disk.
   */
  method BeneathSealedNeverPublishes(
      kernel: Kernel, expected: Evidence, view: string, root: string, output: string, more: Path,
      histories: seq<seq<Fault>>)
    returns (r: Result<()>, left: seq<Disk>)
    requires PathLayout.Named(view) && PathLayout.Named(root) && PathLayout.Named(output)
    requires PathLayout.AllNamed(more) && more != []
    requires view != root && view != output && root != output
    requires kernel.disk.WellFormed()
    requires Exact(kernel.sha, kernel.disk, [root, AdmittedSession.SEALED_NAME], expected)
    modifies kernel
    ensures var raw := AdmittedSession.SharedLayout(view, root, output, [AdmittedSession.SEALED_NAME] + more);
      AdmittedSession.LayoutAdmitted(raw, [], []).Ok?
    ensures r.Err? && kernel.disk == old(kernel.disk)
    ensures |left| == |histories| && AllSame(old(kernel.disk), left)
  {
    AdmittedSession.ArtifactCanBeAtSealed(view, root, output, more);
    var raw := AdmittedSession.SharedLayout(view, root, output, [AdmittedSession.SEALED_NAME] + more);
    var layout := AdmittedSession.LayoutAdmitted(raw, [], []).value;
    ghost var names :=
      Artifact(kernel.sha, AdmittedSession.SealedPath(layout.sessionRoot), layout.artifact, expected);
    assert names.private < names.public;
    ReadyExactly(names, kernel.disk);
    ghost var a;
    r, left, a := PublishUntilSettled(kernel, expected, layout.sessionRoot, layout.artifact, histories);
  }
}
