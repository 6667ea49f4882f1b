/**
 * Publication of one finished file under a name, without ever replacing what the name leads to
 * (`temporary_artifact`, src/executor.cpp:752-997).
 */
module Publication {
  import opened Outcomes
  import opened ArtifactDisk

  /** No bytes changed, and only the listed names may have. */
  ghost predicate Moves(before: Disk, after: Disk, changed: set<Path>) {
    && after.WellFormed()
    && KeepsContents(before, after)
    && KeepsOtherNames(before, after, changed)
  }

  lemma {:induction false} MovesTwice(a: Disk, b: Disk, c: Disk, changed: set<Path>)
    requires Moves(a, b, changed) && Moves(b, c, changed)
    ensures Moves(a, c, changed)
  {
    forall i | i in a.files
      ensures i in c.files && c.files[i].(version := 0) == a.files[i].(version := 0)
    {
      assert b.files[i].(version := 0) == a.files[i].(version := 0);
    }
    forall n | n !in changed
      ensures KeepsName(a, c, n)
    {
      assert KeepsName(a, b, n) && KeepsName(b, c, n);
    }
  }

  lemma {:induction false} LinkMoves(d: Disk, source: Path, destination: Path)
    requires d.WellFormed() && source in d.names && destination !in d.names && d.Clear(destination)
    ensures Moves(d, Linked(d, source, destination), {destination})
  {
    LinkedWellFormed(d, source, destination);
  }

  lemma {:induction false} UnlinkMoves(d: Disk, n: Path)
    requires d.WellFormed() && n in d.names
    ensures Moves(d, Unlinked(d, n), {n})
  {
  }

  lemma {:induction false} MovesMore(before: Disk, after: Disk, changed: set<Path>, more: set<Path>)
    requires Moves(before, after, changed) && changed <= more
    ensures Moves(before, after, more)
  {
    forall n | n !in more
      ensures KeepsName(before, after, n)
    {
      assert n !in changed;
    }
  }

  function Names(aim: Option<Path>): set<Path> {
    if aim.Some? then {aim.value} else {}
  }

  /** A name that existed leads where it led; one that did not may lead to `inode` only. */
  predicate LeadsRight(origin: Disk, disk: Disk, n: Path, inode: nat) {
    if n in origin.names then KeepsName(origin, disk, n) else n in disk.names ==> disk.names[n] == inode
  }

  /** What one private file under publication has done to the disk since it was created. */
  ghost predicate Held(origin: Disk, disk: Disk, home: Path, inode: nat, aim: Option<Path>) {
    && home !in origin.names
    && inode !in origin.files
    && inode in disk.files
    && disk.files[inode].kind.Regular?
    && Moves(origin, disk, {home} + Names(aim))
    && LeadsRight(origin, disk, home, inode)
    && (aim.Some? ==> home != aim.value && LeadsRight(origin, disk, aim.value, inode))
  }

  lemma {:induction false} HeldOn(origin: Disk, before: Disk, after: Disk, home: Path, inode: nat, aim: Option<Path>)
    requires origin.WellFormed() && Held(origin, before, home, inode, aim)
    requires Moves(before, after, {home} + Names(aim))
    requires home in after.names ==> KeepsName(before, after, home)
    requires aim.Some? && aim.value in origin.names ==> KeepsName(before, after, aim.value)
    requires aim.Some? && aim.value !in origin.names && aim.value in after.names ==> after.names[aim.value] == inode
    ensures Held(origin, after, home, inode, aim)
  {
    MovesTwice(origin, before, after, {home} + Names(aim));
    assert after.files[inode].(version := 0) == before.files[inode].(version := 0);
  }

  lemma {:induction false} HeldAfterUnlink(origin: Disk, d: Disk, home: Path, inode: nat, aim: Option<Path>, n: Path)
    requires origin.WellFormed() && Held(origin, d, home, inode, aim)
    requires n in d.names && n !in origin.names && (n == home || aim == Some(n))
    ensures Held(origin, Unlinked(d, n), home, inode, aim) && Moves(d, Unlinked(d, n), {n})
  {
    UnlinkMoves(d, n);
    MovesMore(d, Unlinked(d, n), {n}, {home} + Names(aim));
    HeldOn(origin, d, Unlinked(d, n), home, inode, aim);
  }

  /** `hash_regular`: the digest and size of one inode, if its stamp is still `before` afterwards. */
  method HashRegular(kernel: Kernel, inode: nat, before: Stamp, code: ErrorCode) returns (r: Result<Evidence>)
    requires inode in kernel.disk.files
    modifies kernel`faults, kernel`dead
    ensures old(kernel.Calm()) ==> kernel.Calm()
    ensures r.Ok? ==>
      && before == StampOf(kernel.disk, inode)
      && r.value.digest == kernel.sha(kernel.disk.files[inode].bytes)
      && r.value.size == |kernel.disk.files[inode].bytes|
    ensures r.Err? ==> r.code == code
    ensures old(kernel.Calm()) && before == StampOf(kernel.disk, inode) ==> r.Ok?
  {
    var digested: Bytes := [];
    ghost var bytes := kernel.disk.files[inode].bytes;
    var done := false;
    while !done
      invariant digested <= bytes
      invariant done ==> digested == bytes
      invariant old(kernel.Calm()) ==> kernel.Calm()
      decreases !done, |bytes| - |digested|
    {
      var chunk := kernel.Read(inode, |digested|);
      if chunk.None? {
        return Err(code);
      }
      done := chunk.value == [];
      digested := digested + chunk.value;
    }
    var after := kernel.Fstat(inode);
    if after.None? || before != after.value || |digested| != before.size {
      return Err(code);
    }
    r := Ok(Evidence(kernel.sha(digested), |digested|));
  }

  lemma {:induction false} HeldAfterLink(origin: Disk, d: Disk, home: Path, inode: nat, destination: Path)
    requires origin.WellFormed() && Held(origin, d, home, inode, Some(destination))
    requires home in d.names && destination !in d.names && d.Clear(destination)
    ensures var after := Linked(d, home, destination);
      Held(origin, after, home, inode, Some(destination)) && Moves(d, after, {destination})
  {
    LinkMoves(d, home, destination);
    MovesMore(d, Linked(d, home, destination), {destination}, {home, destination});
    assert {home} + Names(Some(destination)) == {home, destination};
    assert destination !in origin.names;
    HeldOn(origin, d, Linked(d, home, destination), home, inode, Some(destination));
  }

  lemma {:induction false} HeldWhenAimed(origin: Disk, d: Disk, home: Path, inode: nat, destination: Path)
    requires origin.WellFormed() && Held(origin, d, home, inode, None) && destination != home
    ensures Held(origin, d, home, inode, Some(destination))
    ensures destination in origin.names <==> destination in d.names
  {
    assert KeepsName(origin, d, destination);
    MovesMore(origin, d, {home} + Names(None), {home} + Names(Some(destination)));
  }

  /**
   * `open_exact_read_only_artifact`, which `adopt_exact_existing` repeats step for step: open a
   * name, insist on a read-only regular file with the expected size and digest, and on the name
   * still leading to it.
   */
  method OpenExactReadOnly(kernel: Kernel, n: Path, expected: Evidence, absentIsEmpty: bool)
    returns (r: Result<Option<nat>>)
    requires kernel.disk.WellFormed()
    modifies kernel`faults, kernel`dead
    ensures old(kernel.Calm()) ==> kernel.Calm()
    ensures r.Ok? && r.value.Some? ==>
      && n in kernel.disk.names
      && r.value.value == kernel.disk.names[n]
      && Exact(kernel.sha, kernel.disk, n, expected)
    ensures r.Ok? && r.value.None? ==> absentIsEmpty && n !in kernel.disk.names && kernel.disk.Clear(n)
    ensures r.Err? ==> r.code == ArtifactPublicationFailed
    ensures old(kernel.Calm()) && Exact(kernel.sha, kernel.disk, n, expected) ==> r.Ok? && r.value.Some?
    ensures old(kernel.Calm()) && n !in kernel.disk.names && kernel.disk.Clear(n) && absentIsEmpty ==> r == Ok(None)
  {
    var opening := kernel.Open(n);
    if opening.Absent? && absentIsEmpty {
      return Ok(None);
    }
    if !opening.Opened? {
      return Err(ArtifactPublicationFailed);
    }
    var before := kernel.Fstat(opening.inode);
    if before.None? || !before.value.kind.Regular? || !before.value.readOnly {
      return Err(ArtifactPublicationFailed);
    }
    var observed :- HashRegular(kernel, opening.inode, before.value, ArtifactPublicationFailed);
    if observed != expected {
      return Err(ArtifactPublicationFailed);
    }
    var now, _ := kernel.Lstat(n);
    if now.None? || now.value != before.value {
      return Err(ArtifactPublicationFailed);
    }
    r := Ok(Some(opening.inode));
  }

  class TemporaryArtifact {
    const kernel: Kernel
    var descriptor: nat
    var path: Option<Path>
    var published: Option<Path>
    var ownsPublication: bool

    /** The disk before this artifact, its private name and inode, and the name it was published under. */
    ghost const origin: Disk
    ghost const home: Path
    ghost const inode: nat
    ghost var aim: Option<Path>
    /** No call made to clean up has been kept from leaving its name gone. */
    ghost var tidy: bool
    /** A publication of its own was retained. */
    ghost var kept: bool

    ghost predicate Core()
      reads this, kernel`disk
    {
      && origin.WellFormed()
      && Held(origin, kernel.disk, home, inode, aim)
      && descriptor in kernel.disk.files
      && (path.Some? ==> path.value == home && descriptor == inode)
      && (published.Some? ==> aim == published && path.None?)
      && (published.Some? && ownsPublication ==> descriptor == inode && aim.value !in origin.names)
      && (kept ==> path.None? && published.None? && aim.Some?)
    }

    /** Both names are accounted for, as long as cleaning up has worked. */
    ghost predicate Accounted()
      reads this, kernel`disk
    {
      && (path.None? ==> home !in kernel.disk.names)
      && (kept ==> Placed())
      && (Placed() ==> kept || (ownsPublication && published == aim))
    }

    /** The name aimed at was free and now leads to the private inode. */
    ghost predicate Placed()
      reads this, kernel`disk
    {
      aim.Some? && aim.value !in origin.names && aim.value in kernel.disk.names
    }

    ghost predicate Valid()
      reads this, kernel`disk
    {
      Core() && (tidy ==> Accounted())
    }

    constructor Holding(kernel: Kernel, home: Path, inode: nat, ghost origin: Disk)
      requires origin.WellFormed() && kernel.disk.WellFormed()
      requires Held(origin, kernel.disk, home, inode, None)
      ensures this.kernel == kernel && this.origin == origin && this.home == home && this.inode == inode
      ensures Valid() && tidy && path == Some(home) && descriptor == inode && published.None? && aim.None? && !kept
    {
      this.kernel := kernel;
      this.descriptor := inode;
      this.path := Some(home);
      this.published := None;
      this.ownsPublication := false;
      this.origin := origin;
      this.home := home;
      this.inode := inode;
      this.aim := None;
      this.tidy := true;
      this.kept := false;
    }

    /** An unlink whose failure the source ignores. */
    method Discard(n: Path)
      requires Core() && n !in origin.names && (n == home || aim == Some(n))
      modifies kernel, this`tidy
      ensures Core() && Moves(old(kernel.disk), kernel.disk, {n})
      ensures kernel.disk.names.Keys <= old(kernel.disk).names.Keys
      ensures tidy ==> old(tidy) && n !in kernel.disk.names
      ensures old(kernel.Calm()) ==> kernel.Calm() && n !in kernel.disk.names && tidy == old(tidy)
    {
      ghost var before := kernel.disk;
      var works := kernel.Unlink(n);
      tidy := tidy && n !in kernel.disk.names;
      if works {
        HeldAfterUnlink(origin, before, home, inode, aim, n);
      }
    }

    /** The destination leads to the private inode; check that, then drop the private name. */
    method Settle(destination: Path) returns (settled: bool)
      requires Core() && path == Some(home) && aim == Some(destination)
      requires destination in kernel.disk.names && kernel.disk.names[destination] == inode
      modifies kernel
      ensures Core() && Moves(old(kernel.disk), kernel.disk, {home})
      ensures settled ==> home !in kernel.disk.names
      ensures old(kernel.Calm()) ==> kernel.Calm() && settled == (home in old(kernel.disk).names)
    {
      ghost var before := kernel.disk;
      var temporary := kernel.Fstat(descriptor);
      if temporary.None? {
        return false;
      }
      var placed, _ := kernel.Lstat(destination);
      if placed.None? || temporary.value.inode != placed.value.inode || !placed.value.kind.Regular? {
        return false;
      }
      var works := kernel.SynchronizeParent();
      if !works {
        return false;
      }
      works := kernel.Unlink(path.value);
      if works {
        HeldAfterUnlink(origin, before, home, inode, aim, home);
        settled := kernel.Tick();
      } else {
        settled := false;
      }
    }

    /** Unlink the private name and synchronize; the destination holds the bytes already. */
    method DropRedundant() returns (works: bool)
      requires Valid() && path == Some(home) && published.None? && !kept
      modifies this`path, kernel
      ensures Valid() && Moves(old(kernel.disk), kernel.disk, {home})
      ensures works ==> path.None? && home !in kernel.disk.names
      ensures old(kernel.Calm()) ==> kernel.Calm() && works == (home in old(kernel.disk).names)
    {
      ghost var before := kernel.disk;
      works := kernel.Unlink(path.value);
      if works {
        HeldAfterUnlink(origin, before, home, inode, aim, home);
        path := None;
        works := kernel.Tick();
      }
    }

    /** `adopt_exact_existing`: the destination is taken; keep it if it holds the same bytes. */
    method AdoptExactExisting(destination: Path, expected: Evidence) returns (r: Result<()>)
      requires Valid() && path == Some(home) && aim == Some(destination) && published.None? && !kept
      requires destination in kernel.disk.names
      modifies this, kernel
      ensures Valid() && aim == old(aim) && kept == old(kept) && tidy == old(tidy)
      ensures Moves(old(kernel.disk), kernel.disk, {home})
      ensures r.Ok? ==> Adopted(destination) && Exact(kernel.sha, old(kernel.disk), destination, expected)
      ensures r.Err? ==> published.None? && r.code in {ArtifactPublicationFailed, ArtifactCleanupFailed}
      ensures !Exact(kernel.sha, old(kernel.disk), destination, expected) ==>
        r == Err(ArtifactPublicationFailed) && kernel.disk == old(kernel.disk) && path == old(path)
      ensures old(kernel.Calm()) ==> kernel.Calm()
      ensures old(kernel.Calm()) && home in old(kernel.disk).names ==>
        Exact(kernel.sha, old(kernel.disk), destination, expected) ==> r.Ok?
    {
      var existing :- OpenExactReadOnly(kernel, destination, expected, false);
      var works := kernel.Tick();
      if !works {
        return Err(ArtifactCleanupFailed);
      }
      works := DropRedundant();
      if !works {
        return Err(ArtifactCleanupFailed);
      }
      descriptor := existing.value;
      published := Some(destination);
      ownsPublication := false;
      r := Ok(());
    }

    ghost predicate Adopted(destination: Path)
      reads this, kernel`disk
    {
      && published == Some(destination)
      && !ownsPublication
      && destination in kernel.disk.names
      && kernel.disk.names[destination] == descriptor
      && home !in kernel.disk.names
    }

    ghost predicate Owned(destination: Path)
      reads this, kernel`disk
    {
      && published == Some(destination)
      && ownsPublication
      && destination in kernel.disk.names
      && kernel.disk.names[destination] == descriptor == inode
      && home !in kernel.disk.names
    }

    /** Remember the name the artifact is published under. */
    ghost method Aim(destination: Path)
      requires Valid() && destination != home && (aim.None? || aim == Some(destination))
      modifies this`aim
      ensures Valid() && aim == Some(destination)
    {
      if aim.None? {
        HeldWhenAimed(origin, kernel.disk, home, inode, destination);
        aim := Some(destination);
      }
    }

    /** The rest of `publish` once the link exists; every failure takes the destination away again. */
    method PublishLinked(destination: Path) returns (r: Result<()>)
      requires Core() && path == Some(home) && published.None?
      requires aim == Some(destination) && destination !in origin.names
      requires destination in kernel.disk.names && kernel.disk.names[destination] == inode
      modifies this, kernel
      ensures Valid() && aim == old(aim) && kept == old(kept)
      ensures Moves(old(kernel.disk), kernel.disk, {home, destination})
      ensures r.Ok? ==> Owned(destination)
      ensures r.Err? ==> published.None? && r.code == ArtifactPublicationFailed
      ensures old(kernel.Calm()) ==> kernel.Calm() && tidy == old(tidy) && r.Ok? == (home in old(kernel.disk).names)
    {
      ghost var before := kernel.disk;
      var settled := Settle(destination);
      MovesMore(before, kernel.disk, {home}, {home, destination});
      if !settled {
        ghost var settling := kernel.disk;
        Discard(destination);
        MovesMore(settling, kernel.disk, {destination}, {home, destination});
        MovesTwice(before, settling, kernel.disk, {home, destination});
        return Err(ArtifactPublicationFailed);
      }
      path := None;
      published := Some(destination);
      ownsPublication := true;
      r := Ok(());
    }

    /**
     * `publish`: link the private name to the destination, which must be free or hold the same
     * bytes.  What is published already has no private name left, and is not published again.
     */
    method Publish(destination: Path, expected: Evidence) returns (r: Result<()>)
      requires Valid() && destination != home && (aim.None? || aim == Some(destination))
      modifies this, kernel
      ensures Valid() && aim == Some(destination) && kept == old(kept)
      ensures old(path.None?) ==> r.Err? && kernel.disk == old(kernel.disk) && path.None?
      ensures old(path.None?) ==> published == old(published) && ownsPublication == old(ownsPublication)
      ensures Moves(old(kernel.disk), kernel.disk, {home, destination})
      ensures destination in old(kernel.disk).names ==> KeepsName(old(kernel.disk), kernel.disk, destination)
      ensures r.Ok? && destination !in old(kernel.disk).names ==> Owned(destination)
      ensures r.Ok? && destination in old(kernel.disk).names ==>
        Adopted(destination) && Exact(kernel.sha, old(kernel.disk), destination, expected)
      ensures r.Err? ==> published == old(published) && r.code in {ArtifactPublicationFailed, ArtifactCleanupFailed}
      ensures destination in old(kernel.disk).names && !Exact(kernel.sha, old(kernel.disk), destination, expected) ==>
        r == Err(ArtifactPublicationFailed) && kernel.disk == old(kernel.disk) && path == old(path)
      ensures old(kernel.Calm()) ==> kernel.Calm() && tidy == old(tidy)
      ensures old(kernel.Calm() && path.Some? && home in kernel.disk.names) ==>
        (r.Ok? <==> if destination in old(kernel.disk).names
                    then Exact(kernel.sha, old(kernel.disk), destination, expected)
                    else old(kernel.disk).Clear(destination))
    {
      ghost var before := kernel.disk;
      Aim(destination);
      var linking := kernel.Link(path, destination);
      if linking.LinkExists? {
        r := AdoptExactExisting(destination, expected);
        MovesMore(before, kernel.disk, {home}, {home, destination});
        return;
      }
      if !linking.LinkMade? {
        return Err(ArtifactPublicationFailed);
      }
      HeldAfterLink(origin, before, home, inode, destination);
      r := PublishLinked(destination);
      MovesMore(before, Linked(before, home, destination), {destination}, {home, destination});
      MovesTwice(before, Linked(before, home, destination), kernel.disk, {home, destination});
    }

    /** The published name leads to a read-only regular file, the one behind the descriptor. */
    ghost predicate Bound()
      requires kernel.disk.WellFormed()
      reads this, kernel`disk
    {
      && published.Some?
      && published.value in kernel.disk.names
      && kernel.disk.names[published.value] == descriptor
      && kernel.disk.Of(published.value).kind.Regular?
      && kernel.disk.Of(published.value).readOnly
    }

    /** `verify_published_binding`. */
    method VerifyPublishedBinding() returns (r: Result<()>)
      requires Valid()
      modifies kernel`faults, kernel`dead
      ensures r.Ok? ==> Bound()
      ensures r.Err? ==> r.code == ArtifactVerificationFailed
      ensures old(kernel.Calm()) ==> kernel.Calm() && r.Ok? == Bound()
    {
      if published.None? {
        return Err(ArtifactVerificationFailed);
      }
      var held := kernel.Fstat(descriptor);
      if held.None? {
        return Err(ArtifactVerificationFailed);
      }
      var named, _ := kernel.Lstat(published.value);
      if named.None? || held.value != named.value || !named.value.kind.Regular? || !named.value.readOnly {
        return Err(ArtifactVerificationFailed);
      }
      r := Ok(());
    }

    /** Does the published name still lead to the inode behind the descriptor, as far as can be told? */
    method StillOwned() returns (owned: bool)
      requires Valid() && published.Some?
      modifies kernel`faults, kernel`dead
      ensures owned ==> published.value in kernel.disk.names && kernel.disk.names[published.value] == descriptor
      ensures old(kernel.Calm()) ==>
        && kernel.Calm()
        && owned == (published.value in kernel.disk.names && kernel.disk.names[published.value] == descriptor)
    {
      var held := kernel.Fstat(descriptor);
      if held.None? {
        return false;
      }
      var named, _ := kernel.Lstat(published.value);
      owned := named.Some? && named.value.inode == held.value.inode;
    }

    /** `rollback`: take back a publication of its own; an adopted name is only forgotten. */
    method Rollback() returns (r: Result<()>)
      requires Valid()
      modifies this, kernel
      ensures Valid() && aim == old(aim) && kept == old(kept) && tidy == old(tidy) && path == old(path)
      ensures Moves(old(kernel.disk), kernel.disk, Names(old(published)))
      ensures kernel.disk.names.Keys <= old(kernel.disk).names.Keys
      ensures r.Ok? ==> published.None?
      ensures r.Err? ==> published == old(published) && ownsPublication == old(ownsPublication)
      ensures r.Ok? && old(published.Some? && ownsPublication) ==> aim.value !in kernel.disk.names
      ensures !old(ownsPublication) ==> r.Ok? && kernel.disk == old(kernel.disk)
      ensures r.Err? ==> r.code == ArtifactCleanupFailed
      ensures old(kernel.Calm()) ==> kernel.Calm()
      ensures old(kernel.Calm() && (published.Some? && ownsPublication ==> published.value in kernel.disk.names)) ==>
        r.Ok?
    {
      if published.None? {
        return Ok(());
      }
      if !ownsPublication {
        published := None;
        return Ok(());
      }
      var owned := StillOwned();
      if !owned {
        return Err(ArtifactCleanupFailed);
      }
      var works := kernel.Tick();
      if !works {
        return Err(ArtifactCleanupFailed);
      }
      r := UnlinkPublished();
      if r.Ok? {
        published := None;
      }
    }

    method UnlinkPublished() returns (r: Result<()>)
      requires Valid() && published.Some? && ownsPublication
      modifies kernel
      ensures Valid() && Moves(old(kernel.disk), kernel.disk, Names(published))
      ensures kernel.disk.names.Keys <= old(kernel.disk).names.Keys
      ensures r.Ok? ==> aim.value !in kernel.disk.names
      ensures r.Err? ==> r.code == ArtifactCleanupFailed
      ensures old(kernel.Calm()) ==> kernel.Calm() && r.Ok? == (published.value in old(kernel.disk).names)
    {
      ghost var before := kernel.disk;
      var works := kernel.Unlink(published.value);
      if !works {
        return Err(ArtifactCleanupFailed);
      }
      HeldAfterUnlink(origin, before, home, inode, aim, aim.value);
      works := kernel.Tick();
      r := if works then Ok(()) else Err(ArtifactCleanupFailed);
    }

    /** `retain`: the publication stands, unless a rollback that then failed has taken its name away. */
    method Retain()
      requires Valid()
      modifies this
      ensures Valid() && published.None? && aim == old(aim) && path == old(path) && tidy == old(tidy)
      ensures kept == old(kept || (published.Some? && ownsPublication && published.value in kernel.disk.names))
    {
      kept := kept || (published.Some? && ownsPublication && published.value in kernel.disk.names);
      published := None;
      ownsPublication := false;
    }

    /**
     * The destructor.  With the clean-up undisturbed the private name is gone, and the name aimed
     * at exists exactly if it did before or an owned publication was retained.
     */
    method Destroy()
      requires Valid()
      modifies this, kernel
      ensures Held(origin, kernel.disk, home, inode, aim)
      ensures Moves(old(kernel.disk), kernel.disk, {home} + Names(aim))
      ensures kernel.disk.names.Keys <= old(kernel.disk).names.Keys
      ensures old(path.None? && published.None?) ==> kernel.disk == old(kernel.disk)
      ensures old(kernel.Calm()) ==> kernel.Calm() && tidy == old(tidy)
      ensures tidy ==>
        && home !in kernel.disk.names
        && (aim.Some? ==> (aim.value in kernel.disk.names <==> aim.value in origin.names || kept))
      ensures aim == old(aim) && kept == old(kept)
    {
      if path.Some? {
        Discard(path.value);
        path := None;
      }
      if published.Some? && ownsPublication {
        var owned := StillOwned();
        if owned {
          Discard(published.value);
        } else {
          tidy := tidy && !(published.value in kernel.disk.names && kernel.disk.names[published.value] == descriptor);
        }
      }
    }
  }
  lemma {:induction false} HeldOnceCreated(origin: Disk, home: Path)
    requires origin.WellFormed() && home !in origin.names && origin.Clear(home)
    ensures Held(origin, Created(origin, home), home, origin.next, None)
  {
    CreatedWellFormed(origin, home);
    var d := Created(origin, home);
    assert d.names[home] == origin.next && d.files[origin.next].kind.Regular?;
  }

  /** The constructor of `temporary_artifact`: a fresh private file beside the destination. */
  method Create(kernel: Kernel, destination: Path) returns (r: Result<TemporaryArtifact>, ghost home: Path)
    requires destination != [] && kernel.disk.WellFormed()
    modifies kernel
    ensures home !in old(kernel.disk).names && IsTemporary(home, destination)
    ensures Moves(old(kernel.disk), kernel.disk, {home})
    ensures r.Ok? ==>
      && fresh(r.value)
      && r.value.kernel == kernel
      && r.value.origin == old(kernel.disk)
      && r.value.home == home
      && r.value.Valid()
      && r.value.path == Some(home)
      && r.value.published.None?
      && r.value.aim.None?
      && r.value.tidy
      && !r.value.kept
      && kernel.disk == Created(old(kernel.disk), home)
      && r.value.inode == old(kernel.disk).next
    ensures home in kernel.disk.names ==> old(kernel.disk).Clear(home)
    ensures r.Err? ==> r.code == ArtifactPublicationFailed
    ensures old(kernel.Calm()) ==> kernel.Calm() && r.Ok? == !old(kernel.disk).Obstructed(destination)
    ensures old(kernel.Calm()) && r.Err? ==> kernel.disk == old(kernel.disk)
  {
    ghost var origin := kernel.disk;
    FreshTemporary(destination, origin.names.Keys, 0);
    ghost var k :| k >= 0 && Temporary(destination, Filler(k)) !in origin.names.Keys;
    home := Temporary(destination, Filler(k));
    var works := kernel.Tick();
    if !works {
      return Err(ArtifactPublicationFailed), home;
    }
    var made := kernel.Mkstemp(destination);
    if made.None? {
      return Err(ArtifactPublicationFailed), home;
    }
    home := made.value;
    var descriptor := kernel.disk.names[made.value];
    HeldOnceCreated(origin, home);
    works := kernel.Tick();
    if !works {
      var _ := kernel.Unlink(made.value);
      assert Moves(origin, kernel.disk, {home});
      return Err(ArtifactPublicationFailed), home;
    }
    var artifact := new TemporaryArtifact.Holding(kernel, made.value, descriptor, origin);
    r := Ok(artifact);
  }

  /** Only the bytes, the mode and the version of one regular file differ. */
  ghost predicate OnlyInode(before: Disk, after: Disk, inode: nat) {
    && inode in before.files
    && before.files[inode].kind.Regular?
    && inode in after.files
    && after.files[inode].kind.Regular?
    && after == before.(files := before.files[inode := after.files[inode]])
  }

  lemma {:induction false} HeldAfterWriting(
      origin: Disk, before: Disk, after: Disk, home: Path, inode: nat, aim: Option<Path>)
    requires Held(origin, before, home, inode, aim) && OnlyInode(before, after, inode)
    ensures Held(origin, after, home, inode, aim)
  {
  }

  /** `write_all`. */
  method WriteAll(kernel: Kernel, inode: nat, data: Bytes) returns (works: bool)
    requires inode in kernel.disk.files && kernel.disk.files[inode].kind.Regular?
    modifies kernel
    ensures OnlyInode(old(kernel.disk), kernel.disk, inode)
    ensures works ==> kernel.disk.files[inode].bytes == old(kernel.disk).files[inode].bytes + data
    ensures old(kernel.Calm()) ==> kernel.Calm() && works
  {
    var offset := 0;
    ghost var before := kernel.disk;
    assert before == before.(files := before.files[inode := before.files[inode]]);
    while offset < |data|
      invariant offset <= |data|
      invariant OnlyInode(before, kernel.disk, inode)
      invariant kernel.disk.files[inode].bytes == before.files[inode].bytes + data[..offset]
      invariant old(kernel.Calm()) ==> kernel.Calm()
    {
      var count := kernel.Write(inode, data[offset..]);
      if count == 0 {
        return false;
      }
      assert data[..offset] + data[offset..][..count] == data[..offset + count];
      offset := offset + count;
    }
    works := true;
  }

  /** `copy_exact_artifact`: the private file receives the source's bytes, is sealed and re-read. */
  method CopyExactArtifact(kernel: Kernel, source: nat, destination: nat, expected: Evidence) returns (r: Result<()>)
    requires source in kernel.disk.files && destination in kernel.disk.files && source != destination
    requires kernel.disk.files[destination].kind.Regular?
    modifies kernel
    ensures OnlyInode(old(kernel.disk), kernel.disk, destination)
    ensures r.Ok? ==> ExactFile(kernel.sha, kernel.disk.files[destination], expected)
    ensures r.Err? ==> r.code == ArtifactPublicationFailed
    ensures old(kernel.Calm()) ==> kernel.Calm()
    ensures old(kernel.Calm() && kernel.disk.files[destination].bytes == []) ==>
      var bytes := old(kernel.disk).files[source].bytes;
      Evidence(kernel.sha(bytes), |bytes|) == expected ==> r.Ok?
  {
    ghost var before := kernel.disk;
    ghost var bytes := before.files[source].bytes;
    assert before == before.(files := before.files[destination := before.files[destination]]);
    var offset := 0;
    var done := false;
    while !done
      invariant offset <= |bytes| && (done ==> offset == |bytes|)
      invariant OnlyInode(before, kernel.disk, destination)
      invariant kernel.disk.files[destination].bytes == before.files[destination].bytes + bytes[..offset]
      invariant old(kernel.Calm()) ==> kernel.Calm()
      decreases !done, |bytes| - offset
    {
      var chunk := kernel.Read(source, offset);
      if chunk.None? {
        return Err(ArtifactPublicationFailed);
      }
      done := chunk.value == [];
      if !done {
        var works := WriteAll(kernel, destination, chunk.value);
        if !works {
          return Err(ArtifactPublicationFailed);
        }
        assert bytes[..offset] + chunk.value == bytes[..offset + |chunk.value|];
        offset := offset + |chunk.value|;
      }
    }
    assert bytes[..offset] == bytes;
    assert before.files[destination].bytes == [] ==> kernel.disk.files[destination].bytes == bytes;
    var works := kernel.MakeReadOnly(destination);
    if works {
      works := kernel.Tick();
    }
    if !works {
      return Err(ArtifactPublicationFailed);
    }
    var stamp := kernel.Fstat(destination);
    if stamp.None? || !stamp.value.kind.Regular? || !stamp.value.readOnly {
      return Err(ArtifactPublicationFailed);
    }
    var observed :- HashRegular(kernel, destination, stamp.value, ArtifactPublicationFailed);
    if observed != expected {
      return Err(ArtifactPublicationFailed);
    }
    r := Ok(());
  }

  datatype Use = Publish | Verify | Rollback | Retain

  /**
   * Any sequence of uses of one temporary artifact, from constructor to destructor.  With the
   * clean-up undisturbed the private name is gone, and the destination is there exactly if it was
   * before or a publication of its own was retained that still had its name: a rollback that
   * unlinked the name and could not synchronize is an error, and `retain` may follow it.
   */
  method Lifetime(kernel: Kernel, destination: Path, expected: Evidence, uses: seq<Use>)
    returns (retained: bool, ghost undone: bool, ghost home: Path, ghost tidy: bool)
    requires destination != [] && kernel.disk.WellFormed()
    modifies kernel
    ensures home !in old(kernel.disk).names && IsTemporary(home, destination)
    ensures Moves(old(kernel.disk), kernel.disk, {home, destination})
    ensures destination in old(kernel.disk).names ==> KeepsName(old(kernel.disk), kernel.disk, destination)
    ensures tidy ==>
      && home !in kernel.disk.names
      && (destination in kernel.disk.names <==> destination in old(kernel.disk).names || (retained && !undone))
    ensures old(kernel.Calm()) ==> tidy && !undone
  {
    ghost var origin := kernel.disk;
    retained, undone, tidy := false, false, true;
    var made;
    made, home := Create(kernel, destination);
    TemporaryDiffers(home, destination);
    assert KeepsName(origin, kernel.disk, destination);
    MovesMore(origin, kernel.disk, {home}, {home, destination});
    if made.Err? {
      tidy := home !in kernel.disk.names;
      return;
    }
    var artifact := made.value;
    for i := 0 to |uses|
      invariant artifact.kernel == kernel && artifact.origin == origin && artifact.home == home && fresh(artifact)
      invariant artifact.Valid()
      invariant artifact.aim.None? || artifact.aim == Some(destination)
      invariant artifact.kept <==> retained && !undone
      invariant if undone then Undone(artifact) else Standing(artifact)
      invariant old(kernel.Calm()) ==> kernel.Calm() && artifact.tidy && !undone
    {
      match uses[i]
      case Publish =>
        var _ := artifact.Publish(destination, expected);
      case Verify =>
        var _ := artifact.VerifyPublishedBinding();
      case Rollback =>
        var rolledBack := artifact.Rollback();
        undone := undone || (rolledBack.Err? && !Standing(artifact));
      case Retain =>
        retained := retained || (artifact.published.Some? && artifact.ownsPublication);
        artifact.Retain();
    }
    artifact.Destroy();
    MovesMore(origin, kernel.disk, {home} + Names(artifact.aim), {home, destination});
    assert KeepsName(origin, kernel.disk, destination) || artifact.aim.Some?;
    tidy := artifact.tidy;
  }

  /** A publication of its own is still there. */
  ghost predicate Standing(artifact: TemporaryArtifact)
    reads artifact, artifact.kernel`disk
  {
    artifact.published.Some? && artifact.ownsPublication ==> artifact.published.value in artifact.kernel.disk.names
  }

  /** Its name is gone, and there is no private one left to link again. */
  ghost predicate Undone(artifact: TemporaryArtifact)
    reads artifact, artifact.kernel`disk
  {
    artifact.path.None? && artifact.aim.Some? && artifact.aim.value !in artifact.kernel.disk.names
  }
}
