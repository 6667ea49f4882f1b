/**
 * Sealing one archive under the private name of its session, and the publication that starts from
 * it (src/executor.cpp:724-747, 1326-1348, 1685-1739, 1760-1804).
 */
module PrivateSealing {
  import opened Outcomes
  import opened ArtifactDisk
  import opened Publication
  import opened SealedPublication
  import AdmittedSession

  /**
   * What `encode_artifact` does to the temporary file, which is empty: the writer's callbacks, then
   * the read-only mode and `fsync`.
   */
  method EncodeInto(kernel: Kernel, inode: nat, blocks: seq<Bytes>) returns (r: Result<()>)
    requires inode in kernel.disk.files && kernel.disk.files[inode].kind.Regular?
    modifies kernel
    ensures OnlyInode(old(kernel.disk), kernel.disk, inode)
    ensures r.Ok? ==>
      && kernel.disk.files[inode].readOnly
      && kernel.disk.files[inode].bytes == old(kernel.disk).files[inode].bytes + Concat(blocks)
    ensures r.Err? ==> r.code == ArtifactEncodingFailed
    ensures old(kernel.Calm()) ==> kernel.Calm() && r.Ok?
  {
    ghost var before := kernel.disk;
    assert before == before.(files := before.files[inode := before.files[inode]]);
    for i := 0 to |blocks|
      invariant OnlyInode(before, kernel.disk, inode)
      invariant kernel.disk.files[inode].bytes == before.files[inode].bytes + Concat(blocks[..i])
      invariant old(kernel.Calm()) ==> kernel.Calm()
    {
      var written := WriteAll(kernel, inode, blocks[i]);
      if !written {
        return Err(ArtifactEncodingFailed);
      }
      assert blocks[..i + 1][..i] == blocks[..i];
    }
    assert blocks[..|blocks|] == blocks;
    var works := kernel.MakeReadOnly(inode);
    if works {
      works := kernel.Tick();
    }
    r := if works then Ok(()) else Err(ArtifactEncodingFailed);
  }

  /** `hash_artifact`. */
  method HashArtifact(kernel: Kernel, inode: nat) returns (r: Result<Evidence>)
    requires inode in kernel.disk.files
    modifies kernel`faults, kernel`dead
    ensures r.Ok? ==>
      && r.value == Evidence(kernel.sha(kernel.disk.files[inode].bytes), |kernel.disk.files[inode].bytes|)
      && kernel.disk.files[inode].kind.Regular? && kernel.disk.files[inode].readOnly
    ensures r.Err? ==> r.code == ArtifactVerificationFailed
    ensures old(kernel.Calm()) ==> kernel.Calm()
    ensures old(kernel.Calm()) && kernel.disk.files[inode].kind.Regular? && kernel.disk.files[inode].readOnly ==> r.Ok?
  {
    var before := kernel.Fstat(inode);
    if before.None? || !before.value.kind.Regular? || !before.value.readOnly {
      return Err(ArtifactVerificationFailed);
    }
    r := HashRegular(kernel, inode, before.value, ArtifactVerificationFailed);
  }

  /** What is at the name is exact for this evidence. */
  ghost predicate Placed(t: TemporaryArtifact, kernel: Kernel, sealed: Path, evidence: Evidence)
    reads t, kernel`disk
  {
    && t.kernel == kernel
    && t.Valid() && !t.kept
    && t.published == Some(sealed)
    && Exact(kernel.sha, kernel.disk, sealed, evidence)
    && kernel.disk.names[sealed] == t.descriptor
  }

  /**
   * From the encoding to `publish`: whatever digest and size come out, they are those of the bytes
   * at the name.  What the second inspection of the payload says is a parameter.
   */
  method EncodeAndPublish(
      kernel: Kernel, t: TemporaryArtifact, sealed: Path, blocks: seq<Bytes>, reinspected: Result<()>)
    returns (r: Result<Evidence>)
    requires t.kernel == kernel && t.Valid() && t.path.Some? && t.published.None? && t.aim.None? && !t.kept
    requires t.home != sealed && t.inode in kernel.disk.files
    modifies kernel, t
    ensures t.Valid() && !t.kept && (t.aim.None? || t.aim == Some(sealed))
    ensures r.Ok? ==> Placed(t, kernel, sealed, r.value) && reinspected.Ok?
    ensures r.Ok? && old(kernel.disk).files[t.inode].bytes == [] ==>
      r.value == Evidence(kernel.sha(Concat(blocks)), |Concat(blocks)|)
    ensures old(kernel.Calm()) ==> kernel.Calm() && (old(t.tidy) ==> t.tidy)
    ensures old(kernel.Calm() && t.home in kernel.disk.names) && reinspected.Ok? ==>
      sealed !in old(kernel.disk).names && old(kernel.disk).Clear(sealed) ==> r.Ok?
  {
    ghost var before := kernel.disk;
    var encoded := EncodeInto(kernel, t.descriptor, blocks);
    HeldAfterWriting(t.origin, before, kernel.disk, t.home, t.inode, t.aim);
    assert before.files[t.inode].bytes == [] ==> before.files[t.inode].bytes + Concat(blocks) == Concat(blocks);
    if encoded.Err? {
      return Err(encoded.code);
    }
    if reinspected.Err? {
      return Err(reinspected.code);
    }
    r := HashArtifact(kernel, t.descriptor);
    if r.Err? {
      return;
    }
    ghost var hashed := kernel.disk;
    var published := t.Publish(sealed, r.value);
    assert kernel.disk.files[t.inode].(version := 0) == hashed.files[t.inode].(version := 0);
    if published.Err? {
      return Err(published.code);
    }
    if sealed in hashed.names {
      KeepsExact(kernel.sha, hashed, kernel.disk, sealed, r.value);
    }
  }

  /** The inner `try`: an unchanged stamp around the image library's verdict, and the name still bound. */
  method VerifyPublished(kernel: Kernel, t: TemporaryArtifact, image: Result<()>) returns (r: Result<()>)
    requires t.kernel == kernel && t.Valid()
    modifies kernel`faults, kernel`dead
    ensures old(kernel.Calm()) ==> kernel.Calm()
    ensures old(kernel.Calm()) && image.Ok? && t.Bound() ==> r.Ok?
    ensures r.Ok? ==> image.Ok? && t.Bound()
  {
    var before := kernel.Fstat(t.descriptor);
    if before.None? {
      return Err(ArtifactVerificationFailed);
    }
    if image.Err? {
      return image;
    }
    var after := kernel.Fstat(t.descriptor);
    if before != after {
      return Err(ArtifactVerificationFailed);
    }
    r := t.VerifyPublishedBinding();
  }

  /** Where an attempt has come to before its destructor: kept and exact, or taken back. */
  ghost predicate Attempted(t: TemporaryArtifact, kernel: Kernel, sealed: Path, r: Result<Evidence>)
    reads t, kernel`disk
  {
    && t.kernel == kernel && t.Valid()
    && (t.aim.None? || t.aim == Some(sealed))
    && (r.Ok? ==> t.path.None? && t.published.None? && Exact(kernel.sha, kernel.disk, sealed, r.value))
    && (r.Ok? && sealed !in t.origin.names ==> t.aim.Some?)
    && (t.kept ==> r.Ok?)
  }

  /** The attempt from its first byte to `retain` or `rollback`. */
  method Attempt(
      kernel: Kernel, t: TemporaryArtifact, sealed: Path, blocks: seq<Bytes>, reinspected: Result<()>,
      image: Result<()>)
    returns (r: Result<Evidence>)
    requires t.kernel == kernel && t.Valid() && t.path.Some? && t.published.None? && t.aim.None? && !t.kept
    requires t.home != sealed && t.inode in kernel.disk.files && kernel.disk.files[t.inode].bytes == []
    modifies kernel, t
    ensures Attempted(t, kernel, sealed, r)
    ensures r.Ok? ==> r.value == Evidence(kernel.sha(Concat(blocks)), |Concat(blocks)|) && reinspected.Ok? && image.Ok?
    ensures old(kernel.Calm()) ==> kernel.Calm() && (old(t.tidy) ==> t.tidy)
    ensures old(kernel.Calm() && t.home in kernel.disk.names) && reinspected.Ok? && image.Ok? ==>
      sealed !in old(kernel.disk).names && old(kernel.disk).Clear(sealed) ==> r.Ok?
  {
    r := EncodeAndPublish(kernel, t, sealed, blocks, reinspected);
    if r.Err? {
      return;
    }
    var verified := VerifyPublished(kernel, t, image);
    if verified.Ok? {
      t.Retain();
    } else {
      var rolledBack := t.Rollback();
      r := Err(if rolledBack.Err? then rolledBack.code else verified.code);
    }
  }

  /**
   * The sealing attempt of `execute_sealed`, destructor included.  Success leaves the private name
   * exact for the digest and size that the result records; a failure that is cleaned up leaves no
   * name behind.
   */
  method SealArtifact(
      kernel: Kernel, sealed: Path, blocks: seq<Bytes>, reinspected: Result<()>, image: Result<()>)
    returns (r: Result<Evidence>, ghost home: Path, ghost tidy: bool)
    requires kernel.disk.WellFormed() && sealed != []
    modifies kernel
    ensures home !in old(kernel.disk).names && IsTemporary(home, sealed)
    ensures Moves(old(kernel.disk), kernel.disk, {home, sealed})
    ensures sealed in old(kernel.disk).names ==> KeepsName(old(kernel.disk), kernel.disk, sealed)
    ensures r.Ok? ==>
      && Exact(kernel.sha, kernel.disk, sealed, r.value)
      && r.value == Evidence(kernel.sha(Concat(blocks)), |Concat(blocks)|)
      && reinspected.Ok? && image.Ok?
    ensures tidy ==> home !in kernel.disk.names
    ensures tidy && r.Err? ==> KeepsName(old(kernel.disk), kernel.disk, sealed)
    ensures old(kernel.Calm()) ==> kernel.Calm() && tidy
    ensures old(kernel.Calm()) && reinspected.Ok? && image.Ok? && sealed !in old(kernel.disk).names ==>
      old(kernel.disk).Clear(sealed) ==> r.Ok?
  {
    ghost var origin := kernel.disk;
    var made;
    made, home := Create(kernel, sealed);
    tidy := home !in kernel.disk.names;
    TemporaryDiffers(home, sealed);
    assert KeepsName(origin, kernel.disk, sealed);
    MovesMore(origin, kernel.disk, {home}, {home, sealed});
    if made.Err? {
      return Err(made.code), home, tidy;
    }
    if origin.Clear(sealed) {
      BesideIsClear(origin, home, sealed);
    }
    var t := made.value;
    r := Attempt(kernel, t, sealed, blocks, reinspected, image);
    t.Destroy();
    tidy := t.tidy;
    MovesMore(origin, kernel.disk, {home} + Names(t.aim), {home, sealed});
    assert t.aim.None? ==> KeepsName(origin, kernel.disk, sealed);
  }

  /**
   * A session from its sealing to its publication, over any faults between: once the sealing has
   * succeeded, nothing is assumed of the private artifact any more.  The undisturbed run publishes
   * exactly if the public name is free and nothing stands in its way, or is exact already.
   */
  method SealThenPublish(
      kernel: Kernel, sessionRoot: Path, public: Path, blocks: seq<Bytes>, reinspected: Result<()>,
      image: Result<()>, histories: seq<seq<Fault>>)
    returns (sealing: Result<Evidence>, r: Result<()>, left: seq<Disk>, ghost at: Disk)
    requires kernel.disk.WellFormed() && public != []
    modifies kernel
    ensures sealing.Ok? && AdmittedSession.SealedPath(sessionRoot) != public ==>
      var a := Artifact(kernel.sha, AdmittedSession.SealedPath(sessionRoot), public, sealing.value);
      && sealing.value == Evidence(kernel.sha(Concat(blocks)), |Concat(blocks)|)
      && a.PrivateExact(at)
      && RunKeeps(a, at, kernel.disk) && AllKeep(a, at, left) && a.Safe(kernel.disk)
      && (r.Ok? <==> if public in at.names then a.PublicExact(at) else at.Clear(public))
      && (r.Ok? ==> a.Settled(kernel.disk))
    ensures sealing.Err? ==> r == Err(sealing.code) && left == [] && kernel.disk == at
  {
    var sealed := AdmittedSession.SealedPath(sessionRoot);
    left := [];
    ghost var home, tidy;
    sealing, home, tidy := SealArtifact(kernel, sealed, blocks, reinspected, image);
    at := kernel.disk;
    if sealing.Err? {
      return sealing, Err(sealing.code), [], at;
    }
    ghost var a;
    r, left, a := PublishUntilSettled(kernel, sealing.value, sessionRoot, public, histories);
    if a.private != public {
      ReadyExactly(a, at);
      SealedIsNoTemporary(sessionRoot, public);
      RunsStaySafe(a, at, kernel.disk);
    }
  }
}
