/**
 * Progress of the race: publishers never block one another.  A publisher whose sealed artifact is
 * exact cannot end while the public name is still free (src/executor.cpp:752-1125, 1760-1804).
 */
module PublisherProgress {
  import opened Outcomes
  import opened ArtifactDisk
  import opened PublisherRace

  /** The inode of a publisher's sealed artifact. */
  function SourceOf(w: Setting, p: Publisher): nat
    requires p.private in w.origin.names
  {
    w.origin.names[p.private]
  }

  /** No original inode has changed in any way, its status included. */
  ghost predicate Untouched(w: Setting, d: Disk) {
    forall i :: i in w.origin.files ==> i in d.files && d.files[i] == w.origin.files[i]
  }

  /** The private file holds this. */
  predicate TempHolds(d: Disk, me: Process, bytes: Bytes) {
    me.temp.Some? && me.temp.value.inode in d.files && d.files[me.temp.value.inode].bytes == bytes
  }

  /** What is read back is the sealed artifact, or its finished copy. */
  predicate ReadsBack(d: Disk, me: Process, goal: Goal, inode: nat, source: nat, bytes: Bytes) {
    match goal
    case Retained => inode == source
    case Candidate => TempHolds(d, me, bytes) && inode == me.temp.value.inode && d.files[inode].readOnly
    case _ => false
  }

  /** The stages on the way to the link, with what has been copied so far. */
  predicate OnTheWay(d: Disk, me: Process, source: nat, bytes: Bytes) {
    match me.stage
    case OpenPublic => true
    case OpenPrivate => true
    case Inspect(goal, inode) => ReadsBack(d, me, goal, inode, source, bytes)
    case Hash(goal, inode, before, _) =>
      ReadsBack(d, me, goal, inode, source, bytes) && inode in d.files && before == StampOf(d, inode)
    case Recheck(goal, inode, before) =>
      goal.Retained? && inode == source && inode in d.files && before == StampOf(d, inode)
    case CreateTemporary(from) => from == source
    case Copy(from, offset, pending) =>
      && from == source
      && offset <= |bytes|
      && me.temp.Some?
      && me.temp.value.inode in d.files
      && d.files[me.temp.value.inode].bytes + pending == bytes[..offset]
    case Seal => TempHolds(d, me, bytes)
    case LinkPublic => true
    case _ => false
  }

  /** As long as the public name is free, the publisher is on its way. */
  ghost predicate Pending(w: Setting, s: State, who: nat)
    requires who < |s.processes| == |w.publishers| && w.origin.Has(w.publishers[who].private)
  {
    var p := w.publishers[who];
    w.public !in s.disk.names ==>
      && s.disk.Clear(w.public)
      && Untouched(w, s.disk)
      && LeadsTo(s.disk, p.private, SourceOf(w, p))
      && OnTheWay(s.disk, s.processes[who], SourceOf(w, p), w.origin.Of(p.private).bytes)
  }

  /** While the public name is free, a call changes no original inode. */
  lemma {:induction false} FreeLeavesFiles(w: Setting, p: Publisher, d: Disk, me: Process, choice: nat)
    requires w.Sensible() && d.WellFormed() && KeepsContents(w.origin, d) && ProcessOk(w, d, p, me)
    requires w.public !in d.names
    ensures var after := Act(w, p, d, me, choice).disk;
      forall i :: i in w.origin.files ==> i in after.files && after.files[i] == d.files[i]
  {
  }

  /** Nor does it take an original name away. */
  lemma {:induction false} FreeLeavesNames(w: Setting, p: Publisher, d: Disk, me: Process, choice: nat, n: Path)
    requires w.Sensible() && ProcessOk(w, d, p, me) && w.public !in d.names
    requires n in w.origin.names && n in d.names
    ensures n in Act(w, p, d, me, choice).disk.names
  {
    OnlyRemovalRemoves(w, p, d, me, choice, n);
  }

  /** Another publisher's call leaves the stage and its facts alone. */
  lemma {:induction false} OthersLeaveIt(
      w: Setting, before: Disk, after: Disk, mine: Option<nat>, p: Publisher, me: Process, source: nat, bytes: Bytes)
    requires w.Sensible() && DiskOk(w, before) && ProcessOk(w, before, p, me) && Gentle(w, before, after, mine)
    requires mine.Some? ==> mine != Claim(me)
    requires source in w.origin.files && source in after.files && source in before.files
    requires after.files[source] == before.files[source]
    requires OnTheWay(before, me, source, bytes)
    ensures OnTheWay(after, me, source, bytes)
  {
  }

  /** The publisher's own call takes it one step further, or links the name. */
  lemma {:induction false} Advances(w: Setting, p: Publisher, d: Disk, me: Process, choice: nat)
    requires w.Sensible() && DiskOk(w, d) && ProcessOk(w, d, p, me) && w.public !in d.names && d.Clear(w.public)
    requires Exact(w.sha, w.origin, p.private, p.want) && Untouched(w, d) && LeadsTo(d, p.private, SourceOf(w, p))
    requires OnTheWay(d, me, SourceOf(w, p), w.origin.Of(p.private).bytes)
    ensures var m := Act(w, p, d, me, choice);
      w.public in m.disk.names || OnTheWay(m.disk, m.process, SourceOf(w, p), w.origin.Of(p.private).bytes)
  {
    var source, bytes := SourceOf(w, p), w.origin.Of(p.private).bytes;
    match me.stage {
      case Hash(_, _, _, _) => HashAdvances(w, p, d, me, choice, source, bytes);
      case Copy(_, _, _) => CopyAdvances(w, p, d, me, choice, source, bytes);
      case CreateTemporary(_) => BesideIsReached(d, w.public, Filler(choice));
      case _ =>
    }
  }

  lemma {:induction false} HashAdvances(
      w: Setting, p: Publisher, d: Disk, me: Process, choice: nat, source: nat, bytes: Bytes)
    requires w.Sensible() && DiskOk(w, d) && ProcessOk(w, d, p, me) && me.stage.Hash?
    requires source in d.files && d.files[source].bytes == bytes && Evidence(w.sha(bytes), |bytes|) == p.want
    requires OnTheWay(d, me, source, bytes)
    ensures OnTheWay(d, Hashed(w, p, d, me, choice), source, bytes)
  {
    var Hash(goal, inode, before, read) := me.stage;
    assert d.files[inode].bytes == bytes;
    if |read| == |bytes| {
      assert read == bytes;
    }
  }

  lemma {:induction false} CopyAdvances(
      w: Setting, p: Publisher, d: Disk, me: Process, choice: nat, source: nat, bytes: Bytes)
    requires w.Sensible() && DiskOk(w, d) && ProcessOk(w, d, p, me) && me.stage.Copy?
    requires source in d.files && d.files[source].bytes == bytes && OnTheWay(d, me, source, bytes)
    ensures OnTheWay(Copied(d, me, choice).disk, Copied(d, me, choice).process, source, bytes)
  {
    var Copy(from, offset, pending) := me.stage;
    var written := d.files[me.temp.value.inode].bytes;
    if pending != [] {
      var count := Some1(|pending|, choice);
      assert written + pending[..count] + pending[count..] == written + pending;
    } else if offset < |bytes| {
      var count := Some1(|bytes| - offset, choice);
      assert bytes[..offset] + bytes[offset..offset + count] == bytes[..offset + count];
    } else {
      assert bytes[..offset] == bytes;
    }
  }

  /** New temporaries do not stand in the way of the public name. */
  lemma {:induction false} StaysClear(w: Setting, before: Disk, after: Disk, mine: Option<nat>)
    requires w.Sensible() && Gentle(w, before, after, mine) && w.public !in after.names && before.Clear(w.public)
    ensures after.Clear(w.public)
  {
    forall m | m in after.names
      ensures !Above(m, w.public) && !Above(w.public, m)
    {
      if m !in before.names {
        TemporaryDiffers(m, w.public);
        assert |m| == |w.public|;
      }
    }
  }

  lemma {:induction false} StepKeepsPending(w: Setting, s: State, who: nat, mover: nat, choice: nat)
    requires Invariant(w, s) && who < |s.processes| && mover < |s.processes|
    requires Exact(w.sha, w.origin, w.publishers[who].private, w.publishers[who].want) && Pending(w, s, who)
    ensures Pending(w, Next(w, s, mover, choice), who)
  {
    var next := Next(w, s, mover, choice);
    var p, me := w.publishers[who], s.processes[who];
    StepKeeps(w, s, mover, choice);
    if w.public !in next.disk.names {
      FreeLeavesFiles(w, w.publishers[mover], s.disk, s.processes[mover], choice);
      FreeLeavesNames(w, w.publishers[mover], s.disk, s.processes[mover], choice, p.private);
      StaysClear(w, s.disk, next.disk, Claim(s.processes[mover]));
      if mover == who {
        Advances(w, p, s.disk, me, choice);
      } else {
        ClaimsDiffer(s.processes, who, mover);
        OthersLeaveIt(w, s.disk, next.disk, Claim(s.processes[mover]), p, me, SourceOf(w, p),
          w.origin.Of(p.private).bytes);
      }
    }
  }

  lemma {:induction false} ClaimsDiffer(processes: seq<Process>, a: nat, b: nat)
    requires Apart(processes) && a < |processes| && b < |processes| && a != b
    ensures Claim(processes[b]).Some? ==> Claim(processes[b]) != Claim(processes[a])
  {
    if a < b {
      assert Claim(processes[a]).Some? && Claim(processes[b]).Some? ==> Claim(processes[a]) != Claim(processes[b]);
    }
  }

  lemma {:induction false} RunKeepsPending(w: Setting, s: State, schedule: Schedule, who: nat)
    requires Invariant(w, s) && who < |s.processes|
    requires Exact(w.sha, w.origin, w.publishers[who].private, w.publishers[who].want) && Pending(w, s, who)
    ensures Pending(w, Run(w, s, schedule), who)
    decreases |schedule|
  {
    if schedule != [] {
      var (mover, choice) := schedule[0];
      if mover < |s.processes| {
        StepKeeps(w, s, mover, choice);
        StepKeepsPending(w, s, who, mover, choice);
        RunKeepsPending(w, Next(w, s, mover, choice), schedule[1..], who);
      } else {
        RunKeepsPending(w, s, schedule[1..], who);
      }
    }
  }

  // A public name that something stands in the way of ---------------------------------------------------------

  /** The public name is free, and everything that was there at the start still is. */
  ghost predicate StillFree(w: Setting, d: Disk) {
    w.public !in d.names && w.origin.names.Keys <= d.names.Keys && d.folders == w.origin.folders
  }

  /** Only the link fills the public name, and only where nothing stands in the way. */
  lemma {:induction false} OnlyLinkFills(w: Setting, p: Publisher, d: Disk, me: Process, choice: nat)
    requires w.Sensible() && w.public !in d.names && !d.Clear(w.public)
    ensures w.public !in Act(w, p, d, me, choice).disk.names
  {
    TemporaryIsNeither(w, Temporary(w.public, Filler(choice)));
  }

  lemma {:induction false} StepStaysFree(w: Setting, s: State, who: nat, choice: nat)
    requires Invariant(w, s) && who < |s.processes| && !w.origin.Clear(w.public) && StillFree(w, s.disk)
    ensures StillFree(w, Next(w, s, who, choice).disk)
  {
    var p, me := w.publishers[who], s.processes[who];
    StepKeeps(w, s, who, choice);
    if s.disk.Clear(w.public) {
      ClearWithFewer(w.origin, s.disk, w.public);
    }
    OnlyLinkFills(w, p, s.disk, me, choice);
    forall n | n in w.origin.names
      ensures n in Next(w, s, who, choice).disk.names
    {
      FreeLeavesNames(w, p, s.disk, me, choice, n);
    }
  }

  lemma {:induction false} RunStaysFree(w: Setting, s: State, schedule: Schedule)
    requires Invariant(w, s) && !w.origin.Clear(w.public) && StillFree(w, s.disk)
    ensures StillFree(w, Run(w, s, schedule).disk)
    decreases |schedule|
  {
    if schedule != [] {
      var (who, choice) := schedule[0];
      if who < |s.processes| {
        StepKeeps(w, s, who, choice);
        StepStaysFree(w, s, who, choice);
        RunStaysFree(w, Next(w, s, who, choice), schedule[1..]);
      } else {
        RunStaysFree(w, s, schedule[1..]);
      }
    }
  }

  /**
   * From a free public name, whatever the interleaving: once a publisher with an exact sealed
   * artifact has ended, the public name is exact for some publisher, if nothing stood in its way at
   * the start; and if something did, it is never filled and no publisher ever succeeds.
   */
  lemma {:induction false} EndedMeansPublished(w: Setting, schedule: Schedule, who: nat)
    requires w.Sensible() && w.public !in w.origin.names && who < |w.publishers|
    requires Exact(w.sha, w.origin, w.publishers[who].private, w.publishers[who].want)
    ensures var s := Run(w, Start(w), schedule);
      w.origin.Clear(w.public) && (s.processes[who].stage.Done? || s.processes[who].stage.Failed?) ==>
        exists p :: p in w.publishers && Exact(w.sha, s.disk, w.public, p.want)
    ensures var s := Run(w, Start(w), schedule);
      !w.origin.Clear(w.public) ==> w.public !in s.disk.names && !s.processes[who].stage.Done?
  {
    StartIsInvariant(w);
    EveryRun(w, Start(w), schedule);
    if w.origin.Clear(w.public) {
      RunKeepsPending(w, Start(w), schedule, who);
      VisibleIsComplete(w, schedule);
    } else {
      RunStaysFree(w, Start(w), schedule);
      var s := Run(w, Start(w), schedule);
      assert ProcessOk(w, s.disk, w.publishers[who], s.processes[who]);
    }
  }

  /** In particular where the public name lies above or beneath a private name that is there. */
  lemma {:induction false} InLineNeverPublishes(w: Setting, schedule: Schedule, who: nat)
    requires w.Sensible() && who < |w.publishers|
    requires Exact(w.sha, w.origin, w.publishers[who].private, w.publishers[who].want)
    requires w.publishers[who].private < w.public || w.public < w.publishers[who].private
    ensures var s := Run(w, Start(w), schedule);
      w.public !in s.disk.names && !s.processes[who].stage.Done?
  {
    var private := w.publishers[who].private;
    assert Above(private, w.public) <==> private < w.public;
    assert Above(w.public, private) <==> w.public < private;
    EndedMeansPublished(w, schedule, who);
  }
}
