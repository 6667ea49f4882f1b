/**
 * Any number of publishers of one public name, their system calls interleaved in any order
 * (src/executor.cpp:752-1125, 1760-1804).  No call fails here, but a process may stop for ever
 * after any of its calls: it is then simply never scheduled again.
 */
module PublisherRace {
  import opened Outcomes
  import opened ArtifactDisk

  /** One run of `publish_sealed_artifact`: its private artifact and the terminal evidence. */
  datatype Publisher = Publisher(private: Path, want: Evidence)

  datatype Setting = Setting(sha: Hash, origin: Disk, public: Path, publishers: seq<Publisher>) {
    /** No private name is the public one, or a temporary beside it (see `AdmittedSession`). */
    ghost predicate Sensible() {
      && origin.WellFormed()
      && public != []
      && forall p :: p in publishers ==> p.private != public && !IsTemporary(p.private, public)
    }

    predicate Private(n: Path) {
      exists p :: p in publishers && p.private == n
    }
  }

  /** Whose bytes are being read back, and why. */
  datatype Goal = Existing | Retained | Candidate | Adoption

  /** The next system call of one publisher. */
  datatype Stage =
    | OpenPublic
    | OpenPrivate
    | Inspect(goal: Goal, inode: nat)
    | Hash(goal: Goal, inode: nat, before: Stamp, read: Bytes)
    | Recheck(goal: Goal, inode: nat, before: Stamp)
    | CreateTemporary(source: nat)
    | Copy(source: nat, offset: nat, pending: Bytes)
    | Seal
    | LinkPublic
    | OpenTaken
    | Confirm
    | DropTemporary(owned: bool, descriptor: nat)
    | Verify(owned: bool, descriptor: nat)
    | VerifyName(owned: bool, descriptor: nat, held: Stamp)
    | TakeBack
    | InspectPrivate
    | RemovePrivate
    | CleanUp
    | Failed
    | Done

  datatype Temp = Temp(home: Path, inode: nat)

  datatype Process = Process(stage: Stage, temp: Option<Temp>) {
    function At(stage: Stage): Process {
      Process(stage, temp)
    }

    /** An exception: the destructor still has to remove the temporary name. */
    function Throw(): Process {
      if temp.Some? then Process(CleanUp, temp) else Process(Failed, None)
    }
  }

  datatype State = State(disk: Disk, processes: seq<Process>)

  datatype Moved = Moved(disk: Disk, process: Process)

  /** How much of `rest` one read or write handles. */
  function Some1(rest: nat, choice: nat): (count: nat)
    requires rest > 0
    ensures 1 <= count <= rest
  {
    1 + choice % rest
  }

  function Inspected(d: Disk, me: Process, goal: Goal, inode: nat): Process {
    if inode !in d.files then
      me.Throw()
    else
      var stamp := StampOf(d, inode);
      if stamp.kind.Regular? && stamp.readOnly then me.At(Hash(goal, inode, stamp, [])) else me.Throw()
  }

  /** One step of `hash_regular`, and at its end the comparison with the expected evidence. */
  function Hashed(w: Setting, p: Publisher, d: Disk, me: Process, choice: nat): Process
    requires me.stage.Hash?
  {
    var Hash(goal, inode, before, read) := me.stage;
    if inode !in d.files then
      me.Throw()
    else
      var bytes := d.files[inode].bytes;
      if |read| < |bytes| then
        var count := Some1(|bytes| - |read|, choice);
        me.At(Hash(goal, inode, before, read + bytes[|read|..|read| + count]))
      else if before != StampOf(d, inode) || |read| != before.size || Evidence(w.sha(read), |read|) != p.want then
        me.Throw()
      else if goal.Candidate? then
        me.At(LinkPublic)
      else
        me.At(Recheck(goal, inode, before))
  }

  function Rechecked(w: Setting, p: Publisher, d: Disk, me: Process): Process
    requires me.stage.Recheck?
  {
    var Recheck(goal, inode, before) := me.stage;
    var n := if goal.Retained? then p.private else w.public;
    if !d.Has(n) || StampOf(d, d.names[n]) != before then
      me.Throw()
    else
      match goal
      case Existing => me.At(InspectPrivate)
      case Retained => me.At(CreateTemporary(inode))
      case Candidate => me.At(LinkPublic)
      case Adoption => me.At(DropTemporary(false, inode))
  }

  /** So much of what was read is written. */
  function Written(d: Disk, me: Process, count: nat): Moved
    requires me.stage.Copy? && count <= |me.stage.pending|
    requires me.temp.Some? && me.temp.value.inode in d.files
  {
    Moved(Appended(d, me.temp.value.inode, me.stage.pending[..count]),
          me.At(me.stage.(pending := me.stage.pending[count..])))
  }

  /** Read from the source, or write some of what was read. */
  function Copied(d: Disk, me: Process, choice: nat): Moved
    requires me.stage.Copy?
  {
    var Copy(source, offset, pending) := me.stage;
    if me.temp.None? || me.temp.value.inode !in d.files || source !in d.files then
      Moved(d, me.Throw())
    else if pending != [] then
      Written(d, me, Some1(|pending|, choice))
    else
      var bytes := d.files[source].bytes;
      if offset < |bytes| then
        var count := Some1(|bytes| - offset, choice);
        Moved(d, me.At(Copy(source, offset + count, bytes[offset..offset + count])))
      else
        Moved(d, me.At(Seal))
  }

  /** `mkstemp` tries one name; it stays at the call while the name is taken. */
  function Creating(w: Setting, d: Disk, me: Process, choice: nat): Moved
    requires me.stage.CreateTemporary?
  {
    var home := Temporary(if w.public == [] then [""] else w.public, Filler(choice));
    if d.Obstructed(home) then
      Moved(d, me.Throw())
    else if home in d.names || d.IsFolder(home) || me.temp.Some? then
      Moved(d, me)
    else
      Moved(Created(d, home), Process(Copy(me.stage.source, 0, []), Some(Temp(home, d.next))))
  }

  function Linking(w: Setting, d: Disk, me: Process): Moved {
    if me.temp.None? || !d.Has(me.temp.value.home) then
      Moved(d, me.Throw())
    else if w.public in d.names then
      Moved(d, me.At(OpenTaken))
    else if d.Clear(w.public) then
      Moved(Linked(d, me.temp.value.home, w.public), me.At(Confirm))
    else
      Moved(d, me.Throw())
  }

  /** `fstat` tells the private inode's number, which never changes; `lstat` tells the name's. */
  function Confirmed(w: Setting, d: Disk, me: Process): Process {
    if me.temp.Some? && d.Has(w.public) && d.names[w.public] == me.temp.value.inode && d.Of(w.public).kind.Regular? then
      me.At(DropTemporary(true, me.temp.value.inode))
    else
      me.At(TakeBack)
  }

  function Dropped(d: Disk, me: Process): Moved
    requires me.stage.DropTemporary?
  {
    var DropTemporary(owned, descriptor) := me.stage;
    if me.temp.None? || !d.Has(me.temp.value.home) then
      Moved(d, if owned then me.At(TakeBack) else me.Throw())
    else
      Moved(Unlinked(d, me.temp.value.home), Process(Verify(owned, descriptor), None))
  }

  /** The destructor: whatever comes of it, the process has failed. */
  function CleanedUp(d: Disk, me: Process): Moved {
    if me.temp.Some? && d.Has(me.temp.value.home) then
      Moved(Unlinked(d, me.temp.value.home), Process(Failed, None))
    else
      Moved(d, Process(Failed, None))
  }

  function NameVerified(w: Setting, d: Disk, me: Process): Process
    requires me.stage.VerifyName?
  {
    var VerifyName(owned, descriptor, held) := me.stage;
    if d.Has(w.public) && StampOf(d, d.names[w.public]) == held && held.kind.Regular? && held.readOnly then
      me.At(InspectPrivate)
    else if owned && d.Has(w.public) && d.names[w.public] == descriptor then
      me.At(TakeBack)
    else
      me.Throw()
  }

  /** One system call of one publisher. */
  function Act(w: Setting, p: Publisher, d: Disk, me: Process, choice: nat): Moved {
    match me.stage
    case OpenPublic =>
      Moved(d, if w.public !in d.names then if d.Clear(w.public) then me.At(OpenPrivate) else me.Throw()
               else if !d.Has(w.public) || d.Of(w.public).kind.SymbolicLink? then me.Throw()
               else me.At(Inspect(Existing, d.names[w.public])))
    case OpenPrivate =>
      Moved(d, if !d.Has(p.private) || d.Of(p.private).kind.SymbolicLink? then me.Throw()
               else me.At(Inspect(Retained, d.names[p.private])))
    case Inspect(goal, inode) => Moved(d, Inspected(d, me, goal, inode))
    case Hash(_, _, _, _) => Moved(d, Hashed(w, p, d, me, choice))
    case Recheck(_, _, _) => Moved(d, Rechecked(w, p, d, me))
    case CreateTemporary(_) => Creating(w, d, me, choice)
    case Copy(_, _, _) => Copied(d, me, choice)
    case Seal =>
      if me.temp.None? || me.temp.value.inode !in d.files then
        Moved(d, me.Throw())
      else
        Moved(MadeReadOnly(d, me.temp.value.inode), me.At(Inspect(Candidate, me.temp.value.inode)))
    case LinkPublic => Linking(w, d, me)
    case OpenTaken =>
      Moved(d, if !d.Has(w.public) || d.Of(w.public).kind.SymbolicLink? then me.Throw()
               else me.At(Inspect(Adoption, d.names[w.public])))
    case Confirm => Moved(d, Confirmed(w, d, me))
    case DropTemporary(_, _) => Dropped(d, me)
    case Verify(owned, descriptor) =>
      Moved(d, if descriptor in d.files then me.At(VerifyName(owned, descriptor, StampOf(d, descriptor)))
               else me.Throw())
    case VerifyName(_, _, _) => Moved(d, NameVerified(w, d, me))
    case TakeBack => Moved(if d.Has(w.public) then Unlinked(d, w.public) else d, me.Throw())
    case InspectPrivate =>
      Moved(d, if p.private !in d.names then if d.Clear(p.private) then me.At(Done) else me.Throw()
               else if !d.Has(p.private) || !d.Of(p.private).kind.Regular? then me.Throw()
               else me.At(RemovePrivate))
    case RemovePrivate =>
      if d.Has(p.private) then Moved(Unlinked(d, p.private), me.At(Done)) else Moved(d, me.Throw())
    case CleanUp => CleanedUp(d, me)
    case Failed => Moved(d, me)
    case Done => Moved(d, me)
  }

  /** The scheduler picks a publisher; the kernel picks how much it does. */
  function Next(w: Setting, s: State, who: nat, choice: nat): State
    requires |s.processes| == |w.publishers|
    requires who < |s.processes|
  {
    var m := Act(w, w.publishers[who], s.disk, s.processes[who], choice);
    State(m.disk, s.processes[who := m.process])
  }

  // ---------------------------------------------------------------------------------------------
  // What every reachable state satisfies.
  // ---------------------------------------------------------------------------------------------

  predicate LeadsTo(d: Disk, n: Path, inode: nat) {
    n in d.names && d.names[n] == inode
  }

  predicate ExactInode(w: Setting, d: Disk, inode: nat, want: Evidence) {
    inode in d.files && ExactFile(w.sha, d.files[inode], want)
  }

  predicate PublicIs(w: Setting, d: Disk, want: Evidence) {
    w.public in d.names && ExactInode(w, d, d.names[w.public], want)
  }

  /** A publisher's private inode, which no other publisher touches. */
  ghost predicate TempOk(w: Setting, d: Disk, t: Temp)
    requires w.public != []
  {
    && LeadsTo(d, t.home, t.inode)
    && t.home !in w.origin.names
    && IsTemporary(t.home, w.public)
    && t.inode >= w.origin.next
    && t.inode in d.files
    && d.files[t.inode].kind.Regular?
  }

  /** Where the inode being read back comes from. */
  predicate GoalOk(w: Setting, d: Disk, me: Process, goal: Goal, inode: nat) {
    match goal
    case Existing => me.temp.None? && LeadsTo(d, w.public, inode)
    case Retained => me.temp.None? && inode in w.origin.files
    case Candidate => me.temp.Some? && me.temp.value.inode == inode && !LeadsTo(d, w.public, inode)
    case Adoption => me.temp.Some? && LeadsTo(d, w.public, inode) && me.temp.value.inode != inode
  }

  predicate Unplaced(w: Setting, d: Disk, me: Process) {
    me.temp.Some? && !LeadsTo(d, w.public, me.temp.value.inode)
  }

  predicate Placed(w: Setting, d: Disk, p: Publisher, me: Process) {
    && me.temp.Some?
    && LeadsTo(d, w.public, me.temp.value.inode)
    && ExactInode(w, d, me.temp.value.inode, p.want)
  }

  predicate StageOk(w: Setting, d: Disk, p: Publisher, me: Process) {
    match me.stage
    case OpenPublic => me.temp.None?
    case OpenPrivate => me.temp.None?
    case Inspect(goal, inode) => inode in d.files && GoalOk(w, d, me, goal, inode)
    case Hash(goal, inode, before, read) =>
      && inode in d.files
      && GoalOk(w, d, me, goal, inode)
      && before.kind.Regular? && before.readOnly
      && read <= d.files[inode].bytes
    case Recheck(goal, inode, before) =>
      && inode in d.files
      && GoalOk(w, d, me, goal, inode)
      && !goal.Candidate?
      && before.inode == inode
      && ExactInode(w, d, inode, p.want)
    case CreateTemporary(source) => me.temp.None? && source in w.origin.files
    case Copy(source, _, _) => Unplaced(w, d, me) && source in w.origin.files
    case Seal => Unplaced(w, d, me)
    case LinkPublic => Unplaced(w, d, me) && ExactInode(w, d, me.temp.value.inode, p.want)
    case OpenTaken => Unplaced(w, d, me) && w.public in d.names
    case Confirm => Placed(w, d, p, me)
    case DropTemporary(owned, descriptor) =>
      if owned then
        Placed(w, d, p, me) && descriptor == me.temp.value.inode
      else
        Unplaced(w, d, me) && LeadsTo(d, w.public, descriptor) && ExactInode(w, d, descriptor, p.want)
    case Verify(owned, descriptor) =>
      && me.temp.None?
      && LeadsTo(d, w.public, descriptor)
      && ExactInode(w, d, descriptor, p.want)
      && (owned ==> descriptor >= w.origin.next)
    case VerifyName(owned, descriptor, held) =>
      && me.temp.None?
      && LeadsTo(d, w.public, descriptor)
      && ExactInode(w, d, descriptor, p.want)
      && (owned ==> descriptor >= w.origin.next && held == StampOf(d, descriptor))
    case TakeBack => false
    case InspectPrivate => me.temp.None? && PublicIs(w, d, p.want)
    case RemovePrivate => me.temp.None? && PublicIs(w, d, p.want)
    case CleanUp => Unplaced(w, d, me)
    case Failed => me.temp.None?
    case Done => me.temp.None? && PublicIs(w, d, p.want)
  }

  ghost predicate ProcessOk(w: Setting, d: Disk, p: Publisher, me: Process)
    requires w.public != []
  {
    (me.temp.Some? ==> TempOk(w, d, me.temp.value)) && StageOk(w, d, p, me)
  }

  /** The fresh inode that only this publisher's calls can still change. */
  function Claim(me: Process): Option<nat> {
    if me.temp.Some? then
      Some(me.temp.value.inode)
    else
      match me.stage
      case Verify(owned, descriptor) => if owned then Some(descriptor) else None
      case VerifyName(owned, descriptor, _) => if owned then Some(descriptor) else None
      case _ => None
  }

  /** Names are what they were, gone private ones apart; new ones are the public one and temporaries. */
  ghost predicate NamesOk(w: Setting, d: Disk)
    requires w.public != []
  {
    && (forall n :: n in d.names && n in w.origin.names ==> d.names[n] == w.origin.names[n])
    && (forall n :: n in w.origin.names && n !in d.names ==> w.Private(n))
    && (forall n :: n in d.names && n !in w.origin.names ==>
          (n == w.public || IsTemporary(n, w.public)) && d.names[n] >= w.origin.next)
  }

  /** What was placed at the public name is complete, read-only and what some publisher sealed. */
  ghost predicate PublicOk(w: Setting, d: Disk) {
    w.public in d.names && w.public !in w.origin.names ==> exists p :: p in w.publishers && PublicIs(w, d, p.want)
  }

  ghost predicate DiskOk(w: Setting, d: Disk)
    requires w.public != []
  {
    d.WellFormed() && KeepsContents(w.origin, d) && NamesOk(w, d) && PublicOk(w, d)
  }

  ghost predicate Apart(processes: seq<Process>) {
    forall p, q :: 0 <= p < q < |processes| && Claim(processes[p]).Some? && Claim(processes[q]).Some? ==>
      Claim(processes[p]) != Claim(processes[q])
  }

  ghost predicate Invariant(w: Setting, s: State) {
    && w.Sensible()
    && |s.processes| == |w.publishers|
    && DiskOk(w, s.disk)
    && Apart(s.processes)
    && forall p :: 0 <= p < |s.processes| ==> ProcessOk(w, s.disk, w.publishers[p], s.processes[p])
  }

  /**
   * What a step of a publisher that claims `mine` may do to the disk: change only its own inode
   * or the status of an original one, and fill the public name only if it is free.
   */
  ghost predicate Gentle(w: Setting, before: Disk, after: Disk, mine: Option<nat>)
    requires w.public != []
  {
    && after.WellFormed()
    && before.next <= after.next
    && before.folders == after.folders
    && (forall i :: i in before.files && mine != Some(i) ==>
          && i in after.files
          && after.files[i].(version := 0) == before.files[i].(version := 0)
          && (i >= w.origin.next ==> after.files[i] == before.files[i]))
    && (forall n :: n in before.names && n !in after.names ==> mine == Some(before.names[n]) || w.Private(n))
    && (forall n :: n in before.names && n in after.names ==> after.names[n] == before.names[n])
    && (forall n :: n in after.names && n !in before.names ==>
          && (mine == Some(after.names[n]) || after.names[n] == before.next)
          && (n == w.public ==> mine == Some(after.names[n]))
          && (n != w.public ==> n !in w.origin.names && IsTemporary(n, w.public)))
    && (w.public in before.names ==>
          && before.names[w.public] in before.files
          && w.public in after.names
          && after.files[before.names[w.public]].(version := 0) == before.files[before.names[w.public]].(version := 0))
  }

  lemma {:induction false} TemporaryIsNeither(w: Setting, n: Path)
    requires w.Sensible() && IsTemporary(n, w.public)
    ensures !w.Private(n) && n != w.public
  {
    TemporaryDiffers(n, w.public);
  }

  lemma {:induction false} TempKept(w: Setting, before: Disk, after: Disk, mine: Option<nat>, t: Temp)
    requires w.Sensible() && TempOk(w, before, t) && Gentle(w, before, after, mine) && mine != Some(t.inode)
    ensures TempOk(w, after, t)
  {
    TemporaryIsNeither(w, t.home);
  }

  /** A gentle step of one publisher leaves every other one where it was. */
  lemma {:induction false} OthersKept(
      w: Setting, before: Disk, after: Disk, mine: Option<nat>, p: Publisher, me: Process)
    requires w.Sensible() && DiskOk(w, before) && ProcessOk(w, before, p, me)
    requires Gentle(w, before, after, mine)
    requires mine.Some? ==> mine.value >= w.origin.next && mine != Claim(me)
    ensures ProcessOk(w, after, p, me)
  {
    if me.temp.Some? {
      HoldersKept(w, before, after, mine, p, me);
    } else {
      EmptyHandedKept(w, before, after, mine, p, me);
    }
  }

  lemma {:induction false} HoldersKept(
      w: Setting, before: Disk, after: Disk, mine: Option<nat>, p: Publisher, me: Process)
    requires w.Sensible() && DiskOk(w, before) && ProcessOk(w, before, p, me) && me.temp.Some?
    requires Gentle(w, before, after, mine)
    requires mine.Some? ==> mine.value >= w.origin.next && mine != Claim(me)
    ensures ProcessOk(w, after, p, me)
  {
    TempKept(w, before, after, mine, me.temp.value);
  }

  lemma {:induction false} EmptyHandedKept(
      w: Setting, before: Disk, after: Disk, mine: Option<nat>, p: Publisher, me: Process)
    requires w.Sensible() && DiskOk(w, before) && ProcessOk(w, before, p, me) && me.temp.None?
    requires Gentle(w, before, after, mine)
    requires mine.Some? ==> mine.value >= w.origin.next && mine != Claim(me)
    ensures ProcessOk(w, after, p, me)
  {
  }

  lemma {:induction false} CreateGentle(w: Setting, d: Disk, choice: nat)
    requires w.Sensible() && DiskOk(w, d)
    requires Temporary(w.public, Filler(choice)) !in d.names && d.Clear(Temporary(w.public, Filler(choice)))
    ensures var home := Temporary(w.public, Filler(choice));
      Gentle(w, d, Created(d, home), None) && TempOk(w, Created(d, home), Temp(home, d.next))
  {
    TemporaryIsNeither(w, Temporary(w.public, Filler(choice)));
    CreatedWellFormed(d, Temporary(w.public, Filler(choice)));
  }

  lemma {:induction false} WriteGentle(w: Setting, before: Disk, after: Disk, me: Process)
    requires w.Sensible() && DiskOk(w, before) && me.temp.Some? && TempOk(w, before, me.temp.value)
    requires Unplaced(w, before, me)
    requires var i := me.temp.value.inode;
      i in after.files && after.files[i].kind.Regular? && after == before.(files := before.files[i := after.files[i]])
    ensures Gentle(w, before, after, Claim(me)) && TempOk(w, after, me.temp.value) && Unplaced(w, after, me)
  {
  }

  lemma {:induction false} LinkGentle(w: Setting, d: Disk, p: Publisher, me: Process)
    requires w.Sensible() && DiskOk(w, d) && me.temp.Some? && TempOk(w, d, me.temp.value)
    requires w.public !in d.names && d.Clear(w.public) && ExactInode(w, d, me.temp.value.inode, p.want)
    ensures var after := Linked(d, me.temp.value.home, w.public);
      Gentle(w, d, after, Claim(me)) && TempOk(w, after, me.temp.value) && Placed(w, after, p, me)
  {
    TemporaryIsNeither(w, me.temp.value.home);
    LinkedWellFormed(d, me.temp.value.home, w.public);
  }

  lemma {:induction false} DropGentle(w: Setting, d: Disk, me: Process)
    requires w.Sensible() && DiskOk(w, d) && me.temp.Some? && TempOk(w, d, me.temp.value)
    ensures var after := Unlinked(d, me.temp.value.home);
      Gentle(w, d, after, Claim(me))
  {
    TemporaryIsNeither(w, me.temp.value.home);
    UnlinkedWellFormed(d, me.temp.value.home);
  }

  lemma {:induction false} RemoveGentle(w: Setting, d: Disk, p: Publisher)
    requires w.Sensible() && DiskOk(w, d) && p in w.publishers && d.Has(p.private)
    ensures Gentle(w, d, Unlinked(d, p.private), None)
  {
    assert w.Private(p.private);
    PrivateIsOriginal(w, d, p);
    OriginalGentle(w, d, p.private);
  }

  /** Only the status of an original inode changes. */
  lemma {:induction false} OriginalGentle(w: Setting, d: Disk, n: Path)
    requires w.public != [] && d.WellFormed() && n in d.names && n != w.public && w.Private(n)
    requires d.names[n] < w.origin.next
    ensures Gentle(w, d, Unlinked(d, n), None)
  {
    UnlinkedWellFormed(d, n);
  }

  /** A gentle step keeps the whole disk in order, if what it places is what its publisher sealed. */
  lemma {:induction false} DiskKept(w: Setting, before: Disk, after: Disk, mine: Option<nat>, p: Publisher)
    requires w.Sensible() && DiskOk(w, before) && Gentle(w, before, after, mine) && p in w.publishers
    requires mine.Some? ==> mine.value >= w.origin.next
    requires w.public in after.names && w.public !in before.names ==> PublicIs(w, after, p.want)
    ensures DiskOk(w, after)
  {
    forall n | n in w.origin.names && n !in after.names
      ensures w.Private(n)
    {
      assert n in before.names ==> before.names[n] == w.origin.names[n];
    }
    if w.public in before.names && w.public !in w.origin.names {
      var q :| q in w.publishers && PublicIs(w, before, q.want);
      assert PublicIs(w, after, q.want);
    }
  }

  /** What a step of one publisher has to give the others. */
  ghost predicate Fair(w: Setting, d: Disk, p: Publisher, me: Process, m: Moved)
    requires w.public != []
  {
    && Gentle(w, d, m.disk, Claim(me))
    && (w.public in m.disk.names && w.public !in d.names ==> PublicIs(w, m.disk, p.want))
    && (Claim(m.process).Some? ==> Claim(m.process) == Claim(me) || Claim(m.process) == Some(d.next))
  }

  lemma {:induction false} HashKept(w: Setting, p: Publisher, d: Disk, me: Process, choice: nat)
    requires w.Sensible() && DiskOk(w, d) && ProcessOk(w, d, p, me) && me.stage.Hash?
    ensures ProcessOk(w, d, p, Hashed(w, p, d, me, choice))
    ensures Claim(Hashed(w, p, d, me, choice)) == Claim(me)
  {
    var read, bytes := me.stage.read, d.files[me.stage.inode].bytes;
    if |read| < |bytes| {
      var count := Some1(|bytes| - |read|, choice);
      assert read + bytes[|read|..|read| + count] == bytes[..|read| + count];
    } else {
      assert read == bytes;
    }
  }

  lemma {:induction false} CopyKept(w: Setting, p: Publisher, d: Disk, me: Process, choice: nat)
    requires w.Sensible() && DiskOk(w, d) && ProcessOk(w, d, p, me) && me.stage.Copy?
    ensures ProcessOk(w, Copied(d, me, choice).disk, p, Copied(d, me, choice).process)
    ensures Fair(w, d, p, me, Copied(d, me, choice))
  {
    if me.stage.pending != [] {
      var count := Some1(|me.stage.pending|, choice);
      assert Copied(d, me, choice) == Written(d, me, count);
      CopyWrites(w, p, d, me, count);
    } else {
      CopyReads(w, p, d, me, choice);
    }
  }

  lemma {:induction false} CopyWrites(w: Setting, p: Publisher, d: Disk, me: Process, count: nat)
    requires w.Sensible() && DiskOk(w, d) && ProcessOk(w, d, p, me) && me.stage.Copy? && count <= |me.stage.pending|
    ensures ProcessOk(w, Written(d, me, count).disk, p, Written(d, me, count).process)
    ensures Fair(w, d, p, me, Written(d, me, count))
  {
    WriteGentle(w, d, Written(d, me, count).disk, me);
  }

  lemma {:induction false} CopyReads(w: Setting, p: Publisher, d: Disk, me: Process, choice: nat)
    requires w.Sensible() && DiskOk(w, d) && ProcessOk(w, d, p, me) && me.stage.Copy? && me.stage.pending == []
    ensures ProcessOk(w, Copied(d, me, choice).disk, p, Copied(d, me, choice).process)
    ensures Fair(w, d, p, me, Copied(d, me, choice))
  {
    SameIsGentle(w, d, Claim(me));
    var m := Copied(d, me, choice);
    assert m.disk == d && m.process.temp == me.temp && Claim(m.process) == Claim(me);
  }

  lemma {:induction false} LinkKept(w: Setting, p: Publisher, d: Disk, me: Process)
    requires w.Sensible() && DiskOk(w, d) && ProcessOk(w, d, p, me) && me.stage.LinkPublic?
    ensures ProcessOk(w, Linking(w, d, me).disk, p, Linking(w, d, me).process)
    ensures Fair(w, d, p, me, Linking(w, d, me))
  {
    if w.public !in d.names && d.Clear(w.public) {
      assert Linking(w, d, me) == Moved(Linked(d, me.temp.value.home, w.public), me.At(Confirm));
      LinkIsFair(w, p, d, me);
    } else {
      assert Linking(w, d, me) == Moved(d, if w.public in d.names then me.At(OpenTaken) else me.Throw());
      StayIsFair(w, p, d, me, if w.public in d.names then me.At(OpenTaken) else me.Throw());
    }
  }

  lemma {:induction false} LinkIsFair(w: Setting, p: Publisher, d: Disk, me: Process)
    requires w.Sensible() && DiskOk(w, d) && ProcessOk(w, d, p, me) && me.stage.LinkPublic?
    requires w.public !in d.names && d.Clear(w.public)
    ensures var after := Linked(d, me.temp.value.home, w.public);
      ProcessOk(w, after, p, me.At(Confirm)) && Fair(w, d, p, me, Moved(after, me.At(Confirm)))
  {
    LinkGentle(w, d, p, me);
  }

  /** Whoever leaves the disk alone is fair. */
  lemma {:induction false} StayIsFair(w: Setting, p: Publisher, d: Disk, me: Process, next: Process)
    requires w.Sensible() && DiskOk(w, d) && (next.temp == me.temp || next.temp.None?)
    requires Claim(next).Some? ==> Claim(next) == Claim(me)
    ensures Fair(w, d, p, me, Moved(d, next))
  {
    SameIsGentle(w, d, Claim(me));
  }

  lemma {:induction false} DropKept(w: Setting, p: Publisher, d: Disk, me: Process)
    requires w.Sensible() && DiskOk(w, d) && ProcessOk(w, d, p, me) && me.stage.DropTemporary?
    ensures ProcessOk(w, Dropped(d, me).disk, p, Dropped(d, me).process)
    ensures Fair(w, d, p, me, Dropped(d, me))
  {
    var home := me.temp.value.home;
    TemporaryIsNeither(w, home);
    DropAims(w, p, d, me);
    assert Dropped(d, me) == Moved(Unlinked(d, home), Process(Verify(me.stage.owned, me.stage.descriptor), None));
    DropIsFair(w, p, d, me);
  }

  lemma {:induction false} DropIsFair(w: Setting, p: Publisher, d: Disk, me: Process)
    requires w.Sensible() && DiskOk(w, d) && ProcessOk(w, d, p, me) && me.stage.DropTemporary?
    ensures Fair(w, d, p, me,
                 Moved(Unlinked(d, me.temp.value.home), Process(Verify(me.stage.owned, me.stage.descriptor), None)))
  {
    DropGentle(w, d, me);
  }

  /** The descriptor kept after the private name is dropped is the public inode, and exact. */
  lemma {:induction false} DropAims(w: Setting, p: Publisher, d: Disk, me: Process)
    requires w.Sensible() && DiskOk(w, d) && ProcessOk(w, d, p, me) && me.stage.DropTemporary?
    requires me.temp.value.home != w.public
    ensures var after := Unlinked(d, me.temp.value.home);
      LeadsTo(after, w.public, me.stage.descriptor) && ExactInode(w, after, me.stage.descriptor, p.want)
  {
    AimStays(w, d, me.temp.value.home, me.stage.descriptor, p.want);
  }

  lemma {:induction false} AimStays(w: Setting, d: Disk, home: Path, inode: nat, want: Evidence)
    requires d.Has(home) && home != w.public && LeadsTo(d, w.public, inode) && ExactInode(w, d, inode, want)
    ensures LeadsTo(Unlinked(d, home), w.public, inode) && ExactInode(w, Unlinked(d, home), inode, want)
  {
  }

  predicate ReadsOnly(stage: Stage) {
    match stage
    case OpenPublic => true
    case OpenPrivate => true
    case Inspect(_, _) => true
    case Hash(_, _, _, _) => true
    case Recheck(_, _, _) => true
    case OpenTaken => true
    case Confirm => true
    case Verify(_, _) => true
    case VerifyName(_, _, _) => true
    case InspectPrivate => true
    case Failed => true
    case Done => true
    case _ => false
  }

  lemma {:induction false} PrivateIsOriginal(w: Setting, d: Disk, p: Publisher)
    requires w.Sensible() && DiskOk(w, d) && p in w.publishers
    ensures p.private in d.names ==> p.private in w.origin.names && d.names[p.private] in w.origin.files
  {
  }

  /** A call that only reads leads from one stage whose facts hold to another. */
  lemma {:induction false} ReadAdvances(w: Setting, p: Publisher, d: Disk, me: Process, choice: nat)
    requires d.WellFormed() && StageOk(w, d, p, me) && ReadsOnly(me.stage) && !me.stage.Hash?
    requires me.stage.OpenPrivate? && p.private in d.names ==> d.names[p.private] in w.origin.files
    requires me.stage.OpenTaken? ==> me.temp.Some?
    ensures var m := Act(w, p, d, me, choice);
      && m.disk == d
      && StageOk(w, d, p, m.process)
      && m.process.temp == me.temp
      && (Claim(m.process).Some? ==> Claim(m.process) == Claim(me))
  {
  }

  lemma {:induction false} SameIsGentle(w: Setting, d: Disk, mine: Option<nat>)
    requires w.public != [] && d.WellFormed()
    ensures Gentle(w, d, d, mine)
  {
  }

  lemma {:induction false} ReadKept(w: Setting, p: Publisher, d: Disk, me: Process, choice: nat)
    requires w.Sensible() && DiskOk(w, d) && ProcessOk(w, d, p, me) && p in w.publishers && ReadsOnly(me.stage)
    ensures var m := Act(w, p, d, me, choice); ProcessOk(w, m.disk, p, m.process) && Fair(w, d, p, me, m)
  {
    SameIsGentle(w, d, Claim(me));
    if me.stage.Hash? {
      HashKept(w, p, d, me, choice);
    } else {
      PrivateIsOriginal(w, d, p);
      ReadAdvances(w, p, d, me, choice);
    }
  }

  lemma {:induction false} CreateKept(w: Setting, p: Publisher, d: Disk, me: Process, choice: nat)
    requires w.Sensible() && DiskOk(w, d) && ProcessOk(w, d, p, me) && me.stage.CreateTemporary?
    ensures ProcessOk(w, Creating(w, d, me, choice).disk, p, Creating(w, d, me, choice).process)
    ensures Fair(w, d, p, me, Creating(w, d, me, choice))
  {
    var home := Temporary(w.public, Filler(choice));
    if home !in d.names && d.Clear(home) {
      CreateGentle(w, d, choice);
      assert Creating(w, d, me, choice) ==
        Moved(Created(d, home), Process(Copy(me.stage.source, 0, []), Some(Temp(home, d.next))));
    } else {
      SameIsGentle(w, d, Claim(me));
    }
  }

  lemma {:induction false} SealKept(w: Setting, p: Publisher, d: Disk, me: Process, choice: nat)
    requires w.Sensible() && DiskOk(w, d) && ProcessOk(w, d, p, me) && me.stage.Seal?
    ensures var m := Act(w, p, d, me, choice); ProcessOk(w, m.disk, p, m.process) && Fair(w, d, p, me, m)
  {
    WriteGentle(w, d, MadeReadOnly(d, me.temp.value.inode), me);
  }

  lemma {:induction false} RemoveKept(w: Setting, p: Publisher, d: Disk, me: Process, choice: nat)
    requires w.Sensible() && DiskOk(w, d) && ProcessOk(w, d, p, me) && me.stage.RemovePrivate? && p in w.publishers
    ensures var m := Act(w, p, d, me, choice); ProcessOk(w, m.disk, p, m.process) && Fair(w, d, p, me, m)
  {
    if d.Has(p.private) {
      RemoveGentle(w, d, p);
    } else {
      SameIsGentle(w, d, Claim(me));
    }
  }

  lemma {:induction false} CleanKept(w: Setting, p: Publisher, d: Disk, me: Process)
    requires w.Sensible() && DiskOk(w, d) && ProcessOk(w, d, p, me) && me.stage.CleanUp?
    ensures ProcessOk(w, CleanedUp(d, me).disk, p, CleanedUp(d, me).process)
    ensures Fair(w, d, p, me, CleanedUp(d, me))
  {
    DropGentle(w, d, me);
    assert CleanedUp(d, me) == Moved(Unlinked(d, me.temp.value.home), Process(Failed, None));
  }

  lemma {:induction false} ActKept(w: Setting, p: Publisher, d: Disk, me: Process, choice: nat)
    requires w.Sensible() && DiskOk(w, d) && ProcessOk(w, d, p, me) && p in w.publishers
    ensures var m := Act(w, p, d, me, choice); ProcessOk(w, m.disk, p, m.process) && Fair(w, d, p, me, m)
  {
    if ReadsOnly(me.stage) {
      ReadKept(w, p, d, me, choice);
    } else {
      WriteKept(w, p, d, me, choice);
    }
  }

  lemma {:induction false} WriteKept(w: Setting, p: Publisher, d: Disk, me: Process, choice: nat)
    requires w.Sensible() && DiskOk(w, d) && ProcessOk(w, d, p, me) && p in w.publishers && !ReadsOnly(me.stage)
    ensures var m := Act(w, p, d, me, choice); ProcessOk(w, m.disk, p, m.process) && Fair(w, d, p, me, m)
  {
    match me.stage {
      case CreateTemporary(_) => CreateKept(w, p, d, me, choice);
      case Copy(_, _, _) => CopyKept(w, p, d, me, choice);
      case Seal => SealKept(w, p, d, me, choice);
      case LinkPublic => LinkKept(w, p, d, me);
      case DropTemporary(_, _) => DropKept(w, p, d, me);
      case RemovePrivate => RemoveKept(w, p, d, me, choice);
      case CleanUp => CleanKept(w, p, d, me);
      case _ =>
    }
  }

  lemma {:induction false} EveryoneKept(w: Setting, s: State, who: nat, m: Moved)
    requires Invariant(w, s) && who < |s.processes|
    requires ProcessOk(w, m.disk, w.publishers[who], m.process)
    requires Fair(w, s.disk, w.publishers[who], s.processes[who], m)
    ensures forall q :: 0 <= q < |s.processes| ==>
      ProcessOk(w, m.disk, w.publishers[q], s.processes[who := m.process][q])
    ensures Apart(s.processes[who := m.process])
  {
    forall q | 0 <= q < |s.processes| && q != who
      ensures ProcessOk(w, m.disk, w.publishers[q], s.processes[q])
      ensures Claim(m.process).Some? ==> Claim(s.processes[q]) != Claim(m.process)
    {
      ClaimIsFile(w, s.disk, w.publishers[q], s.processes[q]);
      ClaimIsFile(w, s.disk, w.publishers[who], s.processes[who]);
      OthersKept(w, s.disk, m.disk, Claim(s.processes[who]), w.publishers[q], s.processes[q]);
    }
    StillApart(s.processes, who, m.process);
  }

  lemma {:induction false} StillApart(processes: seq<Process>, who: nat, next: Process)
    requires who < |processes| && Apart(processes)
    requires forall q :: 0 <= q < |processes| && q != who && Claim(next).Some? ==> Claim(processes[q]) != Claim(next)
    ensures Apart(processes[who := next])
  {
  }

  lemma {:induction false} ClaimIsFile(w: Setting, d: Disk, p: Publisher, me: Process)
    requires w.Sensible() && DiskOk(w, d) && ProcessOk(w, d, p, me)
    ensures Claim(me).Some? ==> w.origin.next <= Claim(me).value < d.next
  {
  }

  /** No call of any publisher disturbs what is at the public name, or another publisher. */
  lemma {:induction false} StepKeeps(w: Setting, s: State, who: nat, choice: nat)
    requires Invariant(w, s) && who < |s.processes|
    ensures Invariant(w, Next(w, s, who, choice))
    ensures Gentle(w, s.disk, Next(w, s, who, choice).disk, Claim(s.processes[who]))
  {
    var p, me := w.publishers[who], s.processes[who];
    var m := Act(w, p, s.disk, me, choice);
    ActKept(w, p, s.disk, me, choice);
    DiskKept(w, s.disk, m.disk, Claim(me), p);
    EveryoneKept(w, s, who, m);
  }

  // ---------------------------------------------------------------------------------------------
  // Whole runs.
  // ---------------------------------------------------------------------------------------------

  /** Who makes each call, and how much the kernel lets it do. */
  type Schedule = seq<(nat, nat)>

  function Start(w: Setting): State {
    State(w.origin, seq(|w.publishers|, _ => Process(OpenPublic, None)))
  }

  function Run(w: Setting, s: State, schedule: Schedule): (r: State)
    requires |s.processes| == |w.publishers|
    ensures |r.processes| == |w.publishers|
    decreases |schedule|
  {
    if schedule == [] then
      s
    else
      var (who, choice) := schedule[0];
      Run(w, if who < |s.processes| then Next(w, s, who, choice) else s, schedule[1..])
  }

  /** The name leads where it led, to the same bytes with the same mode. */
  predicate PublicStays(w: Setting, before: Disk, after: Disk) {
    w.public in before.names && before.names[w.public] in before.files ==>
      && w.public in after.names
      && after.names[w.public] == before.names[w.public]
      && after.names[w.public] in after.files
      && after.Of(w.public).(version := 0) == before.Of(w.public).(version := 0)
  }

  /** A private name is gone only once the public one holds what its publisher sealed. */
  ghost predicate RemovedOk(w: Setting, d: Disk) {
    forall n :: n in w.origin.names && n !in d.names ==>
      exists p :: p in w.publishers && p.private == n && PublicIs(w, d, p.want)
  }

  lemma {:induction false} StartIsInvariant(w: Setting)
    requires w.Sensible()
    ensures Invariant(w, Start(w)) && RemovedOk(w, w.origin)
  {
  }

  lemma {:induction false} OnlyRemovalRemoves(w: Setting, p: Publisher, d: Disk, me: Process, choice: nat, n: Path)
    requires w.Sensible() && ProcessOk(w, d, p, me) && n in w.origin.names
    ensures n in d.names && n !in Act(w, p, d, me, choice).disk.names ==> me.stage.RemovePrivate? && n == p.private
  {
  }

  lemma {:induction false} StepRemoves(w: Setting, s: State, who: nat, choice: nat)
    requires Invariant(w, s) && RemovedOk(w, s.disk) && who < |s.processes|
    ensures RemovedOk(w, Next(w, s, who, choice).disk)
  {
    var p, me := w.publishers[who], s.processes[who];
    var after := Next(w, s, who, choice).disk;
    StepKeeps(w, s, who, choice);
    forall n | n in w.origin.names && n !in after.names
      ensures exists p :: p in w.publishers && p.private == n && PublicIs(w, after, p.want)
    {
      OnlyRemovalRemoves(w, p, s.disk, me, choice, n);
      var q := if n in s.disk.names then p else
        var q :| q in w.publishers && q.private == n && PublicIs(w, s.disk, q.want); q;
      assert PublicIs(w, s.disk, q.want);
      assert PublicIs(w, after, q.want);
    }
  }

  /**
   * Whatever the interleaving: the invariant holds in every state, what is at the public name
   * stays, and a private name goes only once the public one is exact for its publisher.
   */
  lemma {:induction false} EveryRun(w: Setting, s: State, schedule: Schedule)
    requires Invariant(w, s) && RemovedOk(w, s.disk)
    ensures Invariant(w, Run(w, s, schedule)) && RemovedOk(w, Run(w, s, schedule).disk)
    ensures PublicStays(w, s.disk, Run(w, s, schedule).disk)
    decreases |schedule|
  {
    if schedule != [] {
      var (who, choice) := schedule[0];
      if who < |s.processes| {
        StepKeeps(w, s, who, choice);
        StepRemoves(w, s, who, choice);
        EveryRun(w, Next(w, s, who, choice), schedule[1..]);
      } else {
        EveryRun(w, s, schedule[1..]);
      }
    }
  }

  /** What appears at a free public name is, from its first instant, complete, read-only and exact. */
  lemma {:induction false} VisibleIsComplete(w: Setting, schedule: Schedule)
    requires w.Sensible() && w.public !in w.origin.names
    ensures var d := Run(w, Start(w), schedule).disk;
      w.public in d.names ==> exists p :: p in w.publishers && Exact(w.sha, d, w.public, p.want)
  {
    StartIsInvariant(w);
    EveryRun(w, Start(w), schedule);
    var d := Run(w, Start(w), schedule).disk;
    if w.public in d.names {
      var p :| p in w.publishers && PublicIs(w, d, p.want);
      assert Exact(w.sha, d, w.public, p.want);
    }
  }

  /** A publisher that reports success has its bytes at the public name, for good. */
  lemma {:induction false} SuccessIsExact(w: Setting, schedule: Schedule, later: Schedule, who: nat)
    requires w.Sensible() && who < |w.publishers|
    requires Run(w, Start(w), schedule).processes[who].stage.Done?
    ensures Exact(w.sha, Run(w, Run(w, Start(w), schedule), later).disk, w.public, w.publishers[who].want)
  {
    StartIsInvariant(w);
    EveryRun(w, Start(w), schedule);
    var s := Run(w, Start(w), schedule);
    assert ProcessOk(w, s.disk, w.publishers[who], s.processes[who]);
    EveryRun(w, s, later);
  }

  /**
   * An object that was there first and differs is never altered; the publisher never succeeds,
   * and its private name stays, unless another publisher that shares it did succeed.
   */
  lemma {:induction false} DifferingObjectStays(w: Setting, schedule: Schedule, who: nat)
    requires w.Sensible() && who < |w.publishers|
    requires w.public in w.origin.names && !Exact(w.sha, w.origin, w.public, w.publishers[who].want)
    ensures var s := Run(w, Start(w), schedule);
      && PublicStays(w, w.origin, s.disk)
      && !s.processes[who].stage.Done?
      && (w.publishers[who].private in w.origin.names && w.publishers[who].private !in s.disk.names ==>
            exists p :: p in w.publishers && p.private == w.publishers[who].private
                        && Exact(w.sha, s.disk, w.public, p.want))
  {
    StartIsInvariant(w);
    EveryRun(w, Start(w), schedule);
    var s := Run(w, Start(w), schedule);
    assert ProcessOk(w, s.disk, w.publishers[who], s.processes[who]);
    if w.publishers[who].private in w.origin.names && w.publishers[who].private !in s.disk.names {
      var p :| p in w.publishers && p.private == w.publishers[who].private && PublicIs(w, s.disk, p.want);
      assert Exact(w.sha, s.disk, w.public, p.want);
    }
  }
}
