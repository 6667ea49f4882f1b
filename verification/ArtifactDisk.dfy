/**
 * The file-system calls that artifact publication makes (src/executor.cpp:174-241, 752-1125).
 *
 * The kernel object carries a schedule of faults.  Every call consumes one entry of it: the
 * call may work, may fail without effect, or may be where the process dies.  A dead process
 * keeps "running" in the model, but none of its calls has any effect, so what a method leaves
 * for a schedule that dies at call n is the state between calls n-1 and n of the real run.
 */
module ArtifactDisk {
  import opened Outcomes

  type Path = seq<string>

  datatype Kind = Regular | SymbolicLink | OtherKind

  predicate Above(m: Path, n: Path) {
    m < n
  }

  datatype File = File(kind: Kind, bytes: Bytes, readOnly: bool, version: nat)

  /**
   * The names of everything but directories, and the inodes they lead to.  The directories are
   * whatever lies above a name, and some more of which it does not matter what they hold.
   */
  datatype Disk = Disk(names: map<Path, nat>, files: map<nat, File>, next: nat, folders: set<Path>) {
    /** Nothing lies beneath what is not a directory, and no directory is anything else. */
    ghost predicate WellFormed() {
      && (forall n :: n in names ==> names[n] in files)
      && (forall i :: i in files ==> i < next)
      && (forall n :: n in names ==> n !in folders)
      && (forall m, n {:trigger Above(m, n)} :: m in names && n in names ==> !Above(m, n))
    }

    /** Something that is not a directory is above it: no call gets there (`ENOTDIR`). */
    predicate Obstructed(n: Path) {
      exists m {:trigger Above(m, n)} :: m in names && Above(m, n)
    }

    predicate IsFolder(n: Path) {
      n in folders || exists m {:trigger Above(n, m)} :: m in names && Above(n, m)
    }

    /** A file could be there: its name is at most missing (`ENOENT`). */
    predicate Clear(n: Path) {
      !Obstructed(n) && !IsFolder(n)
    }

    predicate Has(n: Path) {
      n in names && names[n] in files
    }

    function Of(n: Path): File
      requires Has(n)
    {
      files[names[n]]
    }
  }

  /** The part of `file_stamp` that identifies an inode and every change to it. */
  datatype Stamp = Stamp(inode: nat, kind: Kind, readOnly: bool, size: nat, version: nat)

  function StampOf(d: Disk, inode: nat): Stamp
    requires inode in d.files
  {
    var f := d.files[inode];
    Stamp(inode, f.kind, f.readOnly, |f.bytes|, f.version)
  }

  /** The digest and byte count that terminal evidence retains. */
  datatype Evidence = Evidence(digest: string, size: nat)

  type Hash = Bytes -> string

  predicate ExactFile(sha: Hash, f: File, want: Evidence) {
    f.kind.Regular? && f.readOnly && sha(f.bytes) == want.digest && |f.bytes| == want.size
  }

  /** A name leads to a read-only regular file with the retained size and digest. */
  predicate Exact(sha: Hash, d: Disk, n: Path, want: Evidence) {
    d.Has(n) && ExactFile(sha, d.Of(n), want)
  }

  /** Linking and unlinking change an inode's status time, and so its stamp. */
  function Bumped(f: File): File {
    f.(version := f.version + 1)
  }

  function Linked(d: Disk, source: Path, destination: Path): Disk
    requires d.Has(source)
  {
    d.(names := d.names[destination := d.names[source]],
       files := d.files[d.names[source] := Bumped(d.Of(source))])
  }

  function Unlinked(d: Disk, n: Path): Disk
    requires d.Has(n)
  {
    d.(names := d.names - {n}, files := d.files[d.names[n] := Bumped(d.Of(n))])
  }

  function Created(d: Disk, n: Path): Disk {
    d.(names := d.names[n := d.next], files := d.files[d.next := File(Regular, [], false, 0)], next := d.next + 1)
  }

  function Appended(d: Disk, inode: nat, data: Bytes): Disk
    requires inode in d.files
  {
    d.(files := d.files[inode := Bumped(d.files[inode].(bytes := d.files[inode].bytes + data))])
  }

  function MadeReadOnly(d: Disk, inode: nat): Disk
    requires inode in d.files
  {
    d.(files := d.files[inode := Bumped(d.files[inode].(readOnly := true))])
  }

  lemma {:induction false} LinkedWellFormed(d: Disk, source: Path, destination: Path)
    requires d.WellFormed() && d.Has(source) && d.Clear(destination)
    ensures Linked(d, source, destination).WellFormed()
  {
  }

  lemma {:induction false} CreatedWellFormed(d: Disk, n: Path)
    requires d.WellFormed() && d.Clear(n)
    ensures Created(d, n).WellFormed()
  {
  }

  lemma {:induction false} UnlinkedWellFormed(d: Disk, n: Path)
    requires d.WellFormed() && d.Has(n)
    ensures Unlinked(d, n).WellFormed()
  {
  }

  /** Fewer names obstruct less. */
  lemma {:induction false} ClearWithFewer(d: Disk, more: Disk, n: Path)
    requires d.names.Keys <= more.names.Keys && d.folders == more.folders && more.Clear(n)
    ensures d.Clear(n)
  {
  }

  /** A name leads where it led, or still leads nowhere. */
  predicate KeepsName(before: Disk, after: Disk, n: Path) {
    (n in before.names <==> n in after.names) && (n in before.names ==> after.names[n] == before.names[n])
  }

  ghost predicate KeepsOtherNames(before: Disk, after: Disk, changed: set<Path>) {
    forall n :: n !in changed ==> KeepsName(before, after, n)
  }

  /** No inode that existed has changed its kind, its bytes or its mode. */
  ghost predicate KeepsContents(before: Disk, after: Disk) {
    && before.next <= after.next
    && before.folders == after.folders
    && forall i :: i in before.files ==>
         && i in after.files
         && after.files[i].(version := 0) == before.files[i].(version := 0)
  }

  lemma {:induction false} KeepsExact(sha: Hash, before: Disk, after: Disk, n: Path, want: Evidence)
    requires before.WellFormed() && KeepsName(before, after, n) && KeepsContents(before, after)
    ensures Exact(sha, after, n, want) == Exact(sha, before, n, want)
    ensures before.Has(n) ==> after.Has(n) && after.Of(n).kind == before.Of(n).kind
  {
    if before.Has(n) {
      var i := before.names[n];
      assert after.files[i].(version := 0) == before.files[i].(version := 0);
    }
  }

  datatype Fault = Works | Fails | Dies

  datatype Opening = Opened(inode: nat) | Absent | Refused

  datatype Linking = LinkMade | LinkExists | LinkRefused

  /** The private name of a file being prepared for `destination`. */
  function Temporary(destination: Path, suffix: string): Path
    requires destination != []
  {
    var last := |destination| - 1;
    destination[..last] + ["." + destination[last] + ".tmp." + suffix]
  }

  /** A name that `mkstemp` may have made for the destination. */
  ghost predicate IsTemporary(n: Path, destination: Path)
    requires destination != []
  {
    exists suffix :: n == Temporary(destination, suffix)
  }

  /** It lies beside the destination and is not it: a dot, the destination's own name, ".tmp." and some text. */
  lemma {:induction false} TemporaryDiffers(n: Path, destination: Path)
    requires destination != [] && IsTemporary(n, destination)
    ensures n != destination && n[..|n| - 1] == destination[..|destination| - 1]
    ensures "." + destination[|destination| - 1] + ".tmp." <= n[|n| - 1]
  {
    var suffix :| n == Temporary(destination, suffix);
    assert |n[|n| - 1]| > |destination[|destination| - 1]|;
    assert n[|n| - 1] == ("." + destination[|destination| - 1] + ".tmp.") + suffix;
  }

  function Filler(k: nat): (s: string)
    ensures |s| == k
  {
    if k == 0 then "" else Filler(k - 1) + "X"
  }

  /** `mkstemp` can always find a name nobody uses. */
  lemma {:induction false} FreshTemporary(destination: Path, taken: set<Path>, from: nat)
    requires destination != []
    ensures exists k :: k >= from && Temporary(destination, Filler(k)) !in taken
    decreases |taken|
  {
    var first := Temporary(destination, Filler(from));
    if first in taken {
      FreshTemporary(destination, taken - {first}, from + 1);
      var k :| k >= from + 1 && Temporary(destination, Filler(k)) !in taken - {first};
      var last := |destination| - 1;
      assert |Temporary(destination, Filler(k))[last]| > |first[last]|;
    }
  }

  class Kernel {
    const sha: Hash
    var disk: Disk
    var faults: seq<Fault>
    var dead: bool

    constructor (sha: Hash, disk: Disk, faults: seq<Fault>)
      ensures this.sha == sha && this.disk == disk && this.faults == faults && !dead
    {
      this.sha := sha;
      this.disk := disk;
      this.faults := faults;
      this.dead := false;
    }

    /** No fault lies ahead. */
    ghost predicate Calm()
      reads this
    {
      faults == [] && !dead
    }

    /** A new process, with what lies ahead of it, over the disk the last one left. */
    method Restart(faults: seq<Fault>)
      modifies this`faults, this`dead
      ensures this.faults == faults && !dead
    {
      this.faults := faults;
      dead := false;
    }

    /** Consume one entry of the schedule; false if the call has no effect. */
    method Tick() returns (works: bool)
      modifies this`faults, this`dead
      ensures old(Calm()) ==> works && Calm()
      ensures works ==> !dead
      ensures old(dead) ==> dead
    {
      if dead {
        return false;
      }
      if faults == [] {
        return true;
      }
      var next := faults[0];
      faults := faults[1..];
      dead := next.Dies?;
      works := next.Works?;
    }

    /** Open the parent directory and `fsync` it. */
    method SynchronizeParent() returns (works: bool)
      modifies this`faults, this`dead
      ensures old(Calm()) ==> works && Calm()
    {
      works := Tick();
      if works {
        works := Tick();
      }
    }

    /** `open` for reading, without following a symbolic link; a directory opens too, and is then refused. */
    method Open(n: Path) returns (r: Opening)
      requires disk.WellFormed()
      modifies this`faults, this`dead
      ensures old(Calm()) ==> Calm()
      ensures old(dead) ==> dead && r.Refused?
      ensures r.Opened? ==> n in disk.names && disk.names[n] == r.inode && !disk.files[r.inode].kind.SymbolicLink?
      ensures r.Absent? ==> n !in disk.names && disk.Clear(n)
      ensures old(Calm()) && r.Refused? ==>
        if n in disk.names then disk.Of(n).kind.SymbolicLink? else !disk.Clear(n)
    {
      var works := Tick();
      if !works {
        return Refused;
      }
      if n !in disk.names {
        return if disk.Clear(n) then Absent else Refused;
      }
      if disk.Of(n).kind.SymbolicLink? {
        return Refused;
      }
      r := Opened(disk.names[n]);
    }

    /** `fstat`. */
    method Fstat(inode: nat) returns (r: Option<Stamp>)
      requires inode in disk.files
      modifies this`faults, this`dead
      ensures old(Calm()) ==> Calm() && r.Some?
      ensures old(dead) ==> dead && r.None?
      ensures r.Some? ==> r.value == StampOf(disk, inode)
    {
      var works := Tick();
      r := if works then Some(StampOf(disk, inode)) else None;
    }

    /** `lstat`; a directory is not told apart from a name that cannot be reached. */
    method Lstat(n: Path) returns (r: Option<Stamp>, missing: bool)
      requires disk.WellFormed()
      modifies this`faults, this`dead
      ensures old(Calm()) ==> Calm() && r.Some? == (n in disk.names) && (r.None? ==> missing == disk.Clear(n))
      ensures old(dead) ==> dead && r.None? && !missing
      ensures r.Some? ==> n in disk.names && r.value == StampOf(disk, disk.names[n])
      ensures missing ==> r.None? && n !in disk.names && disk.Clear(n)
    {
      var works := Tick();
      missing := works && n !in disk.names && disk.Clear(n);
      r := if works && n in disk.names then Some(StampOf(disk, disk.names[n])) else None;
    }

    /** `read` at an offset: some of the bytes there, none only at the end. */
    method Read(inode: nat, offset: nat) returns (r: Option<Bytes>)
      requires inode in disk.files && offset <= |disk.files[inode].bytes|
      modifies this`faults, this`dead
      ensures old(Calm()) ==> Calm() && r.Some?
      ensures old(dead) ==> dead && r.None?
      ensures r.Some? ==>
        && offset + |r.value| <= |disk.files[inode].bytes|
        && r.value == disk.files[inode].bytes[offset..offset + |r.value|]
        && (r.value == [] ==> offset == |disk.files[inode].bytes|)
    {
      var works := Tick();
      if !works {
        return None;
      }
      var bytes := disk.files[inode].bytes;
      if offset == |bytes| {
        return Some([]);
      }
      var count :| 1 <= count <= |bytes| - offset;
      r := Some(bytes[offset..offset + count]);
    }

    /** `write` at the end: some of the bytes given. */
    method Write(inode: nat, data: Bytes) returns (count: nat)
      requires inode in disk.files && data != []
      modifies this
      ensures old(Calm()) ==> Calm() && count > 0
      ensures old(dead) ==> dead && count == 0
      ensures count <= |data| && disk == if count == 0 then old(disk) else Appended(old(disk), inode, data[..count])
    {
      var works := Tick();
      if !works {
        return 0;
      }
      count :| 1 <= count <= |data|;
      disk := Appended(disk, inode, data[..count]);
    }

    /** `fchmod` to 0444. */
    method MakeReadOnly(inode: nat) returns (works: bool)
      requires inode in disk.files
      modifies this
      ensures old(Calm()) ==> Calm() && works
      ensures old(dead) ==> dead && !works
      ensures disk == if works then MadeReadOnly(old(disk), inode) else old(disk)
    {
      works := Tick();
      if works {
        disk := MadeReadOnly(disk, inode);
      }
    }

    /** `link`: never replaces; a directory at the destination is never adopted, so it counts as refused. */
    method Link(source: Option<Path>, destination: Path) returns (r: Linking)
      requires disk.WellFormed()
      modifies this
      ensures old(Calm()) ==> Calm()
      ensures old(Calm()) && source.Some? && source.value in old(disk).names ==>
        r.LinkRefused? == (destination !in old(disk).names && !old(disk).Clear(destination))
      ensures old(dead) ==> dead && r.LinkRefused?
      ensures r.LinkMade? ==>
        && source.Some?
        && source.value in old(disk).names
        && destination !in old(disk).names
        && old(disk).Clear(destination)
        && disk == Linked(old(disk), source.value, destination)
      ensures r.LinkExists? ==> source.Some? && source.value in old(disk).names && destination in old(disk).names
      ensures !r.LinkMade? ==> disk == old(disk)
    {
      var works := Tick();
      if !works || source.None? || source.value !in disk.names {
        return LinkRefused;
      }
      if destination in disk.names {
        return LinkExists;
      }
      if !disk.Clear(destination) {
        return LinkRefused;
      }
      disk := Linked(disk, source.value, destination);
      r := LinkMade;
    }

    /** `unlink`. */
    method Unlink(n: Path) returns (works: bool)
      requires disk.WellFormed()
      modifies this
      ensures old(Calm()) ==> Calm() && works == (n in old(disk).names)
      ensures old(dead) ==> dead && !works
      ensures works ==> n in old(disk).names && disk == Unlinked(old(disk), n)
      ensures !works ==> disk == old(disk)
    {
      works := Tick();
      if works {
        if n in disk.names {
          disk := Unlinked(disk, n);
        } else {
          works := false;
        }
      }
    }

    /** `mkstemp` beside the destination. */
    method Mkstemp(destination: Path) returns (r: Option<Path>)
      requires destination != []
      modifies this
      ensures old(Calm()) ==> Calm() && r.Some? == !old(disk).Obstructed(destination)
      ensures old(dead) ==> dead && r.None?
      ensures r.Some? ==>
        && r.value !in old(disk).names
        && old(disk).Clear(r.value)
        && IsTemporary(r.value, destination)
        && disk == Created(old(disk), r.value)
      ensures r.None? ==> disk == old(disk)
    {
      var works := Tick();
      if !works || disk.Obstructed(destination) {
        return None;
      }
      ghost var taken := Taken(disk, |destination|);
      FreshTemporary(destination, taken, 0);
      var length := 0;
      ghost var enough :| enough >= 0 && Temporary(destination, Filler(enough)) !in taken;
      NotTaken(disk, destination, Filler(enough));
      while
        || Temporary(destination, Filler(length)) in disk.names
        || disk.IsFolder(Temporary(destination, Filler(length)))
        invariant length <= enough
        decreases enough - length
      {
        length := length + 1;
      }
      r := Some(Temporary(destination, Filler(length)));
      BesideIsReached(disk, destination, Filler(length));
      disk := Created(disk, r.value);
    }
  }

  /** The names of one length that are taken, or are above what is. */
  ghost function Taken(d: Disk, length: nat): set<Path> {
    d.folders + set m | m in d.names && |m| >= length :: m[..length]
  }

  lemma {:induction false} NotTaken(d: Disk, destination: Path, suffix: string)
    requires destination != [] && Temporary(destination, suffix) !in Taken(d, |destination|)
    ensures Temporary(destination, suffix) !in d.names && !d.IsFolder(Temporary(destination, suffix))
  {
    var n := Temporary(destination, suffix);
    forall m | m in d.names
      ensures m != n && !Above(n, m)
    {
      assert |n| == |destination|;
      assert |m| >= |n| ==> m[..|n|] in Taken(d, |n|) && m[..|n|] != n;
    }
  }

  /** What is above a temporary is above the destination. */
  lemma {:induction false} BesideIsReached(d: Disk, destination: Path, suffix: string)
    requires destination != []
    ensures d.Obstructed(Temporary(destination, suffix)) <==> d.Obstructed(destination)
  {
    var n := Temporary(destination, suffix);
    forall m
      ensures Above(m, n) <==> Above(m, destination)
    {
      assert n[..|n| - 1] == destination[..|n| - 1];
      if |m| < |n| {
        assert n[..|m|] == n[..|n| - 1][..|m|] && destination[..|m|] == destination[..|n| - 1][..|m|];
      }
    }
  }
}
