/**
 * Inspection and encoding while something else changes the tree (src/executor.cpp:435-468,
 * 491-675, 677-714, 1126-1256, 1328-1333).  Each directory and regular file is stamped before and
 * after it is read, and stamped again when it is copied; this is enough for one instant at which
 * all retained files held what was copied.
 */
module Snapshot {
  import opened Outcomes

  type Path = seq<string>

  datatype Kind = RegularFile | DirectoryFile | OtherFile

  /** An inode at one instant: a regular file's bytes, a directory's names. */
  datatype Cell = Cell(version: nat, kind: Kind, links: nat, bytes: Bytes, names: seq<string>)

  /** The whole history of the tree: each inode, what each name leads to, and the root, at every instant. */
  datatype World = World(
    sha: Bytes -> string,
    cell: (nat, nat) -> Cell,
    child: (nat, string, nat) -> Option<nat>,
    root: nat -> Option<nat>)
  {
    /** Every change of an inode advances its stamp, and no directory holds a name twice. */
    ghost predicate Lawful() {
      && (forall i, t :: Advances(i, t))
      && (forall i, t :: DistinctNames(cell(i, t).names))
    }

    predicate Advances(i: nat, t: nat) {
      if cell(i, t + 1) == cell(i, t) then true else cell(i, t).version < cell(i, t + 1).version
    }

    /** The inode was the same at every instant of an interval. */
    ghost predicate Still(i: nat, from: nat, to: nat) {
      forall t :: from <= t <= to ==> cell(i, t) == cell(i, from)
    }
  }

  predicate DistinctNames(names: seq<string>) {
    forall i, j :: 0 <= i < j < |names| ==> names[i] != names[j]
  }

  datatype Stamp = Stamp(inode: nat, version: nat, kind: Kind, links: nat, size: nat)

  function StampAt(w: World, inode: nat, t: nat): Stamp {
    var c := w.cell(inode, t);
    Stamp(inode, c.version, c.kind, c.links, |c.bytes|)
  }

  lemma {:induction false} VersionsGrow(w: World, i: nat, t: nat, u: nat)
    requires w.Lawful() && t <= u
    ensures w.cell(i, t).version <= w.cell(i, u).version
    decreases u
  {
    if t < u {
      VersionsGrow(w, i, t, u - 1);
      assert w.Advances(i, u - 1);
    }
  }

  /** An inode with the same stamp at two instants did not change in between. */
  lemma {:induction false} SameStampIsStill(w: World, i: nat, from: nat, to: nat)
    requires w.Lawful() && from <= to && StampAt(w, i, from) == StampAt(w, i, to)
    ensures w.Still(i, from, to)
  {
    forall t | from <= t <= to
      ensures w.cell(i, t) == w.cell(i, from)
    {
      StillUpTo(w, i, from, t, to);
    }
  }

  lemma {:induction false} StillUpTo(w: World, i: nat, from: nat, t: nat, to: nat)
    requires w.Lawful() && from <= t <= to && w.cell(i, from).version == w.cell(i, to).version
    ensures w.cell(i, t) == w.cell(i, from)
    decreases t
  {
    if from < t {
      StillUpTo(w, i, from, t - 1, to);
      assert w.Advances(i, t - 1);
      VersionsGrow(w, i, t, to);
    }
  }

  datatype Retained = Retained(path: Path, stamp: Stamp, size: nat, digest: string)

  /** A regular entry of the manifest. */
  datatype Regular = Regular(path: Path, size: nat, digest: string)

  /** At this instant the retained inode had the retained stamp, size and digest. */
  ghost predicate Sees(w: World, r: Retained, t: nat) {
    && r.stamp == StampAt(w, r.stamp.inode, t)
    && r.stamp.kind.RegularFile?
    && r.size == |w.cell(r.stamp.inode, t).bytes|
    && r.digest == w.sha(w.cell(r.stamp.inode, t).bytes)
  }

  /** At the instant, the retained inode is a regular file holding exactly these bytes. */
  ghost predicate Held(w: World, r: Retained, instant: nat, bytes: Bytes) {
    && w.cell(r.stamp.inode, instant).kind.RegularFile?
    && w.cell(r.stamp.inode, instant).bytes == bytes
    && |bytes| == r.size
    && w.sha(bytes) == r.digest
  }

  /** Every record was seen at an instant up to now. */
  ghost predicate AllSeen(w: World, regulars: seq<Retained>, seen: seq<nat>, now: nat) {
    |seen| == |regulars| && forall k :: 0 <= k < |regulars| ==> seen[k] <= now && Sees(w, regulars[k], seen[k])
  }

  /** The records from `from` on lie beneath the prefix, and no two have the same path. */
  ghost predicate FreshBeneath(regulars: seq<Retained>, from: nat, prefix: Path) {
    && (forall k :: from <= k < |regulars| ==> prefix <= regulars[k].path)
    && (forall j, k :: from <= j < k < |regulars| ==> regulars[j].path != regulars[k].path)
  }

  /**
   * The records from `from` on, each beneath the name it was found under; those under one listed
   * name have different paths.
   */
  ghost predicate Owned(regulars: seq<Retained>, from: nat, prefix: Path, names: seq<string>, owner: seq<nat>) {
    && from <= |regulars| && |owner| == |regulars| - from
    && (forall k :: 0 <= k < |owner| ==> owner[k] < |names| && prefix + [names[owner[k]]] <= regulars[from + k].path)
    && (forall j, k :: 0 <= j < k < |owner| && owner[j] == owner[k] ==>
         regulars[from + j].path != regulars[from + k].path)
  }

  lemma {:induction false} OwnedMore(
      earlier: seq<Retained>, regulars: seq<Retained>, from: nat, prefix: Path, names: seq<string>,
      owner: seq<nat>, i: nat)
    returns (more: seq<nat>)
    requires Owned(earlier, from, prefix, names, owner) && earlier <= regulars && i < |names|
    requires forall k :: 0 <= k < |owner| ==> owner[k] < i
    requires FreshBeneath(regulars, |earlier|, prefix + [names[i]])
    ensures Owned(regulars, from, prefix, names, more) && forall k :: 0 <= k < |more| ==> more[k] <= i
  {
    more := owner + seq(|regulars| - |earlier|, _ => i);
    assert forall k :: 0 <= k < |owner| ==> regulars[from + k] == earlier[from + k] && more[k] == owner[k];
    assert forall k :: |owner| <= k < |more| ==> more[k] == i;
  }

  /** If the directory lists no name twice, no two records have the same path. */
  lemma {:induction false} OwnedIsFresh(
      regulars: seq<Retained>, from: nat, prefix: Path, names: seq<string>, owner: seq<nat>)
    requires Owned(regulars, from, prefix, names, owner) && DistinctNames(names)
    ensures FreshBeneath(regulars, from, prefix)
  {
    var n := |prefix|;
    forall k | from <= k < |regulars|
      ensures prefix <= regulars[k].path && |regulars[k].path| > n
      ensures regulars[k].path[n] == names[owner[k - from]]
    {
      var under := prefix + [names[owner[k - from]]];
      assert under <= regulars[from + (k - from)].path;
      assert regulars[k].path[n] == under[n] && regulars[k].path[..n] == under[..n] == prefix;
    }
    forall j, k | from <= j < k < |regulars|
      ensures regulars[j].path != regulars[k].path
    {
      var a, b := owner[j - from], owner[k - from];
      assert a == b ==> regulars[from + (j - from)].path != regulars[from + (k - from)].path;
      assert a != b ==> names[a] != names[b];
    }
  }

  /**
   * The calls one run makes.  Each happens after a delay of the schedule's choosing, during which
   * anything may change; a run makes as many calls as the schedule has delays, and fails after
   * that.  Every run that ends makes finitely many calls, so schedules cover them all.
   */
  class Observer {
    const w: World
    var now: nat
    var delays: seq<nat>

    /** What `inspect_directory` pushes into and remembers. */
    var regulars: seq<Retained>
    var targets: map<nat, Path>
    /** When each record was seen. */
    ghost var seen: seq<nat>

    constructor (w: World, start: nat, delays: seq<nat>)
      ensures this.w == w && now == start && this.delays == delays && regulars == [] && seen == [] && targets == map[]
    {
      this.w := w;
      now := start;
      this.delays := delays;
      regulars := [];
      targets := map[];
      seen := [];
    }

    method Wait() returns (works: bool)
      modifies this`now, this`delays
      ensures now >= old(now) && |delays| <= |old(delays)|
      ensures works ==> |delays| < |old(delays)|
    {
      works := delays != [];
      if works {
        now := now + delays[0];
        delays := delays[1..];
      }
    }

    /** `fstatat` without following a symbolic link. */
    method Stat(directory: nat, name: string) returns (r: Option<Stamp>)
      modifies this`now, this`delays
      ensures now >= old(now) && |delays| <= |old(delays)|
      ensures r.Some? ==> |delays| < |old(delays)| && r.value == StampAt(w, r.value.inode, now)
    {
      var works := Wait();
      var inode := w.child(directory, name, now);
      r := if works && inode.Some? then Some(StampAt(w, inode.value, now)) else None;
    }

    /** `openat`; opening a directory insists on one. */
    method Openat(directory: nat, name: string, insist: bool) returns (r: Option<nat>)
      modifies this`now, this`delays
      ensures now >= old(now) && |delays| <= |old(delays)|
    {
      var works := Wait();
      r := if works then w.child(directory, name, now) else None;
      if r.Some? && insist && !w.cell(r.value, now).kind.DirectoryFile? {
        r := None;
      }
    }

    method OpenRoot() returns (r: Option<nat>)
      modifies this`now, this`delays
      ensures now >= old(now) && |delays| <= |old(delays)|
    {
      var works := Wait();
      r := if works then w.root(now) else None;
    }

    method Fstat(inode: nat) returns (r: Option<Stamp>)
      modifies this`now, this`delays
      ensures now >= old(now) && |delays| <= |old(delays)|
      ensures r.Some? ==> |delays| < |old(delays)| && r.value == StampAt(w, inode, now)
    {
      var works := Wait();
      r := if works then Some(StampAt(w, inode, now)) else None;
    }

    /** Some of what is at the offset at that instant; nothing only at the end. */
    method Read(inode: nat, offset: nat) returns (r: Option<Bytes>)
      modifies this`now, this`delays
      ensures now >= old(now) && |delays| <= |old(delays)|
      ensures r.Some? ==> |delays| < |old(delays)|
      ensures r.Some? ==> ReadsAt(w.cell(inode, now).bytes, offset, r.value)
    {
      var works := Wait();
      if !works {
        return None;
      }
      var bytes := w.cell(inode, now).bytes;
      if offset >= |bytes| {
        return Some([]);
      }
      var count :| 1 <= count <= |bytes| - offset;
      r := Some(bytes[offset..offset + count]);
    }

    /** The bytes a descriptor yields from its start to its end, if its stamp is `before` afterwards. */
    method ReadBetween(inode: nat, before: Stamp, ghost since: nat) returns (r: Option<Bytes>)
      requires w.Lawful() && since <= now && before == StampAt(w, inode, since)
      modifies this`now, this`delays
      ensures now >= old(now) && |delays| <= |old(delays)|
      ensures r.Some? ==> StampAt(w, inode, now) == before && r.value == w.cell(inode, since).bytes
    {
      var read: Bytes := [];
      var done := false;
      ghost var calls: seq<(nat, Bytes)> := [];
      while !done
        invariant old(now) <= now && |delays| <= |old(delays)|
        invariant ReadsOf(w, inode, calls, since, now) && read == Joined(calls)
        invariant done ==> calls != [] && calls[|calls| - 1].1 == []
        decreases !done, |delays|
      {
        ghost var asked := now;
        var chunk := Read(inode, |read|);
        if chunk.None? {
          return None;
        }
        JoinedMore(calls, (now, chunk.value));
        CallsMore(w, inode, calls, since, asked, now, chunk.value);
        calls := calls + [(now, chunk.value)];
        read := read + chunk.value;
        done := chunk.value == [];
      }
      ghost var last := now;
      var after := Fstat(inode);
      if after.None? || after.value != before || |read| != before.size {
        return None;
      }
      SameStampIsStill(w, inode, since, now);
      StillReadsAll(w, inode, calls, since, last, now);
      r := Some(read);
    }

    /** `directory_names`: one name after another, each read at its own instant. */
    method DirectoryNames(directory: nat, ghost since: nat) returns (r: Option<seq<string>>)
      requires since <= now
      modifies this`now, this`delays
      ensures now >= old(now) && |delays| <= |old(delays)|
      ensures r.Some? ==> forall later :: now <= later && w.Still(directory, since, later) ==>
        r.value == w.cell(directory, since).names
    {
      var names: seq<string> := [];
      var done := false;
      while !done
        invariant old(now) <= now && |delays| <= |old(delays)|
        invariant forall later :: now <= later && w.Still(directory, since, later) ==>
          names <= w.cell(directory, since).names && (done ==> names == w.cell(directory, since).names)
        decreases !done, |delays|
      {
        var works := Wait();
        if !works {
          return None;
        }
        var here := w.cell(directory, now).names;
        ghost var at := now;
        assert forall later :: now <= later && w.Still(directory, since, later) ==>
          w.cell(directory, at) == w.cell(directory, since);
        if |names| < |here| {
          names := names + [here[|names|]];
        } else {
          done := true;
        }
      }
      r := Some(names);
    }

    /** The regular-file branch of `inspect_directory`. */
    method InspectRegular(directory: nat, name: string, path: Path, before: Stamp, ghost since: nat) returns (ok: bool)
      requires w.Lawful() && since <= now && before == StampAt(w, before.inode, since) && before.kind.RegularFile?
      requires AllSeen(w, regulars, seen, now)
      modifies this
      ensures now >= old(now) && |delays| <= |old(delays)| && AllSeen(w, regulars, seen, now)
      ensures ok ==> old(regulars) <= regulars && FreshBeneath(regulars, |old(regulars)|, path)
    {
      var file := Openat(directory, name, false);
      if file.None? {
        return false;
      }
      var stamped := Fstat(file.value);
      if stamped != Some(before) {
        return false;
      }
      if before.links > 1 {
        if before.inode in targets {
          var again := Stat(directory, name);
          return again == Some(before);
        }
        targets := targets[before.inode := path];
      }
      var bytes := ReadBetween(file.value, before, since);
      if bytes.None? {
        return false;
      }
      var after := Stat(directory, name);
      if after != Some(before) {
        return false;
      }
      regulars := regulars + [Retained(path, before, |bytes.value|, w.sha(bytes.value))];
      seen := seen + [since];
      ok := true;
    }

    /** One name of a directory. */
    method InspectEntry(directory: nat, name: string, path: Path) returns (ok: bool)
      requires w.Lawful() && AllSeen(w, regulars, seen, now)
      modifies this
      ensures now >= old(now) && |delays| <= |old(delays)| && AllSeen(w, regulars, seen, now)
      ensures ok ==> old(regulars) <= regulars && FreshBeneath(regulars, |old(regulars)|, path)
      decreases |delays|, 0
    {
      var before := Stat(directory, name);
      if before.None? {
        return false;
      }
      ghost var since := now;
      match before.value.kind
      case RegularFile =>
        ok := InspectRegular(directory, name, path, before.value, since);
      case DirectoryFile =>
        var child := Openat(directory, name, true);
        if child.None? {
          return false;
        }
        var entered := Fstat(child.value);
        if entered != before {
          return false;
        }
        ok := InspectDirectory(child.value, path);
        if ok {
          var left := Fstat(child.value);
          ok := left == before;
        }
      case OtherFile =>
        var after := Stat(directory, name);
        ok := after == before;
    }

    /**
     * `inspect_directory`, as far as regular files go.  The directory's own stamp, equal before and
     * after, makes the listing one instant's listing, which holds no name twice.
     */
    method InspectDirectory(directory: nat, prefix: Path) returns (ok: bool)
      requires w.Lawful() && AllSeen(w, regulars, seen, now)
      modifies this
      ensures now >= old(now) && |delays| <= |old(delays)| && AllSeen(w, regulars, seen, now)
      ensures ok ==> old(regulars) <= regulars && FreshBeneath(regulars, |old(regulars)|, prefix)
      decreases |delays|, 1
    {
      ghost var start := regulars;
      var before := Fstat(directory);
      if before.None? || !before.value.kind.DirectoryFile? {
        return false;
      }
      ghost var since := now;
      var names := DirectoryNames(directory, since);
      if names.None? {
        return false;
      }
      ghost var listed := now;
      ghost var owner: seq<nat> := [];
      for i := 0 to |names.value|
        invariant now >= listed && |delays| < |old(delays)| && AllSeen(w, regulars, seen, now)
        invariant start <= regulars && Owned(regulars, |start|, prefix, names.value, owner)
        invariant forall k :: 0 <= k < |owner| ==> owner[k] < i
      {
        ghost var earlier := regulars;
        var done := InspectEntry(directory, names.value[i], prefix + [names.value[i]]);
        if !done {
          return false;
        }
        owner := OwnedMore(earlier, regulars, |start|, prefix, names.value, owner, i);
      }
      var after := Fstat(directory);
      if after != before {
        return false;
      }
      SameStampIsStill(w, directory, since, now);
      assert DistinctNames(w.cell(directory, since).names);
      OwnedIsFresh(regulars, |start|, prefix, names.value, owner);
      ok := true;
    }

    /** `open_regular_beneath`, one component at a time. */
    method OpenRegularBeneath(root: nat, path: Path) returns (r: Option<nat>)
      modifies this`now, this`delays
      ensures now >= old(now) && |delays| <= |old(delays)|
    {
      var current := root;
      for i := 0 to |path|
        invariant now >= old(now) && |delays| <= |old(delays)|
      {
        var next := Openat(current, path[i], i + 1 < |path|);
        if next.None? {
          return None;
        }
        current := next.value;
      }
      r := Some(current);
    }

    /** `write_regular_payload`: reopen, insist on the retained stamp, copy, insist on it again. */
    method WriteRegular(root: nat, regular: Retained, ghost at: nat) returns (r: Option<Bytes>)
      requires w.Lawful() && Sees(w, regular, at) && at <= now
      modifies this`now, this`delays
      ensures now >= old(now)
      ensures r.Some? ==> forall instant :: at <= instant <= old(now) ==> Held(w, regular, instant, r.value)
    {
      var inode := OpenRegularBeneath(root, regular.path);
      if inode.None? {
        return None;
      }
      var before := Fstat(inode.value);
      if before.None? || before.value != regular.stamp || !before.value.kind.RegularFile? {
        return None;
      }
      ghost var reopened := now;
      var bytes := ReadBetween(inode.value, before.value, reopened);
      if bytes.None? || |bytes.value| != regular.size || w.sha(bytes.value) != regular.digest {
        return None;
      }
      SameStampIsStill(w, inode.value, at, now);
      assert w.cell(inode.value, reopened) == w.cell(inode.value, at);
      r := Some(bytes.value);
    }

    /** The encoding pass over the sealed manifest's regular entries. */
    method EncodeAll(root: nat, manifest: seq<Regular>, ghost inspected: nat) returns (r: Option<seq<Bytes>>)
      requires w.Lawful() && inspected <= now && AllSeen(w, regulars, seen, inspected)
      requires forall k :: 0 <= k < |manifest| ==> Describes(manifest[k], regulars)
      modifies this`now, this`delays
      ensures now >= old(now)
      ensures r.Some? ==> HeldThroughout(w, manifest, regulars, inspected, old(now), r.value)
    {
      ghost var start := now;
      var written: seq<Bytes> := [];
      for i := 0 to |manifest|
        invariant now >= old(now) && |written| == i
        invariant HeldThroughout(w, manifest[..i], regulars, inspected, start, written)
      {
        assert Describes(manifest[i], regulars);
        var k := RegularFor(regulars, manifest[i].path);
        if k.None? {
          return None;
        }
        var bytes := WriteRegular(root, regulars[k.value], seen[k.value]);
        if bytes.None? {
          return None;
        }
        assert (written + [bytes.value])[..i] == written;
        written := written + [bytes.value];
        ghost var prefix := manifest[..i + 1];
        forall instant | inspected <= instant <= start
          ensures HeldTogether(w, prefix, regulars, instant, written)
        {
          assert HeldTogether(w, manifest[..i], regulars, instant, written[..i]);
          HeldOneMore(w, manifest, i, regulars, instant, written);
        }
      }
      assert manifest[..|manifest|] == manifest;
      r := Some(written);
    }

    /**
     * `inspect_payload`, then `encode_artifact`: at every instant from the end of the inspection to
     * the start of the encoding, all the files at once held what was written.
     */
    method InspectThenEncode(seal: seq<Regular> -> Option<seq<Regular>>)
      returns (manifest: seq<Regular>, written: Option<seq<Bytes>>, ghost inspected: nat, ghost encoding: nat)
      requires w.Lawful() && regulars == [] && seen == [] && targets == map[]
      requires forall es, e :: seal(es).Some? && e in seal(es).value ==> e in es
      modifies this
      ensures old(now) <= inspected <= encoding <= now && AllSeen(w, regulars, seen, inspected)
      ensures written.Some? ==> HeldThroughout(w, manifest, regulars, inspected, encoding, written.value)
    {
      manifest, written, inspected, encoding := [], None, now, now;
      var root := OpenRoot();
      if root.None? {
        return;
      }
      var complete := InspectDirectory(root.value, []);
      inspected, encoding := now, now;
      if !complete {
        return;
      }
      var sealed := seal(Entries(regulars));
      if sealed.None? {
        return;
      }
      manifest := sealed.value;
      EntriesDescribed(regulars);
      forall k | 0 <= k < |manifest|
        ensures Describes(manifest[k], regulars)
      {
        assert manifest[k] in sealed.value;
        assert manifest[k] in Entries(regulars);
      }
      var stamp := Fstat(root.value);
      var again := OpenRoot();
      if stamp.None? || again.None? {
        return;
      }
      var reopened := Fstat(again.value);
      if reopened != stamp {
        return;
      }
      encoding := now;
      written := EncodeAll(again.value, manifest, inspected);
      var left := Fstat(again.value);
      if left != stamp {
        written := None;
      }
    }
  }

  /** What one call may return for the bytes there at that instant. */
  ghost predicate ReadsAt(bytes: Bytes, offset: nat, chunk: Bytes) {
    if offset >= |bytes| then chunk == []
    else chunk != [] && offset + |chunk| <= |bytes| && chunk == bytes[offset..offset + |chunk|]
  }

  function Joined(calls: seq<(nat, Bytes)>): Bytes {
    if calls == [] then [] else Joined(calls[..|calls| - 1]) + calls[|calls| - 1].1
  }

  lemma {:induction false} JoinedMore(calls: seq<(nat, Bytes)>, next: (nat, Bytes))
    ensures Joined(calls + [next]) == Joined(calls) + next.1
  {
    assert (calls + [next])[..|calls|] == calls;
  }

  /** Each read took, at its own instant, what was then at the end of the earlier ones. */
  ghost predicate ReadsOf(w: World, inode: nat, calls: seq<(nat, Bytes)>, from: nat, to: nat) {
    calls == [] ||
    (var last := |calls| - 1;
     && ReadsOf(w, inode, calls[..last], from, to)
     && from <= calls[last].0 <= to
     && ReadsAt(w.cell(inode, calls[last].0).bytes, |Joined(calls[..last])|, calls[last].1))
  }

  lemma {:induction false} CallsMore(
      w: World, inode: nat, calls: seq<(nat, Bytes)>, from: nat, to: nat, at: nat, chunk: Bytes)
    requires ReadsOf(w, inode, calls, from, to) && from <= to <= at
    requires ReadsAt(w.cell(inode, at).bytes, |Joined(calls)|, chunk)
    ensures ReadsOf(w, inode, calls + [(at, chunk)], from, at)
  {
    assert (calls + [(at, chunk)])[..|calls|] == calls;
    ReadsOfLater(w, inode, calls, from, to, at);
  }

  lemma {:induction false} ReadsOfLater(w: World, inode: nat, calls: seq<(nat, Bytes)>, from: nat, to: nat, later: nat)
    requires ReadsOf(w, inode, calls, from, to) && to <= later
    ensures ReadsOf(w, inode, calls, from, later)
  {
    if calls != [] {
      ReadsOfLater(w, inode, calls[..|calls| - 1], from, to, later);
    }
  }

  /** One more read of bytes that stand still. */
  lemma {:induction false} ReadsOn(bytes: Bytes, read: Bytes, chunk: Bytes)
    requires read <= bytes && ReadsAt(bytes, |read|, chunk)
    ensures read + chunk <= bytes && (chunk == [] ==> read == bytes)
  {
  }

  /** If the inode stood still meanwhile, the reads join to a prefix of its bytes, and to all of them at the end. */
  lemma {:induction false} StillReadsAll(w: World, inode: nat, calls: seq<(nat, Bytes)>, from: nat, to: nat, still: nat)
    requires w.Still(inode, from, still) && to <= still && from <= to && ReadsOf(w, inode, calls, from, to)
    ensures Joined(calls) <= w.cell(inode, from).bytes
    ensures calls != [] && calls[|calls| - 1].1 == [] ==> Joined(calls) == w.cell(inode, from).bytes
  {
    if calls != [] {
      var earlier, last := calls[..|calls| - 1], calls[|calls| - 1];
      StillReadsAll(w, inode, earlier, from, to, still);
      assert w.cell(inode, last.0) == w.cell(inode, from);
      ReadsOn(w.cell(inode, from).bytes, Joined(earlier), last.1);
    }
  }

  /** `regular_for`: the first record with the path. */
  function RegularFor(regulars: seq<Retained>, path: Path): (k: Option<nat>)
    ensures k.Some? ==> k.value < |regulars| && regulars[k.value].path == path
    ensures k.None? ==> forall i :: 0 <= i < |regulars| ==> regulars[i].path != path
  {
    if regulars == [] then None
    else if regulars[0].path == path then Some(0)
    else
      match RegularFor(regulars[1..], path)
      case None => None
      case Some(k) => Some(k + 1)
  }

  /** The record found for an entry has the entry's size and digest. */
  predicate Describes(e: Regular, regulars: seq<Retained>) {
    var k := RegularFor(regulars, e.path);
    k.Some? ==> regulars[k.value].size == e.size && regulars[k.value].digest == e.digest
  }

  /** Every regular entry of the manifest, with the bytes written for it, all at one instant. */
  ghost predicate HeldTogether(
      w: World, manifest: seq<Regular>, regulars: seq<Retained>, instant: nat, written: seq<Bytes>)
  {
    && |written| == |manifest|
    && forall i :: 0 <= i < |manifest| ==>
         var k := RegularFor(regulars, manifest[i].path);
         && k.Some?
         && Held(w, regulars[k.value], instant, written[i])
         && |written[i]| == manifest[i].size
         && w.sha(written[i]) == manifest[i].digest
  }

  /** The same at every instant of an interval. */
  ghost predicate HeldThroughout(
    w: World, manifest: seq<Regular>, regulars: seq<Retained>, from: nat, to: nat, written: seq<Bytes>)
  {
    |written| == |manifest| && forall t :: from <= t <= to ==> HeldTogether(w, manifest, regulars, t, written)
  }

  lemma {:induction false} HeldOneMore(
      w: World, manifest: seq<Regular>, i: nat, regulars: seq<Retained>, instant: nat, written: seq<Bytes>)
    requires i < |manifest| && |written| == i + 1
    requires HeldTogether(w, manifest[..i], regulars, instant, written[..i])
    requires var k := RegularFor(regulars, manifest[i].path);
      k.Some? && Held(w, regulars[k.value], instant, written[i]) && Describes(manifest[i], regulars)
    ensures HeldTogether(w, manifest[..i + 1], regulars, instant, written)
  {
    forall j | 0 <= j < i
      ensures written[j] == written[..i][j] && manifest[..i + 1][j] == manifest[..i][j]
    {
    }
  }

  function Entries(regulars: seq<Retained>): (es: seq<Regular>)
    ensures |es| == |regulars|
    ensures forall k :: 0 <= k < |es| ==> es[k] == Regular(regulars[k].path, regulars[k].size, regulars[k].digest)
  {
    seq(|regulars|, k requires 0 <= k < |regulars| => Regular(regulars[k].path, regulars[k].size, regulars[k].digest))
  }

  /** With distinct paths, the record found for an entry is the one it was made from. */
  lemma {:induction false} EntriesDescribed(regulars: seq<Retained>)
    requires FreshBeneath(regulars, 0, [])
    ensures forall e :: e in Entries(regulars) ==> Describes(e, regulars)
  {
    forall e | e in Entries(regulars)
      ensures Describes(e, regulars)
    {
      var k :| 0 <= k < |regulars| && Entries(regulars)[k] == e;
      var found := RegularFor(regulars, e.path);
      assert found.Some? ==> regulars[found.value].path == regulars[k].path;
    }
  }
}
