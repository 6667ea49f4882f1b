/** The inspection as the program runs it (src/executor.cpp:435-489, 523-701). */
module Inspector {
  import opened Outcomes
  import opened TextOrder
  import opened OutputTree
  import opened Inspection

  /**
   * `read_symlink`: the kernel fills the buffer with as much of the target as fits, and the buffer
   * doubles until some of it stays free or it has reached 1 MiB.
   */
  method ReadSymlink(target: string) returns (r: Result<string>)
    ensures r == if |target| < MAXIMUM_TARGET then Ok(target) else Err(PayloadInspectionFailed)
  {
    var size := 256;
    while true
      invariant size in {256, 512, 1024, 2048, 4096, 8192, 16384, 32768, 65536, 131072, 262144, 524288, 1048576}
      invariant size > 256 ==> |target| >= size / 2
      decreases 1048576 - size
    {
      var count := if |target| < size then |target| else size;
      if count < size {
        assert target[..count] == target;
        return Ok(target[..count]);
      }
      if size >= MAXIMUM_TARGET {
        return Err(PayloadInspectionFailed);
      }
      size := size * 2;
    }
  }

  function NamesOf(cs: seq<Child>): (names: seq<string>)
    ensures |names| == |cs|
    ensures forall i :: 0 <= i < |cs| ==> names[i] == cs[i].name
  {
    if cs == [] then [] else [cs[0].name] + NamesOf(cs[1..])
  }

  lemma {:induction false} InsertNames(c: Child, cs: seq<Child>, k: nat)
    requires k <= |cs| && (forall i :: 0 <= i < k ==> !Less(c.name, cs[i].name))
    requires k < |cs| ==> Less(c.name, cs[k].name)
    ensures NamesOf(Insert(c, cs)) == NamesOf(cs)[..k] + [c.name] + NamesOf(cs)[k..]
  {
    if k > 0 {
      InsertNames(c, cs[1..], k - 1);
      assert Insert(c, cs)[1..] == Insert(c, cs[1..]);
      PlaceAfterFirst(cs[0].name, NamesOf(cs[1..]), c.name, k);
    }
  }

  lemma {:induction false} PlaceAfterFirst(first: string, others: seq<string>, name: string, k: nat)
    requires 0 < k <= |others| + 1
    ensures var all := [first] + others;
      all[..k] + [name] + all[k..] == [first] + (others[..k - 1] + [name] + others[k - 1..])
  {
  }

  /** Put a name in its place among sorted ones. */
  method Place(names: seq<string>, name: string, ghost c: Child, ghost cs: seq<Child>) returns (placed: seq<string>)
    requires names == NamesOf(cs) && name == c.name
    ensures placed == NamesOf(Insert(c, cs))
  {
    var k := 0;
    while k < |names| && !Less(name, names[k])
      invariant k <= |names| && forall j :: 0 <= j < k ==> !Less(name, cs[j].name)
    {
      k := k + 1;
    }
    InsertNames(c, cs, k);
    placed := names[..k] + [name] + names[k..];
  }

  /** `directory_names`: the directory's names, sorted. */
  method DirectoryNames(children: seq<Child>) returns (names: seq<string>)
    ensures names == NamesOf(Sort(TidiedAll(children)))
  {
    ghost var cs := TidiedAll(children);
    names := [];
    assert cs[|cs|..] == [];
    for i := |children| downto 0
      invariant names == NamesOf(Sort(cs[i..]))
    {
      assert cs[i..][0] == cs[i] && cs[i..][1..] == cs[i + 1..];
      names := Place(names, children[i].name, cs[i], Sort(cs[i + 1..]));
    }
  }

  /** The node a listed name leads to; its own listing is what the tidied tree holds there. */
  lemma {:induction false} SortedChild(children: seq<Child>, i: nat) returns (j: nat)
    requires DistinctNames(children) && i < |Sort(TidiedAll(children))|
    ensures |Sort(TidiedAll(children))| == |children| && j < |children|
    ensures children[j].name == Sort(TidiedAll(children))[i].name
    ensures Sort(TidiedAll(children))[i].node == Tidied(children[j].node)
    ensures Find(children, children[j].name) == Some(children[j].node)
  {
    var cs := TidiedAll(children);
    SortSorts(cs);
    assert Sort(cs)[i] in cs;
    j :| 0 <= j < |cs| && cs[j] == Sort(cs)[i];
    TidiedAllAt(children, j);
    FindAt(children, j);
  }

  lemma {:induction false} TidiedAllAt(cs: seq<Child>, j: nat)
    requires j < |cs|
    ensures TidiedAll(cs)[j] == Child(cs[j].name, Tidied(cs[j].node))
  {
    if j > 0 {
      TidiedAllAt(cs[1..], j - 1);
    }
  }

  /** `fstatat`. */
  function Lookup(children: seq<Child>, name: string): (n: Node)
    requires Find(children, name).Some?
    ensures Child(name, n) in children
  {
    FindIsIn(children, name);
    Find(children, name).value
  }

  lemma {:induction false} ChildWellNamed(cs: seq<Child>, c: Child)
    requires AllWellNamed(cs) && c in cs
    ensures WellNamed(c.node)
  {
    if cs[0] != c {
      ChildWellNamed(cs[1..], c);
    }
  }

  class Walk {
    const w: Setting
    var entries: seq<Entry>
    var regulars: seq<Retained>
    var targets: map<Key, Path>

    ghost function State(): Scan
      reads this
    {
      Scan(entries, regulars, targets)
    }

    constructor (w: Setting)
      ensures this.w == w && State() == Scan([], [], map[])
    {
      this.w := w;
      entries := [];
      regulars := [];
      targets := map[];
    }

    method Push(path: Path, a: Attributes, what: What)
      modifies this
      ensures State() == Pushed(w, old(State()), path, a, what)
    {
      entries := entries + [EntryFor(w, path, a, what)];
    }

    /** The regular-file branch of `inspect_directory`. */
    method InspectFile(path: Path, a: Attributes, bytes: Bytes)
      modifies this
      ensures State() == FileScanned(w, old(State()), path, a, bytes)
    {
      if a.links > 1 {
        if a.key in targets {
          Push(path, a, HardLink(targets[a.key]));
          return;
        }
        targets := targets[a.key := path];
      }
      Push(path, a, Regular(|bytes|, w.sha(bytes)));
      regulars := regulars + [Retained(path, a, |bytes|, w.sha(bytes))];
    }

    /** One child, and everything beneath it. */
    method InspectChild(path: Path, node: Node) returns (r: Result<()>)
      requires WellNamed(node)
      modifies this
      ensures Refines(r, ScannedAll(w, old(State()), Beneath(path, Tidied(node))))
      decreases node, 1
    {
      BeneathScans(w, State(), path, node);
      if !w.accepts(path) {
        return Err(ArtifactVerificationFailed);
      }
      match node
      case Folder(a, children) =>
        Push(path, a, Directory);
        r := InspectDirectory(path, a, children);
      case File(a, bytes) =>
        InspectFile(path, a, bytes);
        r := Ok(());
      case Symlink(a, target) =>
        var read :- ReadSymlink(target);
        Push(path, a, SymbolicLink(read));
        r := Ok(());
      case Fifo(a) =>
        Push(path, a, NamedPipe);
        r := Ok(());
      case CharacterDevice(a, major, minor) =>
        Push(path, a, Character(major, minor));
        r := Ok(());
      case BlockDevice(a, major, minor) =>
        Push(path, a, Block(major, minor));
        r := Ok(());
      case Unsupported(_) => r := Err(PayloadInspectionFailed);
    }

    ghost predicate Refines(r: Result<()>, expected: Result<Scan>)
      reads this
    {
      match expected
      case Err(code) => r == Err(code)
      case Ok(s) => r.Ok? && State() == s
    }

    /** `inspect_directory`. */
    method InspectDirectory(prefix: Path, a: Attributes, children: seq<Child>) returns (r: Result<()>)
      requires WellNamed(Folder(a, children))
      modifies this
      ensures Refines(r, ScannedAll(w, old(State()), Items(prefix, Sort(TidiedAll(children)))))
      decreases Folder(a, children), 0
    {
      var names := DirectoryNames(children);
      ghost var cs := Sort(TidiedAll(children));
      ghost var goal := ScannedAll(w, State(), Items(prefix, cs));
      assert cs[0..] == cs;
      for i := 0 to |names|
        invariant goal == ScannedAll(w, State(), Items(prefix, cs[i..]))
      {
        ghost var j := SortedChild(children, i);
        var node := Lookup(children, names[i]);
        ChildWellNamed(children, Child(names[i], node));
        ghost var first := Beneath(prefix + [names[i]], Tidied(node));
        assert cs[i..][0] == cs[i] && cs[i..][1..] == cs[i + 1..];
        ScannedInTwo(w, State(), first, Items(prefix, cs[i + 1..]));
        var _ :- InspectChild(prefix + [names[i]], node);
      }
      r := Ok(());
    }
  }

  /** A child's own item first, then its children's. */
  lemma {:induction false} BeneathScans(w: Setting, s: Scan, path: Path, n: Node)
    ensures ScannedAll(w, s, Beneath(path, Tidied(n))) ==
      match Scanned(w, s, Item(path, n))
      case Err(code) => Err(code)
      case Ok(next) => if n.Folder? then ScannedAll(w, next, Items(path, Sort(TidiedAll(n.children)))) else Ok(next)
  {
    var items := Beneath(path, Tidied(n));
    assert items[0] == Item(path, Tidied(n));
    assert items[1..] == if n.Folder? then Items(path, Sort(TidiedAll(n.children))) else [];
  }
}
