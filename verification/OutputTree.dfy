/**
 * A quiescent package output tree, as `inspect_directory` meets it
 * (src/executor.cpp:408-468, 523-675): children in whatever order the directory stream gives
 * them, then every directory's names sorted.
 */
module OutputTree {
  import opened Outcomes
  import opened TextOrder

  type Path = seq<string>

  datatype Key = Key(device: nat, inode: nat)

  datatype Attributes = Attributes(mode: nat, user: nat, group: nat, seconds: int, links: nat, key: Key)

  datatype Node =
    | Folder(attributes: Attributes, children: seq<Child>)
    | File(attributes: Attributes, bytes: Bytes)
    | Symlink(attributes: Attributes, target: string)
    | Fifo(attributes: Attributes)
    | CharacterDevice(attributes: Attributes, major: nat, minor: nat)
    | BlockDevice(attributes: Attributes, major: nat, minor: nat)
    | Unsupported(attributes: Attributes)

  datatype Child = Child(name: string, node: Node)

  // Order ----------------------------------------------------------------------------------------

  /** Component by component; a directory comes before what is in it. */
  predicate PathLess(a: Path, b: Path) {
    if a == [] then b != []
    else if b == [] then false
    else Less(a[0], b[0]) || (a[0] == b[0] && PathLess(a[1..], b[1..]))
  }

  /** Up to component `k` they agree, and there the first one ends or has the smaller name. */
  predicate PathLessFrom(a: Path, b: Path, k: int) {
    && 0 <= k <= |a| && k < |b| && a[..k] == b[..k]
    && (k == |a| || Less(a[k], b[k]))
  }

  /** One path comes before another exactly if it does so at the first component where they differ. */
  lemma {:induction false} PathLessExactly(a: Path, b: Path)
    ensures PathLess(a, b) <==> exists k :: PathLessFrom(a, b, k)
  {
    if a == [] || b == [] {
      if b != [] {
        assert PathLessFrom(a, b, 0);
      }
    } else {
      PathLessExactly(a[1..], b[1..]);
      if Less(a[0], b[0]) {
        assert PathLessFrom(a, b, 0);
      }
      if k :| PathLessFrom(a[1..], b[1..], k) && a[0] == b[0] {
        assert a == [a[0]] + a[1..] && b == [b[0]] + b[1..];
        assert k + 1 < |a| ==> a[1..][k] == a[k + 1];
        assert b[1..][k] == b[k + 1];
        assert PathLessFrom(a, b, k + 1);
      }
      if k :| PathLessFrom(a, b, k) && k > 0 {
        assert a[0] == a[..k][0] == b[..k][0] == b[0];
        assert a[1..][..k - 1] == a[..k][1..] && b[1..][..k - 1] == b[..k][1..];
        assert PathLessFrom(a[1..], b[1..], k - 1);
      }
    }
  }

  predicate Increasing(cs: seq<Child>) {
    forall i, j :: 0 <= i < j < |cs| ==> Less(cs[i].name, cs[j].name)
  }

  predicate DistinctNames(cs: seq<Child>) {
    forall i, j :: 0 <= i < j < |cs| ==> cs[i].name != cs[j].name
  }

  function Insert(c: Child, cs: seq<Child>): seq<Child> {
    if cs == [] || Less(c.name, cs[0].name) then [c] + cs else [cs[0]] + Insert(c, cs[1..])
  }

  function Sort(cs: seq<Child>): seq<Child> {
    if cs == [] then [] else Insert(cs[0], Sort(cs[1..]))
  }

  lemma {:induction false} InsertSorts(c: Child, cs: seq<Child>)
    requires Increasing(cs) && forall d :: d in cs ==> d.name != c.name
    ensures Increasing(Insert(c, cs))
    ensures forall d :: d in Insert(c, cs) <==> d == c || d in cs
    ensures |Insert(c, cs)| == |cs| + 1
  {
    if cs != [] && !Less(c.name, cs[0].name) {
      LessIsStrict(c.name, cs[0].name, c.name);
      InsertSorts(c, cs[1..]);
      var rest := Insert(c, cs[1..]);
      assert cs == [cs[0]] + cs[1..];
      forall j | 0 <= j < |rest|
        ensures Less(cs[0].name, rest[j].name)
      {
        assert rest[j] in rest;
      }
    } else if cs != [] {
      forall j | 0 <= j < |cs|
        ensures Less(c.name, cs[j].name)
      {
        LessIsStrict(c.name, cs[0].name, cs[j].name);
      }
    }
  }

  lemma {:induction false} SortSorts(cs: seq<Child>)
    requires DistinctNames(cs)
    ensures Increasing(Sort(cs)) && |Sort(cs)| == |cs|
    ensures forall d :: d in Sort(cs) <==> d in cs
  {
    if cs != [] {
      SortSorts(cs[1..]);
      assert cs == [cs[0]] + cs[1..];
      forall d | d in Sort(cs[1..])
        ensures d.name != cs[0].name
      {
        assert d in cs[1..];
      }
      InsertSorts(cs[0], Sort(cs[1..]));
    }
  }

  // Whole trees -----------------------------------------------------------------------------------

  /** No directory lists a name twice. */
  predicate WellNamed(n: Node) {
    n.Folder? ==> DistinctNames(n.children) && AllWellNamed(n.children)
  }

  predicate AllWellNamed(cs: seq<Child>) {
    cs == [] || (WellNamed(cs[0].node) && AllWellNamed(cs[1..]))
  }

  /** The same tree with every directory's children in order of name. */
  function Tidied(n: Node): Node {
    match n
    case Folder(a, cs) => Folder(a, Sort(TidiedAll(cs)))
    case _ => n
  }

  function TidiedAll(cs: seq<Child>): (t: seq<Child>)
    ensures |t| == |cs|
    ensures forall i :: 0 <= i < |cs| ==> t[i].name == cs[i].name
  {
    if cs == [] then [] else [Child(cs[0].name, Tidied(cs[0].node))] + TidiedAll(cs[1..])
  }

  /** Every directory's children are in order of name. */
  predicate Tidy(n: Node) {
    n.Folder? ==> Increasing(n.children) && AllTidy(n.children)
  }

  predicate AllTidy(cs: seq<Child>) {
    cs == [] || (Tidy(cs[0].node) && AllTidy(cs[1..]))
  }

  lemma {:induction false} AllTidyAt(cs: seq<Child>, i: nat)
    requires AllTidy(cs) && i < |cs|
    ensures Tidy(cs[i].node)
  {
    if i > 0 {
      AllTidyAt(cs[1..], i - 1);
    }
  }

  lemma {:induction false} AllTidyIf(cs: seq<Child>)
    requires forall i :: 0 <= i < |cs| ==> Tidy(cs[i].node)
    ensures AllTidy(cs)
  {
    if cs != [] {
      AllTidyIf(cs[1..]);
    }
  }

  lemma {:induction false} TidiedIsTidy(n: Node)
    requires WellNamed(n)
    ensures Tidy(Tidied(n))
    decreases n
  {
    if n.Folder? {
      var cs := TidiedAll(n.children);
      TidiedAllAreTidy(n.children);
      SortSorts(cs);
      forall i | 0 <= i < |Sort(cs)|
        ensures Tidy(Sort(cs)[i].node)
      {
        assert Sort(cs)[i] in Sort(cs);
        var j :| 0 <= j < |cs| && cs[j] == Sort(cs)[i];
        AllTidyAt(cs, j);
      }
      AllTidyIf(Sort(cs));
    }
  }

  lemma {:induction false} TidiedAllAreTidy(cs: seq<Child>)
    requires AllWellNamed(cs)
    ensures AllTidy(TidiedAll(cs))
    decreases cs
  {
    if cs != [] {
      TidiedIsTidy(cs[0].node);
      TidiedAllAreTidy(cs[1..]);
    }
  }

  // The nodes beneath the root, in the order of the walk -----------------------------------------------

  datatype Item = Item(path: Path, node: Node)

  function Items(prefix: Path, cs: seq<Child>): seq<Item>
    decreases cs
  {
    if cs == [] then
      []
    else
      Beneath(prefix + [cs[0].name], cs[0].node) + Items(prefix, cs[1..])
  }

  function Beneath(path: Path, n: Node): seq<Item>
    decreases n
  {
    [Item(path, n)] + if n.Folder? then Items(path, n.children) else []
  }

  /** What a path leads to. */
  function NodeAt(n: Node, path: Path): Option<Node>
    decreases |path|
  {
    if path == [] then
      Some(n)
    else if !n.Folder? then
      None
    else
      match Find(n.children, path[0])
      case None => None
      case Some(child) => NodeAt(child, path[1..])
  }

  function Find(cs: seq<Child>, name: string): Option<Node> {
    if cs == [] then None else if cs[0].name == name then Some(cs[0].node) else Find(cs[1..], name)
  }

  lemma {:induction false} FindAt(cs: seq<Child>, i: nat)
    requires DistinctNames(cs) && i < |cs|
    ensures Find(cs, cs[i].name) == Some(cs[i].node)
  {
    if i > 0 {
      FindAt(cs[1..], i - 1);
    }
  }

  /** Both go through the same directory, and the first has the lesser name there. */
  lemma {:induction false} DivergingIsLess(a: Path, b: Path, k: nat)
    requires k < |a| && k < |b| && a[..k] == b[..k] && Less(a[k], b[k])
    ensures PathLess(a, b)
  {
    if k > 0 {
      assert a[0] == a[..k][0] && b[0] == b[..k][0];
      assert a[1..][..k - 1] == a[..k][1..] && b[1..][..k - 1] == b[..k][1..];
      DivergingIsLess(a[1..], b[1..], k - 1);
    }
  }

  lemma {:induction false} PrefixIsLess(a: Path, b: Path)
    requires a < b
    ensures PathLess(a, b)
  {
    if a != [] {
      PrefixIsLess(a[1..], b[1..]);
    }
  }

  lemma {:induction false} PathLessIsStrict(a: Path)
    ensures !PathLess(a, a)
  {
    if a != [] {
      LessIsStrict(a[0], a[0], a[0]);
      PathLessIsStrict(a[1..]);
    }
  }

  lemma {:induction false} PathLessOneWay(a: Path, b: Path)
    ensures !(PathLess(a, b) && PathLess(b, a))
  {
    if a != [] && b != [] {
      LessIsStrict(a[0], b[0], b[0]);
      PathLessOneWay(a[1..], b[1..]);
    }
  }

  /** An item found in a directory's listing lies beneath one of its children. */
  lemma {:induction false} ItemsBelow(prefix: Path, cs: seq<Child>, k: nat) returns (i: nat)
    requires k < |Items(prefix, cs)|
    ensures i < |cs| && prefix + [cs[i].name] <= Items(prefix, cs)[k].path
    decreases cs
  {
    var first := Beneath(prefix + [cs[0].name], cs[0].node);
    if k < |first| {
      i := 0;
      if k > 0 {
        var _ := ItemsBelow(prefix + [cs[0].name], cs[0].node.children, k - 1);
      }
    } else {
      var j := ItemsBelow(prefix, cs[1..], k - |first|);
      i := j + 1;
    }
  }

  predicate PathsIncrease(items: seq<Item>) {
    forall j, k :: 0 <= j < k < |items| ==> PathLess(items[j].path, items[k].path)
  }

  /** The walk meets paths in strictly increasing order, so it meets none twice. */
  lemma {:induction false} ItemsIncrease(prefix: Path, cs: seq<Child>)
    requires Increasing(cs) && AllTidy(cs)
    ensures PathsIncrease(Items(prefix, cs))
    decreases cs
  {
    if cs != [] {
      var path := prefix + [cs[0].name];
      var first, others := Beneath(path, cs[0].node), Items(prefix, cs[1..]);
      BeneathIncrease(path, cs[0].node);
      ItemsIncrease(prefix, cs[1..]);
      forall j, k | 0 <= j < |first| && 0 <= k < |others|
        ensures PathLess(first[j].path, others[k].path)
      {
        BeneathBelow(path, cs[0].node, j);
        var i := ItemsBelow(prefix, cs[1..], k);
        assert cs[1..][i] == cs[i + 1];
        var n := |prefix|;
        assert first[j].path[..n + 1] == path && others[k].path[..n + 1] == prefix + [cs[i + 1].name];
        assert first[j].path[..n] == first[j].path[..n + 1][..n] && others[k].path[..n] == others[k].path[..n + 1][..n];
        assert first[j].path[n] == first[j].path[..n + 1][n] && others[k].path[n] == others[k].path[..n + 1][n];
        DivergingIsLess(first[j].path, others[k].path, n);
      }
    }
  }

  lemma {:induction false} BeneathBelow(path: Path, n: Node, k: nat)
    requires k < |Beneath(path, n)|
    ensures path <= Beneath(path, n)[k].path && (k > 0 ==> path < Beneath(path, n)[k].path)
  {
    if k > 0 {
      var _ := ItemsBelow(path, n.children, k - 1);
    }
  }

  lemma {:induction false} BeneathIncrease(path: Path, n: Node)
    requires Tidy(n)
    ensures PathsIncrease(Beneath(path, n))
    decreases n
  {
    if n.Folder? {
      ItemsIncrease(path, n.children);
      forall k | 0 < k < |Beneath(path, n)|
        ensures PathLess(path, Beneath(path, n)[k].path)
      {
        BeneathBelow(path, n, k);
        PrefixIsLess(path, Beneath(path, n)[k].path);
      }
    }
  }

  // Coverage --------------------------------------------------------------------------------------------

  /** Every item is what its path leads to. */
  lemma {:induction false} ItemIsThere(prefix: Path, a: Attributes, cs: seq<Child>, k: nat)
    requires Increasing(cs) && AllTidy(cs) && k < |Items(prefix, cs)|
    ensures var item := Items(prefix, cs)[k];
      prefix < item.path && NodeAt(Folder(a, cs), item.path[|prefix|..]) == Some(item.node)
    decreases cs
  {
    var item, path, n := Items(prefix, cs)[k], prefix + [cs[0].name], |prefix|;
    var first := Beneath(path, cs[0].node);
    if k < |first| {
      BeneathBelow(path, cs[0].node, k);
      assert item.path[..n + 1] == path && item.path[n..][0] == item.path[..n + 1][n];
      if k > 0 {
        ItemIsThere(path, cs[0].node.attributes, cs[0].node.children, k - 1);
        assert item.path[n..][1..] == item.path[n + 1..];
      }
    } else {
      ItemIsThere(prefix, a, cs[1..], k - |first|);
      var i := ItemsBelow(prefix, cs[1..], k - |first|);
      assert item.path[..n + 1] == prefix + [cs[1..][i].name];
      assert item.path[n..][0] == item.path[..n + 1][n] == cs[i + 1].name;
      LessIsStrict(cs[0].name, cs[i + 1].name, []);
    }
  }

  /** Every node is met, under its path. */
  lemma {:induction false} NodeIsMet(prefix: Path, a: Attributes, cs: seq<Child>, path: Path)
    requires path != [] && NodeAt(Folder(a, cs), path).Some?
    ensures Item(prefix + path, NodeAt(Folder(a, cs), path).value) in Items(prefix, cs)
    decreases cs
  {
    var node := NodeAt(Folder(a, cs), path).value;
    if cs[0].name == path[0] {
      var child := cs[0].node;
      var under := prefix + [path[0]];
      assert under + path[1..] == prefix + path;
      if path[1..] == [] {
        assert prefix + path == under;
        assert Item(under, child) == Beneath(under, child)[0];
      } else {
        NodeIsMet(under, child.attributes, child.children, path[1..]);
        assert Item(prefix + path, node) in Items(under, child.children);
        assert Item(prefix + path, node) in Beneath(under, child);
      }
    } else {
      NodeIsMet(prefix, a, cs[1..], path);
    }
  }

  /** Tidying moves nothing to another path. */
  lemma {:induction false} TidiedKeepsPaths(n: Node, path: Path)
    requires WellNamed(n)
    ensures NodeAt(Tidied(n), path) == match NodeAt(n, path) case None => None case Some(m) => Some(Tidied(m))
    decreases |path|
  {
    if path != [] && n.Folder? {
      var cs := TidiedAll(n.children);
      SortSorts(cs);
      FindSame(cs, Sort(cs), path[0]);
      FindTidied(n.children, path[0]);
      if Find(n.children, path[0]).Some? {
        TidiedKeepsPaths(Find(n.children, path[0]).value, path[1..]);
      }
    }
  }

  lemma {:induction false} IncreasingIsDistinct(cs: seq<Child>)
    requires Increasing(cs)
    ensures DistinctNames(cs)
  {
    forall i, j | 0 <= i < j < |cs|
      ensures cs[i].name != cs[j].name
    {
      LessIsStrict(cs[i].name, cs[j].name, []);
    }
  }

  lemma {:induction false} FindIsIn(cs: seq<Child>, name: string)
    ensures Find(cs, name).Some? <==> exists i :: 0 <= i < |cs| && cs[i].name == name
    ensures Find(cs, name).Some? ==> Child(name, Find(cs, name).value) in cs
  {
    if cs != [] && cs[0].name != name {
      FindIsIn(cs[1..], name);
      if i :| 0 <= i < |cs| && cs[i].name == name {
        assert cs[1..][i - 1].name == name;
      }
    } else if cs != [] {
      assert cs[0] == Child(name, Find(cs, name).value);
    }
  }

  lemma {:induction false} FindSame(cs: seq<Child>, ds: seq<Child>, name: string)
    requires DistinctNames(cs) && Increasing(ds) && forall c :: c in ds <==> c in cs
    ensures Find(cs, name) == Find(ds, name)
  {
    IncreasingIsDistinct(ds);
    FindIsIn(cs, name);
    FindIsIn(ds, name);
    if i :| 0 <= i < |cs| && cs[i].name == name {
      assert cs[i] in ds;
      var j :| 0 <= j < |ds| && ds[j] == cs[i];
      FindAt(cs, i);
      FindAt(ds, j);
    }
  }

  lemma {:induction false} FindTidied(cs: seq<Child>, name: string)
    requires AllWellNamed(cs)
    ensures Find(TidiedAll(cs), name) == match Find(cs, name) case None => None case Some(n) => Some(Tidied(n))
    ensures Find(cs, name).Some? ==> WellNamed(Find(cs, name).value)
  {
    if cs != [] && cs[0].name != name {
      FindTidied(cs[1..], name);
    }
  }
}
