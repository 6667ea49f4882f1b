/**
 * The paths of an admitted session, and the identities of its execution resources
 * (src/model.cpp:211-267, src/executor.cpp:126-152, 1409-1420, 1493-1543).
 */
module AdmittedSession {
  import opened Outcomes
  import opened PathLayout
  import opened Admission

  // Resource identities -------------------------------------------------------------------------------

  type Hash = string -> Identity

  ghost predicate Injective(h: Hash) {
    forall a, b :: h(a) == h(b) ==> a == b
  }

  /** `domain_hash`: a zero byte separates the domain from the material. */
  function DomainHash(h: Hash, domain: string, material: string): Identity {
    h(domain + ['\0'] + material)
  }

  const SOURCE_DOMAIN := "libpkgbuild-exec:source-object-resource:v1"
  const WORKSPACE_DOMAIN := "libpkgbuild-exec:workspace:v1"
  const OUTPUT_DOMAIN := "libpkgbuild-exec:package-output-root:v1"
  const TEMPORARY_DOMAIN := "libpkgbuild-exec:private-temporary-root:v1"

  predicate ZeroFree(s: string) {
    forall i :: 0 <= i < |s| ==> s[i] != '\0'
  }

  /** Different domains hash apart, whatever the material. */
  lemma {:induction false} DomainsSeparate(h: Hash, d: string, m: string, e: string, n: string)
    requires Injective(h) && ZeroFree(d) && ZeroFree(e) && d != e
    ensures DomainHash(h, d, m) != DomainHash(h, e, n)
  {
    var a, b := d + ['\0'] + m, e + ['\0'] + n;
    if |d| < |e| {
      assert a[|d|] == '\0' && b[|d|] == e[|d|];
    } else if |e| < |d| {
      assert b[|e|] == '\0' && a[|e|] == d[|e|];
    } else {
      assert a[..|d|] == d && b[..|e|] == e;
    }
    assert a != b;
  }

  datatype Own = Own(source: Identity, workspace: Identity, output: Identity, temporary: Identity) {
    function All(): seq<Identity> {
      [source, workspace, output, temporary]
    }
  }

  /** The four identities the adapter derives for itself. */
  function OwnIdentities(h: Hash, request: Identity, sources: Identity): Own {
    Own(DomainHash(h, SOURCE_DOMAIN, request + sources), DomainHash(h, WORKSPACE_DOMAIN, request),
        DomainHash(h, OUTPUT_DOMAIN, request), DomainHash(h, TEMPORARY_DOMAIN, request))
  }

  lemma {:induction false} OwnAreDistinct(h: Hash, request: Identity, sources: Identity)
    requires Injective(h)
    ensures Distinct(OwnIdentities(h, request, sources).All())
  {
    var s, w, o, t := SOURCE_DOMAIN, WORKSPACE_DOMAIN, OUTPUT_DOMAIN, TEMPORARY_DOMAIN;
    assert |s| == 42 && |w| == 29 && |o| == 39 && |t| == 42 && s[17] == 's' && t[17] == 'p';
    DomainsSeparate(h, s, request + sources, w, request);
    DomainsSeparate(h, s, request + sources, o, request);
    DomainsSeparate(h, s, request + sources, t, request);
    DomainsSeparate(h, w, request, o, request);
    DomainsSeparate(h, w, request, t, request);
    DomainsSeparate(h, o, request, t, request);
  }

  /** Which text each of them is the hash of. */
  lemma {:induction false} OwnAre(h: Hash, request: Identity, sources: Identity)
    ensures OwnIdentities(h, request, sources).All() == [
      h("libpkgbuild-exec:source-object-resource:v1\0" + request + sources),
      h("libpkgbuild-exec:workspace:v1\0" + request),
      h("libpkgbuild-exec:package-output-root:v1\0" + request),
      h("libpkgbuild-exec:private-temporary-root:v1\0" + request)]
  {
    assert SOURCE_DOMAIN + ['\0'] == "libpkgbuild-exec:source-object-resource:v1\0";
    assert WORKSPACE_DOMAIN + ['\0'] == "libpkgbuild-exec:workspace:v1\0";
    assert OUTPUT_DOMAIN + ['\0'] == "libpkgbuild-exec:package-output-root:v1\0";
    assert TEMPORARY_DOMAIN + ['\0'] == "libpkgbuild-exec:private-temporary-root:v1\0";
    var source := "libpkgbuild-exec:source-object-resource:v1\0";
    assert (source + request) + sources == source + (request + sources);
  }

  function Resources(inputs: seq<Admitted>): (ids: seq<Identity>)
    ensures |ids| == |inputs| && forall i :: 0 <= i < |ids| ==> ids[i] == inputs[i].resource
  {
    seq(|inputs|, i requires 0 <= i < |inputs| => inputs[i].resource)
  }

  /** The execution request's bindings, in the order it makes them. */
  function Bindings(own: Own, inputs: seq<Admitted>): seq<Identity> {
    [own.source] + Resources(inputs) + [own.workspace, own.output, own.temporary]
  }

  /** `require_unique_execution_resource_identities`. */
  method RequireUnique(bindings: seq<Identity>) returns (r: Result<()>)
    ensures r == if Distinct(bindings) then Ok(()) else Err(PackageInputMismatch)
  {
    var resources: set<Identity> := {};
    for i := 0 to |bindings|
      invariant Distinct(bindings[..i])
      invariant forall id :: id in resources <==> exists k :: 0 <= k < i && bindings[k] == id
    {
      if bindings[i] in resources {
        return Err(PackageInputMismatch);
      }
      resources := resources + {bindings[i]};
    }
    assert bindings[..|bindings|] == bindings;
    r := Ok(());
  }

  /** The alias check fires exactly when an input's resource is one of the adapter's own four. */
  lemma {:induction false} AliasExactly(h: Hash, request: Identity, sources: Identity, inputs: seq<Admitted>)
    requires Injective(h) && DistinctResources(inputs)
    ensures var own := OwnIdentities(h, request, sources);
      Distinct(Bindings(own, inputs)) <==> forall i :: 0 <= i < |inputs| ==>
        && inputs[i].resource != h("libpkgbuild-exec:source-object-resource:v1\0" + request + sources)
        && inputs[i].resource != h("libpkgbuild-exec:workspace:v1\0" + request)
        && inputs[i].resource != h("libpkgbuild-exec:package-output-root:v1\0" + request)
        && inputs[i].resource != h("libpkgbuild-exec:private-temporary-root:v1\0" + request)
  {
    OwnAre(h, request, sources);
    OwnAreDistinct(h, request, sources);
    AliasOf(OwnIdentities(h, request, sources), inputs);
  }

  lemma {:induction false} AliasOf(own: Own, inputs: seq<Admitted>)
    requires Distinct(own.All()) && DistinctResources(inputs)
    ensures Distinct(Bindings(own, inputs)) <==> forall i :: 0 <= i < |inputs| ==> inputs[i].resource !in own.All()
  {
    BindingsAt(own, inputs);
    OwnDiffer(own);
    var b, n := Bindings(own, inputs), |inputs|;
    if Distinct(b) {
      forall i | 0 <= i < n
        ensures inputs[i].resource !in own.All()
      {
        assert b[0] != b[i + 1] && b[i + 1] != b[n + 1] && b[i + 1] != b[n + 2] && b[i + 1] != b[n + 3];
      }
    } else {
      var i, j :| 0 <= i < j < |b| && b[i] == b[j];
      assert (1 <= i <= n) != (1 <= j <= n);
      assert inputs[if 1 <= i <= n then i - 1 else j - 1].resource in own.All();
    }
  }

  lemma {:induction false} BindingsAt(own: Own, inputs: seq<Admitted>)
    ensures var b, n := Bindings(own, inputs), |inputs|;
      && |b| == n + 4
      && b[0] == own.source && b[n + 1] == own.workspace && b[n + 2] == own.output && b[n + 3] == own.temporary
      && forall i :: 1 <= i <= n ==> b[i] == inputs[i - 1].resource
  {
  }

  lemma {:induction false} OwnDiffer(own: Own)
    requires Distinct(own.All())
    ensures own.source != own.workspace && own.source != own.output && own.source != own.temporary
    ensures own.workspace != own.output && own.workspace != own.temporary && own.output != own.temporary
  {
    var all := own.All();
    assert all[0] != all[1] && all[0] != all[2] && all[0] != all[3];
    assert all[1] != all[2] && all[1] != all[3] && all[2] != all[3];
  }

  // Paths ------------------------------------------------------------------------------------------------

  datatype RawLayout = RawLayout(
    rootView: RawPath, sessionRoot: RawPath, outputRoot: RawPath, artifact: RawPath)

  /** Everything a session names on the host, normalized. */
  datatype Layout = Layout(
    rootView: Path, sessionRoot: Path, outputRoot: Path, artifact: Path, inputs: seq<Path>, objects: seq<Path>)

  predicate NoneOverlaps(p: Path, others: seq<Path>) {
    forall i :: 0 <= i < |others| ==> !Overlaps(p, others[i])
  }

  /** The pairs that admission keeps apart. */
  predicate Apart(l: Layout) {
    && !Overlaps(l.rootView, l.sessionRoot)
    && !Overlaps(l.rootView, l.outputRoot)
    && !Overlaps(l.sessionRoot, l.outputRoot)
    && (forall i :: 0 <= i < |l.inputs| ==> InputApart(l, i))
    && NoneOverlaps(l.artifact, [l.rootView, l.sessionRoot, l.outputRoot])
    && NoneOverlaps(l.artifact, l.inputs)
    && (forall i :: 0 <= i < |l.objects| ==> NoneOverlaps(l.objects[i], [l.sessionRoot, l.outputRoot, l.artifact]))
  }

  predicate InputApart(l: Layout, i: nat)
    requires i < |l.inputs|
  {
    NoneOverlaps(l.inputs[i], [l.rootView, l.sessionRoot, l.outputRoot]) && NoneOverlaps(l.inputs[i], l.inputs[..i])
  }

  /** The three roots, the inputs and the artifact: all the places that must not overlap each other. */
  function Places(l: Layout): seq<Path> {
    [l.rootView, l.sessionRoot, l.outputRoot] + l.inputs + [l.artifact]
  }

  predicate Clash(a: Path, b: Path) {
    a <= b || b <= a
  }

  /** Two of these places clash, or a source object clashes with a mutable root or the artifact. */
  ghost predicate Clashes(l: Layout) {
    || (exists i, j :: 0 <= i < j < |Places(l)| && Clash(Places(l)[i], Places(l)[j]))
    || (exists i :: 0 <= i < |l.objects| &&
          (Clash(l.objects[i], l.sessionRoot) || Clash(l.objects[i], l.outputRoot) || Clash(l.objects[i], l.artifact)))
  }

  lemma {:induction false} NoneOf(p: Path, others: seq<Path>, i: nat)
    requires NoneOverlaps(p, others) && i < |others|
    ensures !Clash(p, others[i]) && !Clash(others[i], p)
  {
    assert !Overlaps(p, others[i]);
  }

  /** What the rows of checks keep apart, pair by pair. */
  lemma {:induction false} ApartExactly(l: Layout)
    ensures Apart(l) <==> !Clashes(l)
  {
    if Apart(l) {
      forall i, j | 0 <= i < j < |Places(l)|
        ensures !Clash(Places(l)[i], Places(l)[j])
      {
        ApartPair(l, i, j);
      }
      forall i | 0 <= i < |l.objects|
        ensures !Clash(l.objects[i], l.sessionRoot) && !Clash(l.objects[i], l.outputRoot)
        ensures !Clash(l.objects[i], l.artifact)
      {
        var others := [l.sessionRoot, l.outputRoot, l.artifact];
        NoneOf(l.objects[i], others, 0);
        NoneOf(l.objects[i], others, 1);
        NoneOf(l.objects[i], others, 2);
      }
    }
    if !Clashes(l) {
      ClashFree(l);
    }
  }

  lemma {:induction false} ApartPair(l: Layout, i: nat, j: nat)
    requires Apart(l) && i < j < |Places(l)|
    ensures !Clash(Places(l)[i], Places(l)[j])
  {
    var roots, n := [l.rootView, l.sessionRoot, l.outputRoot], |l.inputs|;
    assert forall k :: 0 <= k < n ==> Places(l)[k + 3] == l.inputs[k];
    if j == n + 3 {
      if i < 3 {
        NoneOf(l.artifact, roots, i);
      } else {
        NoneOf(l.artifact, l.inputs, i - 3);
      }
    } else if j >= 3 {
      assert InputApart(l, j - 3);
      if i < 3 {
        NoneOf(l.inputs[j - 3], roots, i);
      } else {
        NoneOf(l.inputs[j - 3], l.inputs[..j - 3], i - 3);
      }
    }
  }

  lemma {:induction false} PlaceAt(l: Layout)
    ensures var all, n := Places(l), |l.inputs|;
      && |all| == n + 4 && all[0] == l.rootView && all[1] == l.sessionRoot && all[2] == l.outputRoot
      && all[n + 3] == l.artifact
      && forall k :: 0 <= k < n ==> all[3 + k] == l.inputs[k]
  {
  }

  lemma {:induction false} ClashFree(l: Layout)
    requires !Clashes(l)
    ensures Apart(l)
  {
    var all, n := Places(l), |l.inputs|;
    PlaceAt(l);
    assert !Clash(all[0], all[1]) && !Clash(all[0], all[2]) && !Clash(all[1], all[2]);
    forall i | 0 <= i < n
      ensures InputApart(l, i)
    {
      assert !Clash(all[0], all[3 + i]) && !Clash(all[1], all[3 + i]) && !Clash(all[2], all[3 + i]);
      forall k | 0 <= k < i
        ensures !Overlaps(l.inputs[i], l.inputs[k])
      {
        assert !Clash(all[3 + k], all[3 + i]);
      }
    }
    assert !Clash(all[0], all[n + 3]) && !Clash(all[1], all[n + 3]) && !Clash(all[2], all[n + 3]);
    forall k | 0 <= k < n
      ensures !Overlaps(l.artifact, l.inputs[k])
    {
      assert !Clash(all[3 + k], all[n + 3]);
    }
    forall i | 0 <= i < |l.objects|
      ensures NoneOverlaps(l.objects[i], [l.sessionRoot, l.outputRoot, l.artifact])
    {
      assert !Clash(l.objects[i], l.sessionRoot) && !Clash(l.objects[i], l.outputRoot);
      assert !Clash(l.objects[i], l.artifact);
    }
  }

  /** A row of `require_disjoint` calls. */
  method RequireDisjoint(p: Path, others: seq<Path>) returns (r: Result<()>)
    ensures r == if NoneOverlaps(p, others) then Ok(()) else Err(UnsafePathLayout)
  {
    for i := 0 to |others|
      invariant forall k :: 0 <= k < i ==> !Overlaps(p, others[k])
    {
      var overlaps := CheckOverlaps(p, others[i]);
      if overlaps {
        return Err(UnsafePathLayout);
      }
    }
    r := Ok(());
  }

  method CheckApart(l: Layout) returns (r: Result<()>)
    ensures r == if Apart(l) then Ok(()) else Err(UnsafePathLayout)
  {
    var _ :- RequireDisjoint(l.rootView, [l.sessionRoot, l.outputRoot]);
    assert !Overlaps(l.rootView, [l.sessionRoot, l.outputRoot][0]);
    assert !Overlaps(l.rootView, [l.sessionRoot, l.outputRoot][1]);
    var _ :- RequireDisjoint(l.sessionRoot, [l.outputRoot]);
    assert !Overlaps(l.sessionRoot, [l.outputRoot][0]);
    for i := 0 to |l.inputs|
      invariant forall k :: 0 <= k < i ==> InputApart(l, k)
    {
      var roots := RequireDisjoint(l.inputs[i], [l.rootView, l.sessionRoot, l.outputRoot]);
      var earlier := RequireDisjoint(l.inputs[i], l.inputs[..i]);
      if roots.Err? || earlier.Err? {
        assert !InputApart(l, i);
        return Err(UnsafePathLayout);
      }
    }
    var _ :- RequireDisjoint(l.artifact, [l.rootView, l.sessionRoot, l.outputRoot]);
    var _ :- RequireDisjoint(l.artifact, l.inputs);
    for i := 0 to |l.objects|
      invariant forall k :: 0 <= k < i ==> NoneOverlaps(l.objects[k], [l.sessionRoot, l.outputRoot, l.artifact])
    {
      var _ :- RequireDisjoint(l.objects[i], [l.sessionRoot, l.outputRoot, l.artifact]);
    }
    r := Ok(());
  }

  /** The path part of `admit`. */
  function LayoutAdmitted(raw: RawLayout, inputs: seq<Path>, objects: seq<Path>): Result<Layout> {
    var rootView :- Normalized(raw.rootView);
    var sessionRoot :- Normalized(raw.sessionRoot);
    var outputRoot :- Normalized(raw.outputRoot);
    var artifact :- Normalized(raw.artifact);
    var l := Layout(rootView, sessionRoot, outputRoot, artifact, inputs, objects);
    if Slashed(artifact) then Err(InvalidSession) else if Apart(l) then Ok(l) else Err(UnsafePathLayout)
  }

  /** Every one of the four paths is absolute and is not the root. */
  predicate NamesPlaces(raw: RawLayout) {
    && Normalized(raw.rootView).Ok? && Normalized(raw.sessionRoot).Ok?
    && Normalized(raw.outputRoot).Ok? && Normalized(raw.artifact).Ok?
  }

  function AsNamed(raw: RawLayout, inputs: seq<Path>, objects: seq<Path>): Layout
    requires NamesPlaces(raw)
  {
    Layout(Normalized(raw.rootView).value, Normalized(raw.sessionRoot).value, Normalized(raw.outputRoot).value,
           Normalized(raw.artifact).value, inputs, objects)
  }

  method AdmitLayout(raw: RawLayout, inputs: seq<Path>, objects: seq<Path>) returns (r: Result<Layout>)
    ensures r == LayoutAdmitted(raw, inputs, objects)
    ensures NamesPlaces(raw) ==>
      var l := AsNamed(raw, inputs, objects);
      if l.artifact[|l.artifact| - 1] == "" then r == Err(InvalidSession)
      else if Clashes(l) then r == Err(UnsafePathLayout)
      else r == Ok(l)
    ensures !NamesPlaces(raw) ==> r.Err?
  {
    var rootView :- Normalized(raw.rootView);
    var sessionRoot :- Normalized(raw.sessionRoot);
    var outputRoot :- Normalized(raw.outputRoot);
    var artifact :- Normalized(raw.artifact);
    if artifact[|artifact| - 1] == "" {
      return Err(InvalidSession);
    }
    var l := Layout(rootView, sessionRoot, outputRoot, artifact, inputs, objects);
    ApartExactly(l);
    var _ :- CheckApart(l);
    r := Ok(l);
  }

  /** What a session must leave alone while it is prepared. */
  function Protected(l: Layout): seq<Path> {
    [l.rootView, l.artifact] + l.inputs + l.objects
  }

  ghost predicate NormalLayout(l: Layout) {
    && Normal(l.sessionRoot) && Normal(l.outputRoot)
    && forall i :: 0 <= i < |Protected(l)| ==> Normal(Protected(l)[i])
  }

  lemma {:induction false} ProtectedApart(l: Layout, i: nat)
    requires Apart(l) && i < |Protected(l)|
    ensures !Overlaps(l.sessionRoot, Protected(l)[i]) && !Overlaps(l.outputRoot, Protected(l)[i])
  {
    var n, p := |l.inputs|, Protected(l)[i];
    var roots := [l.rootView, l.sessionRoot, l.outputRoot];
    if i == 1 {
      assert !Overlaps(l.artifact, roots[1]) && !Overlaps(l.artifact, roots[2]);
    } else if 2 <= i < n + 2 {
      assert p == l.inputs[i - 2] && InputApart(l, i - 2);
      assert !Overlaps(p, roots[1]) && !Overlaps(p, roots[2]);
    } else if i >= n + 2 {
      var others := [l.sessionRoot, l.outputRoot, l.artifact];
      assert p == l.objects[i - 2 - n] && NoneOverlaps(p, others);
      assert !Overlaps(p, others[0]) && !Overlaps(p, others[1]);
    }
  }

  /**
   * A protected place is nested with the session root exactly when a trailing slash hid it from
   * the check; without trailing slashes none is.
   */
  lemma {:induction false} ProtectedNestExactly(l: Layout, i: nat)
    requires Apart(l) && NormalLayout(l) && i < |Protected(l)|
    ensures Nested(l.sessionRoot, Protected(l)[i]) <==> Hidden(l.sessionRoot, Protected(l)[i])
    ensures Nested(l.outputRoot, Protected(l)[i]) <==> Hidden(l.outputRoot, Protected(l)[i])
    ensures !Slashed(l.sessionRoot) && !Slashed(Protected(l)[i]) ==> !Nested(l.sessionRoot, Protected(l)[i])
    ensures !Slashed(l.outputRoot) && !Slashed(Protected(l)[i]) ==> !Nested(l.outputRoot, Protected(l)[i])
  {
    ProtectedApart(l, i);
    OverlapsExactly(l.sessionRoot, Protected(l)[i]);
    OverlapsExactly(l.outputRoot, Protected(l)[i]);
  }

  // The paths of a session as they are given ------------------------------------------------------------

  /** Every source object's path, normalized, stopping at the first that cannot be. */
  function AllNormalized(objects: seq<RawPath>): Result<seq<Path>> {
    if objects == [] then
      Ok([])
    else
      var front :- AllNormalized(objects[..|objects| - 1]);
      var last :- Normalized(objects[|objects| - 1]);
      Ok(front + [last])
  }

  method NormalizeAll(objects: seq<RawPath>) returns (r: Result<seq<Path>>)
    ensures r == AllNormalized(objects)
  {
    var paths: seq<Path> := [];
    for i := 0 to |objects|
      invariant AllNormalized(objects[..i]) == Ok(paths)
    {
      var path := Normalized(objects[i]);
      assert objects[..i + 1][..i] == objects[..i];
      if path.Err? {
        StopsAt(objects, i + 1);
        return Err(path.code);
      }
      paths := paths + [path.value];
    }
    assert objects[..|objects|] == objects;
    r := Ok(paths);
  }

  /** The first path that cannot be normalized decides. */
  lemma {:induction false} StopsAt(objects: seq<RawPath>, i: nat)
    requires i <= |objects| && AllNormalized(objects[..i]).Err?
    ensures AllNormalized(objects) == Err(AllNormalized(objects[..i]).code)
  {
    if i == |objects| {
      assert objects[..i] == objects;
    } else {
      var front := objects[..|objects| - 1];
      assert front[..i] == objects[..i];
      StopsAt(front, i);
    }
  }

  function PathsOf(inputs: seq<Admitted>): (paths: seq<Path>)
    ensures |paths| == |inputs| && forall i :: 0 <= i < |inputs| ==> paths[i] == inputs[i].path
  {
    seq(|inputs|, i requires 0 <= i < |inputs| => inputs[i].path)
  }

  /** What a session names, as its caller gives it. */
  datatype Request = Request(layout: RawLayout, expected: seq<Identity>, supplied: seq<Supplied>, objects: seq<RawPath>)

  /** All of `admit` that looks at paths: source objects, package inputs, and the four places of the session. */
  function SessionAdmitted(q: Request): Result<Layout> {
    var objects :- AllNormalized(q.objects);
    var inputs :- InputsAdmitted(q.expected, q.supplied);
    LayoutAdmitted(q.layout, PathsOf(inputs), objects)
  }

  method AdmitPaths(q: Request) returns (r: Result<Layout>)
    ensures r == SessionAdmitted(q)
  {
    var objects :- NormalizeAll(q.objects);
    var inputs :- AdmitInputs(q.expected, q.supplied);
    r := AdmitLayout(q.layout, PathsOf(inputs), objects);
  }

  lemma {:induction false} IsNormal(raw: RawPath)
    requires Normalized(raw).Ok?
    ensures Normal(Normalized(raw).value) && Place(Normalized(raw).value) != []
  {
    NormalizedOnce(raw.components);
  }

  lemma {:induction false} AllAreNormal(objects: seq<RawPath>)
    requires AllNormalized(objects).Ok?
    ensures forall i :: 0 <= i < |AllNormalized(objects).value| ==> Normal(AllNormalized(objects).value[i])
  {
    if objects != [] {
      AllAreNormal(objects[..|objects| - 1]);
      IsNormal(objects[|objects| - 1]);
    }
  }

  lemma {:induction false} InputsAreNormal(expected: seq<Identity>, supplied: seq<Supplied>)
    requires InputsAdmitted(expected, supplied).Ok?
    ensures forall i :: 0 <= i < |InputsAdmitted(expected, supplied).value| ==>
      Normal(InputsAdmitted(expected, supplied).value[i].path)
  {
    var chosen := AdmittedIsPermutation(expected, supplied);
    forall i | 0 <= i < |chosen|
      ensures Normal(InputsAdmitted(expected, supplied).value[i].path)
    {
      assert Acceptable(chosen[i]);
      IsNormal(chosen[i].path);
    }
  }

  /** Every admitted session is apart as far as the check sees, in normal form throughout, and has two real roots. */
  lemma {:induction false} AdmittedIsNormal(q: Request)
    requires SessionAdmitted(q).Ok?
    ensures var l := SessionAdmitted(q).value;
      Apart(l) && NormalLayout(l) && Place(l.sessionRoot) != [] && Place(l.outputRoot) != [] && !Slashed(l.artifact)
  {
    var l := SessionAdmitted(q).value;
    IsNormal(q.layout.rootView);
    IsNormal(q.layout.sessionRoot);
    IsNormal(q.layout.outputRoot);
    IsNormal(q.layout.artifact);
    AllAreNormal(q.objects);
    InputsAreNormal(q.expected, q.supplied);
    ProtectedAreNormal(l);
  }

  lemma {:induction false} ProtectedAreNormal(l: Layout)
    requires Normal(l.rootView) && Normal(l.artifact) && Normal(l.sessionRoot) && Normal(l.outputRoot)
    requires forall i :: 0 <= i < |l.inputs| ==> Normal(l.inputs[i])
    requires forall i :: 0 <= i < |l.objects| ==> Normal(l.objects[i])
    ensures NormalLayout(l)
  {
    var n := |l.inputs|;
    forall i | 0 <= i < |Protected(l)|
      ensures Normal(Protected(l)[i])
    {
      assert Protected(l)[i] ==
        if i == 0 then l.rootView else if i == 1 then l.artifact
        else if i < n + 2 then l.inputs[i - 2] else l.objects[i - n - 2];
    }
  }

  /** One place lies properly beneath the other, which is written with a trailing slash. */
  predicate Hidden(a: Path, b: Path) {
    (Slashed(a) && Place(a) < Place(b)) || (Slashed(b) && Place(b) < Place(a))
  }

  // The two names of the sealed artifact ----------------------------------------------------------------

  const SEALED_NAME := "sealed-artifact.tar"

  /** `project_sealed_artifact_path`: the private name, in the session root. */
  function SealedPath(sessionRoot: Path): Path {
    Place(sessionRoot) + [SEALED_NAME]
  }

  /** The artifact path is the private name of the session or lies beneath it. */
  predicate ArtifactAtSealed(l: Layout) {
    SealedPath(l.sessionRoot) <= l.artifact
  }

  /**
   * In an admitted session the two names are in line exactly when the session root is written with
   * a trailing slash and the artifact path begins with the private name; and the artifact path never
   * lies above the private name.
   */
  lemma {:induction false} PublicIsSealedExactly(raw: RawLayout, inputs: seq<Path>, objects: seq<Path>)
    requires LayoutAdmitted(raw, inputs, objects).Ok?
    ensures var l := LayoutAdmitted(raw, inputs, objects).value;
      && (ArtifactAtSealed(l) <==>
           Slashed(l.sessionRoot) && |Place(l.sessionRoot)| < |l.artifact|
           && l.artifact[..|Place(l.sessionRoot)| + 1] == Place(l.sessionRoot) + [SEALED_NAME])
      && !(l.artifact < SealedPath(l.sessionRoot))
  {
    var l := LayoutAdmitted(raw, inputs, objects).value;
    var place := Place(l.sessionRoot);
    assert !Overlaps(l.artifact, [l.rootView, l.sessionRoot, l.outputRoot][1]);
    if ArtifactAtSealed(l) {
      assert l.artifact[..|place|] == SealedPath(l.sessionRoot)[..|place|] == place;
    }
  }

  /** Session root "/<root>/" with the artifact beneath it, beside a root view and an output root elsewhere. */
  function SharedLayout(view: string, root: string, output: string, beneath: Path): RawLayout {
    RawLayout(RawPath(true, [view]), RawPath(true, [root] + [""]),
              RawPath(true, [output]), RawPath(true, [root] + beneath))
  }

  /** Every such layout is admitted. */
  lemma {:induction false} SharedLayoutIsAdmitted(view: string, root: string, output: string, beneath: Path)
    requires Named(view) && Named(root) && Named(output) && AllNamed(beneath) && beneath != []
    requires view != root && view != output && root != output
    ensures LayoutAdmitted(SharedLayout(view, root, output, beneath), [], []) ==
      Ok(Layout([view], [root, ""], [output], [root] + beneath, [], []))
  {
    var raw := SharedLayout(view, root, output, beneath);
    var l := Layout([view], [root, ""], [output], [root] + beneath, [], []);
    NormalNames(raw.rootView, l.rootView);
    NormalNames(raw.outputRoot, l.outputRoot);
    NormalNames(raw.artifact, l.artifact);
    NormalWithSlash(raw.sessionRoot, [root], l.sessionRoot);
    SharedIsApart(view, root, output, beneath);
    assert Named(l.artifact[|l.artifact| - 1]);
    AdmittedFrom(raw, l);
  }

  lemma {:induction false} AdmittedFrom(raw: RawLayout, l: Layout)
    requires Normalized(raw.rootView) == Ok(l.rootView) && Normalized(raw.sessionRoot) == Ok(l.sessionRoot)
    requires Normalized(raw.outputRoot) == Ok(l.outputRoot) && Normalized(raw.artifact) == Ok(l.artifact)
    requires !Slashed(l.artifact) && Apart(l)
    ensures LayoutAdmitted(raw, l.inputs, l.objects) == Ok(l)
  {
  }

  /** So an admitted session's artifact path can be its private name, or lie beneath it at any depth. */
  lemma {:induction false} ArtifactCanBeAtSealed(view: string, root: string, output: string, more: Path)
    requires Named(view) && Named(root) && Named(output) && AllNamed(more)
    requires view != root && view != output && root != output
    ensures var admitted := LayoutAdmitted(SharedLayout(view, root, output, [SEALED_NAME] + more), [], []);
      && admitted.Ok?
      && ArtifactAtSealed(admitted.value)
      && SealedPath(admitted.value.sessionRoot) == [root, SEALED_NAME]
      && admitted.value.artifact == [root, SEALED_NAME] + more
  {
    assert Named(SEALED_NAME);
    SharedLayoutIsAdmitted(view, root, output, [SEALED_NAME] + more);
    AtSealed(Layout([view], [root, ""], [output], [root] + ([SEALED_NAME] + more), [], []), root, more);
  }

  lemma {:induction false} AtSealed(l: Layout, root: string, more: Path)
    requires l.sessionRoot == [root, ""] && l.artifact == [root] + ([SEALED_NAME] + more)
    ensures ArtifactAtSealed(l) && SealedPath(l.sessionRoot) == [root, SEALED_NAME]
    ensures l.artifact == [root, SEALED_NAME] + more
  {
    assert Place([root, ""]) == [root];
    assert [root] + ([SEALED_NAME] + more) == [root, SEALED_NAME] + more;
  }

  lemma {:induction false} SharedIsApart(view: string, root: string, output: string, beneath: Path)
    requires view != root && view != output && root != output && beneath != [] && beneath[0] != ""
    ensures Apart(Layout([view], [root, ""], [output], [root] + beneath, [], []))
  {
    var l := Layout([view], [root, ""], [output], [root] + beneath, [], []);
    FirstDiffers(l.rootView, l.sessionRoot);
    FirstDiffers(l.rootView, l.outputRoot);
    FirstDiffers(l.sessionRoot, l.outputRoot);
    FirstDiffers(l.artifact, l.rootView);
    FirstDiffers(l.artifact, l.outputRoot);
    assert l.artifact[1] != l.sessionRoot[1];
  }

  lemma {:induction false} NormalNames(raw: RawPath, names: Path)
    requires AllNamed(names) && names != [] && raw == RawPath(true, names)
    ensures Normalized(raw) == Ok(names)
  {
    NamedIsReduced(names);
  }

  lemma {:induction false} NormalWithSlash(raw: RawPath, names: Path, p: Path)
    requires AllNamed(names) && names != [] && raw == RawPath(true, p) && p == names + [""]
    ensures Normalized(raw) == Ok(p)
  {
    NamedIsReduced(names);
    assert p[..|names|] == names;
  }

  lemma {:induction false} FirstDiffers(a: Path, b: Path)
    requires a != [] && b != [] && a[0] != b[0]
    ensures !Overlaps(a, b)
  {
  }
}
