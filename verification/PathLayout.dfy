/**
 * Host paths as `std::filesystem` sees them, and the overlap check of session admission
 * (src/model.cpp:19-64).  An absolute path is its components after the root; a trailing slash is
 * an empty last component.
 */
module PathLayout {
  import opened Outcomes

  type Path = seq<string>

  datatype RawPath = RawPath(absolute: bool, components: seq<string>)

  /** The names left after dots are dropped and every ".." takes back the name before it. */
  function Reduced(components: seq<string>): seq<string> {
    if components == [] then
      []
    else
      var front, last := Reduced(components[..|components| - 1]), components[|components| - 1];
      if last == "" || last == "." then front
      else if last == ".." then if front == [] then [] else front[..|front| - 1]
      else front + [last]
  }

  /** `lexically_normal` of an absolute path. */
  function LexicallyNormal(components: seq<string>): Path {
    var names := Reduced(components);
    if names != [] && components[|components| - 1] in {"", ".", ".."} then names + [""] else names
  }

  /** An ordinary name: neither empty nor a dot component. */
  predicate Named(name: string) {
    name != "" && name != "." && name != ".."
  }

  predicate AllNamed(names: seq<string>) {
    forall i :: 0 <= i < |names| ==> Named(names[i])
  }

  /** Ordinary names, and perhaps one empty component at the end. */
  predicate Normal(p: Path) {
    AllNamed(Place(p)) && (Slashed(p) ==> Place(p) != [])
  }

  /** The path ends in a slash. */
  predicate Slashed(p: Path) {
    p != [] && p[|p| - 1] == ""
  }

  /** Where the path leads when no ancestor is a symbolic link. */
  function Place(p: Path): Path {
    if Slashed(p) then p[..|p| - 1] else p
  }

  lemma {:induction false} ReducedIsNamed(components: seq<string>)
    ensures AllNamed(Reduced(components))
  {
    if components != [] {
      ReducedIsNamed(components[..|components| - 1]);
    }
  }

  lemma {:induction false} NamedIsReduced(names: seq<string>)
    requires AllNamed(names)
    ensures Reduced(names) == names
  {
    if names != [] {
      var last := |names| - 1;
      NamedIsReduced(names[..last]);
      assert Named(names[last]);
    }
  }

  /** What follows a path does not care how the path was written. */
  lemma {:induction false} ReducedAlike(a: seq<string>, b: seq<string>, more: seq<string>)
    requires Reduced(a) == Reduced(b)
    ensures Reduced(a + more) == Reduced(b + more)
  {
    if more == [] {
      assert a + [] == a && b + [] == b;
    } else {
      var front, last := more[..|more| - 1], more[|more| - 1];
      ReducedAlike(a, b, front);
      assert (a + more)[..|a + more| - 1] == a + front && (b + more)[..|b + more| - 1] == b + front;
    }
  }

  /** A dot, or nothing between two slashes, drops out wherever it stands. */
  lemma {:induction false} DotsDropOut(a: seq<string>, b: seq<string>)
    ensures Reduced(a + ["."] + b) == Reduced(a + b)
    ensures Reduced(a + [""] + b) == Reduced(a + b)
  {
    assert (a + ["."])[..|a|] == a && (a + [""])[..|a|] == a;
    ReducedAlike(a + ["."], a, b);
    ReducedAlike(a + [""], a, b);
  }

  /** An ordinary name and the ".." after it take each other back wherever they stand. */
  lemma {:induction false} UpTakesBack(a: seq<string>, name: string, b: seq<string>)
    requires name !in {"", ".", ".."}
    ensures Reduced(a + [name, ".."] + b) == Reduced(a + b)
  {
    var up := a + [name, ".."];
    assert up[..|up| - 1] == a + [name] && (a + [name])[..|a|] == a;
    assert (Reduced(a) + [name])[..|Reduced(a)|] == Reduced(a);
    ReducedAlike(up, a, b);
  }

  /** The root is its own parent. */
  lemma {:induction false} UpFromRoot(b: seq<string>)
    ensures Reduced([".."] + b) == Reduced(b)
  {
    assert [".."][..0] == [] && [] + b == b;
    ReducedAlike([".."], [], b);
  }

  /**
   * When a path is refused, and what becomes of it otherwise: its reduced names, and a trailing
   * slash exactly if it was written with one or ended in a dot.
   */
  lemma {:induction false} NormalizedExactly(raw: RawPath)
    ensures Normalized(raw) == Err(InvalidSession) <==> !raw.absolute
    ensures Normalized(raw) == Err(UnsafePathLayout) <==> raw.absolute && Reduced(raw.components) == []
    ensures Normalized(raw).Ok? ==>
      && Normalized(raw).value ==
           Reduced(raw.components) + (if raw.components[|raw.components| - 1] in {"", ".", ".."} then [""] else [])
  {
    var names := Reduced(raw.components);
    assert names + [] == names;
  }

  /** The result is normal, and is its own normal form. */
  lemma {:induction false} NormalizedOnce(components: seq<string>)
    ensures var p := LexicallyNormal(components);
      Normal(p) && Place(p) == Reduced(components) && LexicallyNormal(p) == p
  {
    var names, p := Reduced(components), LexicallyNormal(components);
    ReducedIsNamed(components);
    NamedIsReduced(names);
    if names != [] {
      assert Named(names[|names| - 1]);
      if p != names {
        assert p[..|p| - 1] == names;
      }
    }
  }

  /** `normalize_absolute`. */
  function Normalized(raw: RawPath): Result<Path> {
    if !raw.absolute then Err(InvalidSession)
    else if LexicallyNormal(raw.components) == [] then Err(UnsafePathLayout)
    else Ok(LexicallyNormal(raw.components))
  }

  /** `contains_or_equals`: walk both paths until the parent ends. */
  method ContainsOrEquals(parent: Path, child: Path) returns (contains: bool)
    ensures contains <==> parent <= child
  {
    for i := 0 to |parent|
      invariant i <= |child| && parent[..i] == child[..i]
    {
      if i == |child| || parent[i] != child[i] {
        return false;
      }
    }
    contains := true;
  }

  /** What `overlaps` answers. */
  predicate Overlaps(a: Path, b: Path) {
    a <= b || b <= a
  }

  method CheckOverlaps(a: Path, b: Path) returns (overlaps: bool)
    ensures overlaps <==> Overlaps(a, b)
  {
    overlaps := ContainsOrEquals(a, b);
    if !overlaps {
      overlaps := ContainsOrEquals(b, a);
    }
  }

  /** One place is the other or lies beneath it. */
  predicate Nested(a: Path, b: Path) {
    Place(a) <= Place(b) || Place(b) <= Place(a)
  }

  /**
   * What the check sees and what it misses: nested places, except that a path with a trailing
   * slash does not contain what lies properly beneath it.
   */
  lemma {:induction false} OverlapsExactly(a: Path, b: Path)
    requires Normal(a) && Normal(b)
    ensures Overlaps(a, b) <==>
      Nested(a, b) && !(Slashed(a) && Place(a) < Place(b)) && !(Slashed(b) && Place(b) < Place(a))
  {
    PrefixExactly(a, b);
    PrefixExactly(b, a);
  }

  lemma {:induction false} PrefixExactly(a: Path, b: Path)
    requires Normal(a) && Normal(b)
    ensures a <= b <==> if Slashed(a) then Slashed(b) && Place(a) == Place(b) else Place(a) <= Place(b)
  {
    assert Slashed(a) ==> a == Place(a) + [""];
    assert Slashed(b) ==> b == Place(b) + [""];
    assert a <= b && |a| == |b| ==> a == b;
    if Slashed(a) && a <= b {
      assert b[|a| - 1] == "";
      assert |a| - 1 < |Place(b)| ==> Named(Place(b)[|a| - 1]);
    }
  }

  /** Every root written with a trailing slash hides what lies beneath it from the check. */
  lemma {:induction false} SlashHides(names: Path, more: Path)
    requires AllNamed(names) && AllNamed(more) && names != [] && more != []
    ensures var root, beneath := LexicallyNormal(names + [""]), LexicallyNormal(names + more);
      Nested(root, beneath) && !Overlaps(root, beneath)
  {
    NormalizedOnce(names + [""]);
    NormalizedOnce(names + more);
    assert (names + [""])[..|names|] == names;
    NamedIsReduced(names);
    NamedIsReduced(names + more);
    assert Named((names + more)[|names + more| - 1]);
    assert Place(LexicallyNormal(names + [""])) == names;
    assert names < names + more;
    OverlapsExactly(LexicallyNormal(names + [""]), LexicallyNormal(names + more));
  }

  /** So "/build/" and "/build/out" are nested, and the check lets them pass. */
  lemma {:induction false} SlashHidesNesting()
    ensures Nested(LexicallyNormal(["build"] + [""]), LexicallyNormal(["build"] + ["out"]))
    ensures !Overlaps(LexicallyNormal(["build"] + [""]), LexicallyNormal(["build"] + ["out"]))
  {
    SlashHides(["build"], ["out"]);
  }

  /** Two places with a common descendant, or one thing at or beneath each in line, are nested. */
  lemma {:induction false} NestedIfShared(a: Path, b: Path, x: Path, y: Path)
    requires Place(a) <= x && Place(b) <= y && (x <= y || y <= x)
    ensures Nested(a, b)
  {
    var longer := if x <= y then y else x;
    assert Place(a) <= longer && Place(b) <= longer;
    if |Place(a)| <= |Place(b)| {
      assert Place(b)[..|Place(a)|] == longer[..|Place(a)|];
    } else {
      assert Place(a)[..|Place(b)|] == longer[..|Place(b)|];
    }
  }
}
