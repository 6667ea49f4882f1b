/**
 * Archive path text and path components (src/source_archive_libarchive.cpp:73-123).
 *
 * The extractor keeps every path twice: as text, which keys its directory map, and as
 * components, which drive the descriptor walk.  This module proves that the two views
 * determine each other.
 */
module PathText {
  import opened Outcomes

  /** `safe_path`: the text and the components of one accepted path. */
  datatype SafePath = SafePath(text: string, components: seq<string>)

  predicate Canonical(c: string) {
    c != "" && c != "." && c != ".." && '/' !in c
  }

  predicate CanonicalPath(cs: seq<string>) {
    cs != [] && forall i :: 0 <= i < |cs| ==> Canonical(cs[i])
  }

  /** Components joined with single slashes; a slash is written only after non-empty text. */
  function Join(cs: seq<string>): string {
    if cs == [] then ""
    else
      var before := Join(cs[..|cs| - 1]);
      (if before == "" then "" else before + "/") + cs[|cs| - 1]
  }

  /** `text` without trailing slashes, but never shorter than one character. */
  function Strip(text: string): string {
    if |text| > 1 && text[|text| - 1] == '/' then Strip(text[..|text| - 1]) else text
  }

  /** The first slash at or after `offset`, or the length of the text. */
  function FindSlash(text: string, offset: nat): (k: nat)
    requires offset <= |text|
    ensures offset <= k <= |text|
    ensures forall i :: offset <= i < k ==> text[i] != '/'
    ensures k < |text| ==> text[k] == '/'
    decreases |text| - offset
  {
    if offset == |text| || text[offset] == '/' then offset else FindSlash(text, offset + 1)
  }

  /** The pieces of `text` between slashes from `offset` on, empty pieces included. */
  function Pieces(text: string, offset: nat): (pieces: seq<string>)
    requires offset <= |text|
    ensures pieces != []
    decreases |text| - offset
  {
    var slash := FindSlash(text, offset);
    if slash == |text| then [text[offset..]] else [text[offset..slash]] + Pieces(text, slash + 1)
  }

  function Split(text: string): (pieces: seq<string>) {
    Pieces(text, 0)
  }

  /** What an archive path means: its stripped text, read as canonical pieces. */
  function ParsePath(raw: Option<string>): Result<SafePath> {
    if raw.None? || raw.value == "" then Err(SourceStagingFailed)
    else
      var text := Strip(raw.value);
      if CanonicalPath(Split(text)) then Ok(SafePath(text, Split(text))) else Err(SourceStagingFailed)
  }

  /** `parse_archive_path`: strip, refuse absolute text, then cut at slashes. */
  method ParseArchivePath(raw: Option<string>) returns (r: Result<SafePath>)
    ensures r == ParsePath(raw)
  {
    if raw.None? || raw.value == "" {
      return Err(SourceStagingFailed);
    }
    var text := raw.value;
    while |text| > 1 && text[|text| - 1] == '/'
      invariant text != "" && Strip(text) == Strip(raw.value)
      decreases |text|
    {
      text := text[..|text| - 1];
    }
    if text[0] == '/' {
      assert !Canonical(Split(text)[0]);
      return Err(SourceStagingFailed);
    }
    var components :- CutComponents(text);
    r := Ok(SafePath(text, components));
  }

  /** The components already cut, followed by those still to come, or the refusal ahead. */
  ghost function CutFrom(text: string, offset: nat, components: seq<string>): Result<seq<string>>
    requires offset <= |text|
    decreases |text| - offset
  {
    var slash := FindSlash(text, offset);
    if !Canonical(text[offset..slash]) then Err(SourceStagingFailed)
    else if slash == |text| then Ok(components + [text[offset..slash]])
    else CutFrom(text, slash + 1, components + [text[offset..slash]])
  }

  lemma {:induction false} CutFromPieces(text: string, offset: nat, components: seq<string>)
    requires offset <= |text|
    ensures CutFrom(text, offset, components) ==
      if CanonicalPath(Pieces(text, offset)) then Ok(components + Pieces(text, offset)) else Err(SourceStagingFailed)
    decreases |text| - offset
  {
    var slash := FindSlash(text, offset);
    var component, pieces := text[offset..slash], Pieces(text, offset);
    assert pieces[0] == component;
    if Canonical(component) && slash < |text| {
      var rest := Pieces(text, slash + 1);
      CutFromPieces(text, slash + 1, components + [component]);
      assert components + [component] + rest == components + pieces;
      assert forall i :: 0 < i < |pieces| ==> pieces[i] == rest[i - 1];
      assert forall i :: 0 <= i < |rest| ==> rest[i] == pieces[i + 1];
    }
  }

  /** The cutting loop of `parse_archive_path`, over stripped text. */
  method CutComponents(text: string) returns (r: Result<seq<string>>)
    requires text != "" && text[|text| - 1] != '/'
    ensures r == if CanonicalPath(Split(text)) then Ok(Split(text)) else Err(SourceStagingFailed)
  {
    var components: seq<string> := [];
    var offset := 0;
    CutFromPieces(text, 0, []);
    assert [] + Split(text) == Split(text);
    while offset < |text|
      invariant offset < |text|
      invariant CutFrom(text, offset, components) == CutFrom(text, 0, [])
    {
      var slash := FindSlash(text, offset);
      var component := text[offset..slash];
      if component == "" || component == "." || component == ".." {
        return Err(SourceStagingFailed);
      }
      components := components + [component];
      if slash == |text| {
        return Ok(components);
      }
      offset := slash + 1;
    }
    assert false;
  }

  lemma {:induction false} FindSlashInSuffix(text: string, from: nat, offset: nat)
    requires from <= offset <= |text|
    ensures FindSlash(text[from..], offset - from) == FindSlash(text, offset) - from
    decreases |text| - offset
  {
    if offset < |text| && text[offset] != '/' {
      FindSlashInSuffix(text, from, offset + 1);
    }
  }

  /** The pieces after a cut are the pieces of the suffix alone. */
  lemma {:induction false} PiecesOfSuffix(text: string, from: nat, offset: nat)
    requires from <= offset <= |text|
    ensures Pieces(text[from..], offset - from) == Pieces(text, offset)
    decreases |text| - offset
  {
    FindSlashInSuffix(text, from, offset);
    var slash := FindSlash(text, offset);
    if slash < |text| {
      PiecesOfSuffix(text, from, slash + 1);
    }
    SliceOfSuffix(text, from, offset, slash);
    SamePieces(text, text[from..], from, offset, slash);
  }

  /** One step, given that the piece up to the next slash and the pieces after it agree. */
  lemma {:induction false} SamePieces(text: string, suffix: string, from: nat, offset: nat, slash: nat)
    requires from <= offset <= |text| && |suffix| == |text| - from
    requires slash == FindSlash(text, offset) && slash - from == FindSlash(suffix, offset - from)
    requires suffix[offset - from..slash - from] == text[offset..slash]
    requires slash == |text| ==> suffix[offset - from..] == text[offset..]
    requires slash < |text| ==> Pieces(suffix, slash + 1 - from) == Pieces(text, slash + 1)
    ensures Pieces(suffix, offset - from) == Pieces(text, offset)
  {
  }

  lemma SliceOfSuffix(text: string, from: nat, lo: nat, hi: nat)
    requires from <= lo <= hi <= |text|
    ensures text[from..][lo - from..hi - from] == text[lo..hi]
    ensures hi == |text| ==> text[from..][lo - from..] == text[lo..]
  {
  }

  /** `join_components`: the prefix text under which a directory is recorded. */
  method JoinComponents(components: seq<string>, count: nat) returns (result: string)
    requires count <= |components|
    ensures result == Join(components[..count])
  {
    result := "";
    for index := 0 to count
      invariant result == Join(components[..index])
    {
      if result != "" {
        result := result + "/";
      }
      result := result + components[index];
      assert components[..index + 1][..index] == components[..index];
    }
  }

  /** Joining from the back, which is how the source does it. */
  lemma {:induction false} JoinBack(cs: seq<string>)
    requires CanonicalPath(cs)
    ensures Join(cs) != ""
    ensures Join(cs) == if |cs| == 1 then cs[0] else Join(cs[..|cs| - 1]) + "/" + cs[|cs| - 1]
    decreases |cs|
  {
    if |cs| > 1 {
      JoinBack(cs[..|cs| - 1]);
    }
  }

  /** Joining from the front: the first component, a slash, and the rest. */
  lemma {:induction false} JoinFront(cs: seq<string>)
    requires CanonicalPath(cs) && |cs| > 1
    ensures Join(cs) == cs[0] + "/" + Join(cs[1..])
    decreases |cs|
  {
    var init, last := cs[..|cs| - 1], cs[|cs| - 1];
    JoinBack(cs);
    JoinBack(cs[1..]);
    if |cs| == 2 {
      JoinBack(init);
    } else {
      var middle := init[1..];
      JoinFront(init);
      assert middle == cs[1..][..|cs| - 2];
      calc {
        Join(cs);
        Join(init) + "/" + last;
        cs[0] + "/" + Join(middle) + "/" + last;
        { RegroupSlashes(cs[0], Join(middle), last); }
        cs[0] + "/" + (Join(middle) + "/" + last);
        cs[0] + "/" + Join(cs[1..]);
      }
    }
  }

  lemma RegroupSlashes(first: string, middle: string, last: string)
    ensures first + "/" + middle + "/" + last == first + "/" + (middle + "/" + last)
  {
  }

  /** Text of canonical components has no leading or trailing slash and splits into them. */
  lemma {:induction false} SplitJoin(cs: seq<string>)
    requires CanonicalPath(cs)
    ensures Split(Join(cs)) == cs
    ensures Join(cs) != "" && Join(cs)[0] != '/' && Join(cs)[|Join(cs)| - 1] != '/'
    decreases |cs|
  {
    JoinBack(cs);
    if |cs| > 1 {
      JoinFront(cs);
      SplitJoin(cs[1..]);
      SplitAtSlash(cs[0], Join(cs[1..]));
    }
  }

  /** Text with a slash splits into what is before its first slash and the pieces after it. */
  lemma {:induction false} SplitAtSlash(first: string, rest: string)
    requires '/' !in first
    ensures Split(first + "/" + rest) == [first] + Split(rest)
  {
    var text, k := first + "/" + rest, |first|;
    assert forall i :: 0 <= i < k ==> text[i] == first[i];
    assert text[k] == '/';
    assert FindSlash(text, 0) == k;
    assert text[..k] == first && text[k + 1..] == rest;
    PiecesOfSuffix(text, k + 1, k + 1);
  }

  /** What is after the first slash splits into the later pieces. */
  lemma {:induction false} SplitRest(text: string, k: nat)
    requires k == FindSlash(text, 0) < |text| && CanonicalPath(Split(text))
    ensures Split(text) == [text[..k]] + Split(text[k + 1..]) && CanonicalPath(Split(text[k + 1..]))
    ensures text == text[..k] + "/" + text[k + 1..]
  {
    var all, rest := Split(text), Split(text[k + 1..]);
    PiecesOfSuffix(text, k + 1, k + 1);
    assert all == [text[..k]] + rest;
    forall i | 0 <= i < |rest|
      ensures Canonical(rest[i])
    {
      assert rest[i] == all[i + 1];
    }
  }

  /** Cutting at slashes loses nothing. */
  lemma {:induction false} JoinSplit(text: string)
    requires CanonicalPath(Split(text))
    ensures Join(Split(text)) == text
    decreases |text|
  {
    var k := FindSlash(text, 0);
    if k == |text| {
      assert [text][..0] == [];
    } else {
      SplitRest(text, k);
      JoinSplit(text[k + 1..]);
      JoinFront(Split(text));
    }
  }

  function Slashes(k: nat): string {
    seq(k, _ => '/')
  }

  /** What stripping takes off are slashes. */
  lemma {:induction false} StripTakesSlashes(text: string) returns (k: nat)
    ensures text == Strip(text) + Slashes(k)
    ensures |Strip(text)| > 1 ==> Strip(text)[|Strip(text)| - 1] != '/'
    decreases |text|
  {
    k := 0;
    if |text| > 1 && text[|text| - 1] == '/' {
      k := StripTakesSlashes(text[..|text| - 1]);
      k := k + 1;
      assert text == text[..|text| - 1] + "/" && Slashes(k) == Slashes(k - 1) + "/";
    }
  }

  /** And it takes off all of them. */
  lemma {:induction false} StripOfPadded(text: string, k: nat)
    requires text != "" && text[|text| - 1] != '/'
    ensures Strip(text + Slashes(k)) == text
  {
    if k == 0 {
      assert text + Slashes(0) == text;
    } else {
      var padded := text + Slashes(k);
      assert padded[|padded| - 1] == '/' && padded[..|padded| - 1] == text + Slashes(k - 1);
      StripOfPadded(text, k - 1);
    }
  }

  lemma {:induction false} AcceptedText(raw: string)
    requires ParsePath(Some(raw)).Ok?
    ensures var path := ParsePath(Some(raw)).value;
      path.text == Strip(raw) && CanonicalPath(path.components) && Join(path.components) == path.text
  {
    JoinSplit(Strip(raw));
  }

  /** A name for a list of components: the components with a slash between each two, and any slashes after them. */
  ghost predicate Names(raw: string, cs: seq<string>) {
    exists k: nat {:trigger Slashes(k)} :: raw == Join(cs) + Slashes(k)
  }

  lemma {:induction false} NamesAreAccepted(raw: string, cs: seq<string>)
    requires CanonicalPath(cs) && Names(raw, cs)
    ensures ParsePath(Some(raw)) == Ok(SafePath(Join(cs), cs))
  {
    SplitJoin(cs);
    var k: nat :| raw == Join(cs) + Slashes(k);
    StripOfPadded(Join(cs), k);
  }

  lemma {:induction false} AcceptedAreNames(raw: string)
    requires ParsePath(Some(raw)).Ok?
    ensures var cs := ParsePath(Some(raw)).value.components;
      CanonicalPath(cs) && Names(raw, cs) && ParsePath(Some(raw)).value.text == Join(cs)
  {
    AcceptedText(raw);
    var k := StripTakesSlashes(raw);
    assert raw == Strip(raw) + Slashes(k);
  }

  /**
   * Exactly the names of non-empty lists of ordinary components are accepted, and with those
   * components: "src/" and "src" as ["src"], and no absolute, empty or dotted name at all.
   */
  lemma {:induction false} AcceptedPathsAreJoined(raw: string, cs: seq<string>)
    ensures ParsePath(Some(raw)) == Ok(SafePath(Join(cs), cs)) <==>
      && cs != []
      && (forall i :: 0 <= i < |cs| ==> cs[i] != "" && cs[i] != "." && cs[i] != ".." && '/' !in cs[i])
      && Names(raw, cs)
    ensures ParsePath(Some(raw)).Ok? ==> ParsePath(Some(raw)).value.text == Join(ParsePath(Some(raw)).value.components)
  {
    if ParsePath(Some(raw)).Ok? {
      AcceptedAreNames(raw);
    }
    if CanonicalPath(cs) && Names(raw, cs) {
      NamesAreAccepted(raw, cs);
    }
  }

  /** Reparsing the recorded text of a directory yields the components it was recorded for. */
  lemma {:induction false} ReparseYieldsComponents(cs: seq<string>)
    requires CanonicalPath(cs)
    ensures ParsePath(Some(Join(cs))) == Ok(SafePath(Join(cs), cs))
  {
    assert Join(cs) + Slashes(0) == Join(cs);
    NamesAreAccepted(Join(cs), cs);
  }

  /** Two canonical component lists with the same text are the same list. */
  lemma {:induction false} JoinInjective(cs: seq<string>, ds: seq<string>)
    requires CanonicalPath(cs) && CanonicalPath(ds)
    ensures Join(cs) == Join(ds) <==> cs == ds
  {
    SplitJoin(cs);
    SplitJoin(ds);
  }

  /** How often the separator occurs: the depth `seal_directories` sorts by. */
  function SlashCount(text: string): nat {
    if text == "" then 0
    else SlashCount(text[..|text| - 1]) + (if text[|text| - 1] == '/' then 1 else 0)
  }

  lemma {:induction false} SlashCountConcat(a: string, b: string)
    ensures SlashCount(a + b) == SlashCount(a) + SlashCount(b)
    decreases |b|
  {
    if b == "" {
      assert a + b == a;
    } else {
      SlashCountConcat(a, b[..|b| - 1]);
      assert (a + b)[..|a + b| - 1] == a + b[..|b| - 1];
    }
  }

  lemma {:induction false} NoSlashes(c: string)
    requires '/' !in c
    ensures SlashCount(c) == 0
    decreases |c|
  {
    if c != "" {
      NoSlashes(c[..|c| - 1]);
    }
  }

  /** The separator count of a directory's text is its depth minus one. */
  lemma {:induction false} SlashCountIsDepth(cs: seq<string>)
    requires CanonicalPath(cs)
    ensures SlashCount(Join(cs)) == |cs| - 1
    decreases |cs|
  {
    var last := cs[|cs| - 1];
    NoSlashes(last);
    JoinBack(cs);
    if |cs| > 1 {
      var init := cs[..|cs| - 1];
      SlashCountIsDepth(init);
      SlashCountConcat(Join(init), "/");
      SlashCountConcat(Join(init) + "/", last);
      assert SlashCount("/") == 1 by {
        assert "/"[..0] == "";
      }
    }
  }
}
