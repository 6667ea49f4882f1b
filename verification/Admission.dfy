/**
 * Session admission: package inputs matched to the request, execution resources told apart, and
 * host paths kept apart (src/model.cpp:165-267, src/executor.cpp:133-152, 1409-1420, 1493-1543).
 */
module Admission {
  import opened Outcomes
  import opened PathLayout

  type Identity = string

  /** One supplied package input: which build input it is, its resource identity, and where it is. */
  datatype Input<+P> = Input(input: Identity, resource: Identity, path: P)

  type Supplied = Input<RawPath>

  type Admitted = Input<Path>

  // What is supplied for one identity ----------------------------------------------------------------

  function Selected(id: Identity, supplied: seq<Supplied>): seq<Supplied> {
    if supplied == [] then []
    else (if supplied[0].input == id then [supplied[0]] else []) + Selected(id, supplied[1..])
  }

  lemma {:induction false} SelectedInTwo(id: Identity, a: seq<Supplied>, b: seq<Supplied>)
    ensures Selected(id, a + b) == Selected(id, a) + Selected(id, b)
  {
    if a == [] {
      assert a + b == b;
    } else {
      assert (a + b)[1..] == a[1..] + b && (a + b)[0] == a[0];
      SelectedInTwo(id, a[1..], b);
      Regrouped(if a[0].input == id then [a[0]] else [], Selected(id, a[1..]), Selected(id, b));
    }
  }

  lemma {:induction false} Regrouped(a: seq<Supplied>, b: seq<Supplied>, c: seq<Supplied>)
    ensures a + (b + c) == (a + b) + c
  {
  }

  lemma {:induction false} SelectedIs(id: Identity, supplied: seq<Supplied>)
    ensures forall x :: x in Selected(id, supplied) <==> x in supplied && x.input == id
  {
    if supplied != [] {
      SelectedIs(id, supplied[1..]);
      assert supplied == [supplied[0]] + supplied[1..];
    }
  }

  lemma {:induction false} SelectedCounts(id: Identity, supplied: seq<Supplied>, x: Supplied)
    ensures multiset(Selected(id, supplied))[x] == if x.input == id then multiset(supplied)[x] else 0
  {
    if supplied != [] {
      SelectedCounts(id, supplied[1..], x);
      assert supplied == [supplied[0]] + supplied[1..];
    }
  }

  /** Rearranging what is supplied rearranges what is selected. */
  lemma {:induction false} SelectedPermutes(id: Identity, a: seq<Supplied>, b: seq<Supplied>)
    requires multiset(a) == multiset(b)
    ensures multiset(Selected(id, a)) == multiset(Selected(id, b))
  {
    forall x
      ensures multiset(Selected(id, a))[x] == multiset(Selected(id, b))[x]
    {
      SelectedCounts(id, a, x);
      SelectedCounts(id, b, x);
    }
  }

  // The matching ----------------------------------------------------------------------------------------

  /** The admitted form of the only resource supplied for one expected input. */
  function MatchedOne(id: Identity, supplied: seq<Supplied>): Result<Admitted> {
    var found := Selected(id, supplied);
    if |found| != 1 then
      Err(PackageInputMismatch)
    else
      match Normalized(found[0].path)
      case Err(code) => Err(code)
      case Ok(path) => Ok(Input(id, found[0].resource, path))
  }

  /** In request order, stopping at the first input that cannot be matched. */
  function Matched(expected: seq<Identity>, supplied: seq<Supplied>): (r: Result<seq<Admitted>>)
    ensures r.Ok? ==> |r.value| == |expected|
  {
    if expected == [] then
      Ok([])
    else
      match Matched(expected[..|expected| - 1], supplied)
      case Err(code) => Err(code)
      case Ok(done) =>
        match MatchedOne(expected[|expected| - 1], supplied)
        case Err(code) => Err(code)
        case Ok(one) => Ok(done + [one])
  }

  /** Nothing supplied is left over. */
  predicate AllConsumed(expected: seq<Identity>, supplied: seq<Supplied>) {
    forall k :: 0 <= k < |supplied| ==> supplied[k].input in expected
  }

  predicate DistinctResources(inputs: seq<Admitted>) {
    forall i, j :: 0 <= i < j < |inputs| ==> inputs[i].resource != inputs[j].resource
  }

  /** The input part of `admit`. */
  function InputsAdmitted(expected: seq<Identity>, supplied: seq<Supplied>): Result<seq<Admitted>> {
    if |supplied| != |expected| then
      Err(PackageInputMismatch)
    else
      match Matched(expected, supplied)
      case Err(code) => Err(code)
      case Ok(inputs) =>
        if AllConsumed(expected, supplied) && DistinctResources(inputs) then Ok(inputs) else Err(PackageInputMismatch)
  }

  /** The first input that cannot be matched decides the whole matching. */
  lemma {:induction false} MatchedStops(expected: seq<Identity>, i: nat, supplied: seq<Supplied>)
    requires i <= |expected| && Matched(expected[..i], supplied).Err?
    ensures Matched(expected, supplied) == Err(Matched(expected[..i], supplied).code)
  {
    if i == |expected| {
      assert expected[..i] == expected;
    } else {
      var last := |expected| - 1;
      assert expected[..last][..i] == expected[..i];
      MatchedStops(expected[..last], i, supplied);
    }
  }

  lemma {:induction false} MatchedNext(expected: seq<Identity>, i: nat, supplied: seq<Supplied>)
    requires i < |expected| && Matched(expected[..i], supplied).Ok?
    ensures Matched(expected[..i + 1], supplied) == match MatchedOne(expected[i], supplied)
      case Err(code) => Err(code)
      case Ok(one) => Ok(Matched(expected[..i], supplied).value + [one])
    ensures MatchedOne(expected[i], supplied).Err? ==>
      Matched(expected, supplied) == Err(MatchedOne(expected[i], supplied).code)
  {
    assert expected[..i + 1][..i] == expected[..i];
    if MatchedOne(expected[i], supplied).Err? {
      MatchedStops(expected, i + 1, supplied);
    }
  }

  /** Look through everything supplied for one identity. */
  method FindInput(id: Identity, supplied: seq<Supplied>) returns (r: Result<nat>)
    ensures r.Ok? <==> |Selected(id, supplied)| == 1
    ensures r.Ok? ==>
      r.value < |supplied| && supplied[r.value].input == id && Selected(id, supplied) == [supplied[r.value]]
    ensures r.Err? ==> r.code == PackageInputMismatch
  {
    var found: Option<nat> := None;
    assert supplied[..0] == [];
    for index := 0 to |supplied|
      invariant found.Some? ==> found.value < index && supplied[found.value].input == id
      invariant Selected(id, supplied[..index]) == if found.Some? then [supplied[found.value]] else []
    {
      assert supplied == supplied[..index] + [supplied[index]] + supplied[index + 1..];
      assert supplied[..index + 1] == supplied[..index] + [supplied[index]];
      SelectedInTwo(id, supplied[..index], [supplied[index]]);
      if supplied[index].input == id {
        if found.Some? {
          SelectedInTwo(id, supplied[..index + 1], supplied[index + 1..]);
          assert supplied == supplied[..index + 1] + supplied[index + 1..];
          return Err(PackageInputMismatch);
        }
        found := Some(index);
      }
    }
    assert supplied[..|supplied|] == supplied;
    r := if found.Some? then Ok(found.value) else Err(PackageInputMismatch);
  }

  /** The loops of `admit` over its package inputs. */
  method AdmitInputs(expected: seq<Identity>, supplied: seq<Supplied>) returns (r: Result<seq<Admitted>>)
    ensures r == InputsAdmitted(expected, supplied)
  {
    if |supplied| != |expected| {
      return Err(PackageInputMismatch);
    }
    var consumed := seq(|supplied|, _ => false);
    var inputs: seq<Admitted> := [];
    assert expected[..0] == [];
    for i := 0 to |expected|
      invariant |consumed| == |supplied|
      invariant Matched(expected[..i], supplied) == Ok(inputs)
      invariant forall k :: 0 <= k < |supplied| ==> (consumed[k] <==> supplied[k].input in expected[..i])
    {
      MatchedNext(expected, i, supplied);
      var index :- FindInput(expected[i], supplied);
      var path :- Normalized(supplied[index].path);
      MatchedMore(expected, i, supplied, index);
      consumed := consumed[index := true];
      inputs := inputs + [Input(expected[i], supplied[index].resource, path)];
    }
    assert expected[..|expected|] == expected;
    if exists k :: 0 <= k < |consumed| && !consumed[k] {
      return Err(PackageInputMismatch);
    }
    var apart := ResourcesApart(inputs);
    r := if apart then Ok(inputs) else Err(PackageInputMismatch);
  }

  /** The expected inputs up to the next one account for its resource as well. */
  lemma {:induction false} MatchedMore(expected: seq<Identity>, i: nat, supplied: seq<Supplied>, index: nat)
    requires i < |expected| && index < |supplied| && supplied[index].input == expected[i]
    requires Selected(expected[i], supplied) == [supplied[index]]
    ensures forall k :: 0 <= k < |supplied| ==>
      (supplied[k].input in expected[..i + 1] <==> k == index || supplied[k].input in expected[..i])
  {
    OnlySelected(expected[i], supplied, index);
    assert expected[..i + 1] == expected[..i] + [expected[i]];
  }

  /** Where only one is selected, only it has that identity. */
  lemma {:induction false} OnlySelected(id: Identity, supplied: seq<Supplied>, index: nat)
    requires index < |supplied| && Selected(id, supplied) == [supplied[index]] && supplied[index].input == id
    ensures forall k :: 0 <= k < |supplied| && supplied[k].input == id ==> k == index
  {
    if k :| 0 <= k < |supplied| && supplied[k].input == id && k != index {
      var lo, hi := if k < index then k else index, if k < index then index else k;
      assert supplied == supplied[..lo] + [supplied[lo]] + (supplied[lo + 1..hi] + [supplied[hi]] + supplied[hi + 1..]);
      SelectedInTwo(id, supplied[..lo] + [supplied[lo]], supplied[lo + 1..hi] + [supplied[hi]] + supplied[hi + 1..]);
      SelectedInTwo(id, supplied[..lo], [supplied[lo]]);
      SelectedInTwo(id, supplied[lo + 1..hi] + [supplied[hi]], supplied[hi + 1..]);
      SelectedInTwo(id, supplied[lo + 1..hi], [supplied[hi]]);
      assert false;
    }
  }

  /** Insert every resource into a set, and see whether it was there. */
  method ResourcesApart(inputs: seq<Admitted>) returns (apart: bool)
    ensures apart <==> DistinctResources(inputs)
  {
    var seen: set<Identity> := {};
    for i := 0 to |inputs|
      invariant DistinctResources(inputs[..i])
      invariant forall id :: id in seen <==> exists k :: 0 <= k < i && inputs[k].resource == id
    {
      if inputs[i].resource in seen {
        return false;
      }
      seen := seen + {inputs[i].resource};
    }
    assert inputs[..|inputs|] == inputs;
    apart := true;
  }

  // What the matching means ------------------------------------------------------------------------------

  /** Only what is supplied matters, not the order it is supplied in. */
  lemma {:induction false} OrderDoesNotMatter(expected: seq<Identity>, a: seq<Supplied>, b: seq<Supplied>)
    requires multiset(a) == multiset(b)
    ensures InputsAdmitted(expected, a) == InputsAdmitted(expected, b)
  {
    MatchedPermutes(expected, a, b);
    assert |a| == |multiset(a)| && |b| == |multiset(b)|;
    if AllConsumed(expected, a) {
      ConsumedPermutes(expected, a, b);
    }
    if AllConsumed(expected, b) {
      ConsumedPermutes(expected, b, a);
    }
  }

  lemma {:induction false} MatchedPermutes(expected: seq<Identity>, a: seq<Supplied>, b: seq<Supplied>)
    requires multiset(a) == multiset(b)
    ensures Matched(expected, a) == Matched(expected, b)
  {
    if expected != [] {
      var last := |expected| - 1;
      MatchedPermutes(expected[..last], a, b);
      SelectedPermutes(expected[last], a, b);
      SingletonsAgree(Selected(expected[last], a), Selected(expected[last], b));
    }
  }

  lemma {:induction false} SingletonsAgree(a: seq<Supplied>, b: seq<Supplied>)
    requires multiset(a) == multiset(b)
    ensures |a| == |b| && (|a| == 1 ==> a == b)
  {
    assert |a| == |multiset(a)| && |b| == |multiset(b)|;
    if |a| == 1 {
      assert a[0] in multiset(b);
    }
  }

  lemma {:induction false} ConsumedPermutes(expected: seq<Identity>, a: seq<Supplied>, b: seq<Supplied>)
    requires multiset(a) == multiset(b) && AllConsumed(expected, a)
    ensures AllConsumed(expected, b)
  {
    forall k | 0 <= k < |b|
      ensures b[k].input in expected
    {
      assert b[k] in multiset(b);
      assert b[k] in multiset(a);
    }
  }

  /** What is supplied for any of a set of inputs, in the order supplied. */
  function Among(ids: set<Identity>, supplied: seq<Supplied>): seq<Supplied> {
    if supplied == [] then []
    else (if supplied[0].input in ids then [supplied[0]] else []) + Among(ids, supplied[1..])
  }

  lemma {:induction false} AmongMore(ids: set<Identity>, id: Identity, supplied: seq<Supplied>)
    requires id !in ids
    ensures multiset(Among(ids + {id}, supplied)) == multiset(Among(ids, supplied)) + multiset(Selected(id, supplied))
  {
    if supplied != [] {
      AmongMore(ids, id, supplied[1..]);
    }
  }

  lemma {:induction false} AmongAll(ids: set<Identity>, supplied: seq<Supplied>)
    ensures |Among(ids, supplied)| <= |supplied|
    ensures |Among(ids, supplied)| == |supplied| <==> forall k :: 0 <= k < |supplied| ==> supplied[k].input in ids
    ensures |Among(ids, supplied)| == |supplied| ==> Among(ids, supplied) == supplied
  {
    if supplied != [] {
      AmongAll(ids, supplied[1..]);
      assert supplied == [supplied[0]] + supplied[1..];
      if supplied[0].input in ids {
        assert forall k :: 0 <= k < |supplied| ==>
          supplied[k] == supplied[0] || (k > 0 && supplied[k] == supplied[1..][k - 1]);
        assert forall k :: 0 <= k < |supplied[1..]| ==> supplied[1..][k] == supplied[k + 1];
      }
    }
  }

  function IdsOf(expected: seq<Identity>): set<Identity> {
    if expected == [] then {} else IdsOf(expected[..|expected| - 1]) + {expected[|expected| - 1]}
  }

  lemma {:induction false} IdsAreIn(expected: seq<Identity>, id: Identity)
    ensures id in IdsOf(expected) <==> id in expected
  {
    if expected != [] {
      var last := |expected| - 1;
      IdsAreIn(expected[..last], id);
      assert expected == expected[..last] + [expected[last]];
    }
  }

  predicate Distinct(ids: seq<Identity>) {
    forall i, j :: 0 <= i < j < |ids| ==> ids[i] != ids[j]
  }

  lemma {:induction false} DistinctBySize(ids: seq<Identity>)
    ensures |IdsOf(ids)| <= |ids|
    ensures |IdsOf(ids)| == |ids| <==> Distinct(ids)
  {
    if ids != [] {
      var last := |ids| - 1;
      DistinctBySize(ids[..last]);
      IdsAreIn(ids[..last], ids[last]);
      DistinctMore(ids[..last], ids[last]);
      assert ids == ids[..last] + [ids[last]];
    }
  }

  lemma {:induction false} DistinctMore(ids: seq<Identity>, id: Identity)
    ensures Distinct(ids + [id]) <==> Distinct(ids) && id !in ids
  {
    var more := ids + [id];
    if Distinct(more) {
      forall i | 0 <= i < |ids|
        ensures ids[i] != id
      {
        assert more[i] != more[|ids|];
      }
      forall i, j | 0 <= i < j < |ids|
        ensures ids[i] != ids[j]
      {
        assert more[i] != more[j];
      }
    }
  }

  /** A successful matching matched the inputs before the last, and then the last. */
  lemma {:induction false} MatchedSteps(expected: seq<Identity>, supplied: seq<Supplied>)
    requires expected != [] && Matched(expected, supplied).Ok?
    ensures var last := |expected| - 1;
      && Matched(expected[..last], supplied).Ok?
      && MatchedOne(expected[last], supplied).Ok?
      && |Selected(expected[last], supplied)| == 1
      && Matched(expected, supplied).value ==
           Matched(expected[..last], supplied).value + [MatchedOne(expected[last], supplied).value]
  {
  }

  lemma {:induction false} AmongOneMore(ids: set<Identity>, id: Identity, supplied: seq<Supplied>)
    requires |Selected(id, supplied)| == 1 && |Among(ids, supplied)| == |ids|
    ensures |Among(ids + {id}, supplied)| == |ids + {id}|
  {
    if id in ids {
      assert ids + {id} == ids;
    } else {
      AmongMore(ids, id, supplied);
      SizeOfSum(Among(ids + {id}, supplied), Among(ids, supplied), Selected(id, supplied));
    }
  }

  /** With one resource for each expected input, there is one for each distinct expected input. */
  lemma {:induction false} OneEach(expected: seq<Identity>, supplied: seq<Supplied>)
    requires Matched(expected, supplied).Ok?
    ensures |Among(IdsOf(expected), supplied)| == |IdsOf(expected)|
  {
    if expected == [] {
      AmongNone(supplied);
    } else {
      var last := |expected| - 1;
      MatchedSteps(expected, supplied);
      OneEach(expected[..last], supplied);
      AmongOneMore(IdsOf(expected[..last]), expected[last], supplied);
    }
  }

  lemma {:induction false} AmongNone(supplied: seq<Supplied>)
    ensures Among(IdsOf([]), supplied) == []
  {
    if supplied != [] {
      AmongNone(supplied[1..]);
    }
  }

  lemma {:induction false} SizeOfSum(all: seq<Supplied>, a: seq<Supplied>, b: seq<Supplied>)
    requires multiset(all) == multiset(a) + multiset(b)
    ensures |all| == |a| + |b|
  {
    assert |multiset(all)| == |all| && |multiset(a)| == |a| && |multiset(b)| == |b|;
  }

  /**
   * Once every expected input has exactly one resource, and there are as many resources as inputs,
   * something is left over exactly when the request repeats an input; with distinct inputs the
   * final check can never fire.
   */
  lemma {:induction false} LeftOverExactly(expected: seq<Identity>, supplied: seq<Supplied>)
    requires |supplied| == |expected| && Matched(expected, supplied).Ok?
    ensures AllConsumed(expected, supplied) <==> Distinct(expected)
  {
    OneEach(expected, supplied);
    AmongAll(IdsOf(expected), supplied);
    DistinctBySize(expected);
    forall k | 0 <= k < |supplied|
      ensures supplied[k].input in IdsOf(expected) <==> supplied[k].input in expected
    {
      IdsAreIn(expected, supplied[k].input);
    }
  }

  /** The admitted form of a resource whose path is acceptable. */
  predicate Acceptable(x: Supplied) {
    Normalized(x.path).Ok?
  }

  function Admit(x: Supplied): Admitted
    requires Acceptable(x)
  {
    Input(x.input, x.resource, Normalized(x.path).value)
  }

  /** Each admitted input is the one matched for its place in the request. */
  lemma {:induction false} MatchedAt(expected: seq<Identity>, supplied: seq<Supplied>, i: nat)
    requires Matched(expected, supplied).Ok? && i < |expected|
    ensures MatchedOne(expected[i], supplied) == Ok(Matched(expected, supplied).value[i])
  {
    var last := |expected| - 1;
    MatchedSteps(expected, supplied);
    if i < last {
      MatchedAt(expected[..last], supplied, i);
    }
  }

  /** The only resource supplied for an input, and its admitted form. */
  predicate ChosenFor(id: Identity, supplied: seq<Supplied>, x: Supplied, admitted: Admitted) {
    Selected(id, supplied) == [x] && x.input == id && Acceptable(x) && admitted == Admit(x)
  }

  lemma {:induction false} MatchedOneIs(id: Identity, supplied: seq<Supplied>)
    requires MatchedOne(id, supplied).Ok?
    ensures ChosenFor(id, supplied, Selected(id, supplied)[0], MatchedOne(id, supplied).value)
  {
    SelectedIs(id, supplied);
    assert Selected(id, supplied)[0] in Selected(id, supplied);
  }

  /** The resources in request order, each the only one for its input. */
  lemma {:induction false} MatchedAre(expected: seq<Identity>, supplied: seq<Supplied>) returns (chosen: seq<Supplied>)
    requires Matched(expected, supplied).Ok?
    ensures |chosen| == |expected|
    ensures forall i :: 0 <= i < |expected| ==>
      ChosenFor(expected[i], supplied, chosen[i], Matched(expected, supplied).value[i])
  {
    chosen := [];
    for k := 0 to |expected|
      invariant |chosen| == k
      invariant forall i :: 0 <= i < k ==>
        ChosenFor(expected[i], supplied, chosen[i], Matched(expected, supplied).value[i])
    {
      MatchedAt(expected, supplied, k);
      MatchedOneIs(expected[k], supplied);
      chosen := chosen + [Selected(expected[k], supplied)[0]];
    }
  }

  lemma {:induction false} ChosenAmong(expected: seq<Identity>, supplied: seq<Supplied>, chosen: seq<Supplied>)
    requires |chosen| == |expected| && Distinct(expected)
    requires forall i :: 0 <= i < |expected| ==> Selected(expected[i], supplied) == [chosen[i]]
    ensures multiset(chosen) == multiset(Among(IdsOf(expected), supplied))
  {
    if expected == [] {
      AmongNone(supplied);
    } else {
      var last := |expected| - 1;
      ChosenAmong(expected[..last], supplied, chosen[..last]);
      IdsAreIn(expected[..last], expected[last]);
      AmongMore(IdsOf(expected[..last]), expected[last], supplied);
      assert chosen == chosen[..last] + [chosen[last]];
    }
  }

  /**
   * What is admitted is what was supplied: in request order, a permutation, with each path in its
   * normal form and no two resources alike.
   */
  lemma {:induction false} AdmittedIsPermutation(expected: seq<Identity>, supplied: seq<Supplied>)
    returns (chosen: seq<Supplied>)
    requires InputsAdmitted(expected, supplied).Ok?
    ensures var inputs := InputsAdmitted(expected, supplied).value;
      && |inputs| == |chosen| == |expected|
      && (forall i :: 0 <= i < |inputs| ==>
           Acceptable(chosen[i]) && inputs[i] == Admit(chosen[i]) && inputs[i].input == expected[i])
      && DistinctResources(inputs)
    ensures multiset(chosen) == multiset(supplied)
  {
    chosen := MatchedAre(expected, supplied);
    LeftOverExactly(expected, supplied);
    ChosenAmong(expected, supplied, chosen);
    AmongAll(IdsOf(expected), supplied);
    forall k | 0 <= k < |supplied|
      ensures supplied[k].input in IdsOf(expected)
    {
      IdsAreIn(expected, supplied[k].input);
    }
  }

  // When inputs are admitted ----------------------------------------------------------------------------

  /** As many as expected, each one expected, with a path that has a normal form, no two alike in either identity. */
  predicate Fitting(expected: seq<Identity>, supplied: seq<Supplied>) {
    && |supplied| == |expected|
    && (forall k :: 0 <= k < |supplied| ==> supplied[k].input in expected && Normalized(supplied[k].path).Ok?)
    && (forall i, j :: 0 <= i < j < |supplied| ==> supplied[i].input != supplied[j].input)
    && (forall i, j :: 0 <= i < j < |supplied| ==> supplied[i].resource != supplied[j].resource)
  }

  /** Where identities differ, one resource is all that is selected. */
  lemma {:induction false} SelectedOnly(supplied: seq<Supplied>, k: nat)
    requires k < |supplied| && forall i, j :: 0 <= i < j < |supplied| ==> supplied[i].input != supplied[j].input
    ensures Selected(supplied[k].input, supplied) == [supplied[k]]
  {
    var id := supplied[k].input;
    assert supplied == supplied[..k] + ([supplied[k]] + supplied[k + 1..]);
    SelectedInTwo(id, supplied[..k], [supplied[k]] + supplied[k + 1..]);
    SelectedInTwo(id, [supplied[k]], supplied[k + 1..]);
    SelectedNone(id, supplied[..k]);
    SelectedNone(id, supplied[k + 1..]);
  }

  lemma {:induction false} SelectedNone(id: Identity, supplied: seq<Supplied>)
    requires forall k :: 0 <= k < |supplied| ==> supplied[k].input != id
    ensures Selected(id, supplied) == []
  {
    if supplied != [] {
      SelectedNone(id, supplied[1..]);
    }
  }

  /** As many different identities as places: every expected one is supplied. */
  lemma {:induction false} EveryOneSupplied(expected: seq<Identity>, supplied: seq<Supplied>, i: nat) returns (k: nat)
    requires Fitting(expected, supplied) && i < |expected|
    ensures k < |supplied| && supplied[k].input == expected[i]
  {
    var ids := seq(|supplied|, k requires 0 <= k < |supplied| => supplied[k].input);
    DistinctBySize(ids);
    DistinctBySize(expected);
    forall id | id in IdsOf(ids)
      ensures id in IdsOf(expected)
    {
      IdsAreIn(ids, id);
      IdsAreIn(expected, id);
    }
    SameSize(IdsOf(ids), IdsOf(expected));
    IdsAreIn(ids, expected[i]);
    IdsAreIn(expected, expected[i]);
    k :| 0 <= k < |ids| && ids[k] == expected[i];
  }

  lemma {:induction false} SameSize(a: set<Identity>, b: set<Identity>)
    requires a <= b && |b| <= |a|
    ensures a == b
  {
    assert b == a + (b - a);
    assert |b - a| == 0;
  }

  lemma {:induction false} MatchedIfEach(expected: seq<Identity>, supplied: seq<Supplied>)
    requires forall i :: 0 <= i < |expected| ==> MatchedOne(expected[i], supplied).Ok?
    ensures Matched(expected, supplied).Ok?
  {
    if expected != [] {
      MatchedIfEach(expected[..|expected| - 1], supplied);
    }
  }

  lemma {:induction false} FittingMatches(expected: seq<Identity>, supplied: seq<Supplied>)
    requires Fitting(expected, supplied)
    ensures Matched(expected, supplied).Ok? && DistinctResources(Matched(expected, supplied).value)
  {
    forall i | 0 <= i < |expected|
      ensures MatchedOne(expected[i], supplied).Ok?
    {
      var k := EveryOneSupplied(expected, supplied, i);
      SelectedOnly(supplied, k);
    }
    MatchedIfEach(expected, supplied);
    forall i, j | 0 <= i < j < |expected|
      ensures Matched(expected, supplied).value[i].resource != Matched(expected, supplied).value[j].resource
    {
      var k := EveryOneSupplied(expected, supplied, i);
      var m := EveryOneSupplied(expected, supplied, j);
      SelectedOnly(supplied, k);
      SelectedOnly(supplied, m);
      MatchedAt(expected, supplied, i);
      MatchedAt(expected, supplied, j);
      assert AllConsumed(expected, supplied);
      LeftOverExactly(expected, supplied);
      assert expected[i] != expected[j];
    }
  }

  /** In a successful matching nothing else has the identity, and it stands at its place. */
  lemma {:induction false} AdmittedStands(expected: seq<Identity>, supplied: seq<Supplied>, k: nat) returns (i: nat)
    requires InputsAdmitted(expected, supplied).Ok? && k < |supplied|
    ensures i < |expected| && expected[i] == supplied[k].input
    ensures Acceptable(supplied[k]) && InputsAdmitted(expected, supplied).value[i] == Admit(supplied[k])
    ensures forall j :: 0 <= j < |supplied| && supplied[j].input == supplied[k].input ==> j == k
  {
    assert supplied[k].input in expected;
    i :| 0 <= i < |expected| && expected[i] == supplied[k].input;
    MatchedAt(expected, supplied, i);
    MatchedOneIs(expected[i], supplied);
    SelectedIs(expected[i], supplied);
    assert supplied[k] in Selected(expected[i], supplied);
    OnlySelected(expected[i], supplied, k);
  }

  /** A matching stops for a wrong number of resources, or for a path that has no normal form. */
  lemma {:induction false} WhyUnmatched(expected: seq<Identity>, supplied: seq<Supplied>)
    requires Matched(expected, supplied).Err?
    ensures Matched(expected, supplied).code == PackageInputMismatch ||
      exists k :: 0 <= k < |supplied| && Normalized(supplied[k].path) == Err(Matched(expected, supplied).code)
  {
    var last := |expected| - 1;
    if Matched(expected[..last], supplied).Err? {
      WhyUnmatched(expected[..last], supplied);
    } else {
      var found := Selected(expected[last], supplied);
      SelectedIs(expected[last], supplied);
      if |found| == 1 {
        assert found[0] in supplied;
        var k :| 0 <= k < |supplied| && supplied[k] == found[0];
        assert Normalized(supplied[k].path) == Err(Matched(expected, supplied).code);
      }
    }
  }

  /** Inputs are refused as mismatched, unless some path is at fault. */
  lemma {:induction false} RefusedAs(expected: seq<Identity>, supplied: seq<Supplied>)
    requires InputsAdmitted(expected, supplied).Err?
    ensures InputsAdmitted(expected, supplied).code == PackageInputMismatch ||
      exists k :: 0 <= k < |supplied| && Normalized(supplied[k].path) == Err(InputsAdmitted(expected, supplied).code)
    ensures |supplied| != |expected| ==> InputsAdmitted(expected, supplied).code == PackageInputMismatch
  {
    if Matched(expected, supplied).Err? {
      WhyUnmatched(expected, supplied);
    }
  }

  /** The loops admit exactly the inputs that fit, in whatever order they are supplied. */
  lemma {:induction false} AdmittedExactly(expected: seq<Identity>, supplied: seq<Supplied>)
    ensures InputsAdmitted(expected, supplied).Ok? <==> Fitting(expected, supplied)
  {
    if Fitting(expected, supplied) {
      FittingMatches(expected, supplied);
    }
    if InputsAdmitted(expected, supplied).Ok? {
      forall k | 0 <= k < |supplied|
        ensures supplied[k].input in expected && Normalized(supplied[k].path).Ok?
      {
        var i := AdmittedStands(expected, supplied, k);
      }
      forall i, j | 0 <= i < j < |supplied|
        ensures supplied[i].input != supplied[j].input && supplied[i].resource != supplied[j].resource
      {
        var a := AdmittedStands(expected, supplied, i);
        var b := AdmittedStands(expected, supplied, j);
        var inputs := InputsAdmitted(expected, supplied).value;
        assert inputs[a].resource == supplied[i].resource && inputs[b].resource == supplied[j].resource;
      }
    }
  }
}
