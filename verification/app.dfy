/** The heir selection kept by the application component: an ordered list of
    `{type, count}` entries, the three handlers that change it, the two
    predicates the button grid reads, and the checks run before a
    calculation is submitted (App.tsx). */
module App {

  import opened Options
  import opened HeirTypes

  /** The selection, in the order the entries were added. */
  type Selection = seq<HeirInput>

  /** Some entry of the selection has type `t`. */
  predicate IsHeirSelected(s: Selection, t: HeirType) {
    exists i | 0 <= i < |s| :: s[i].heirType == t
  }

  /** The lookup `addHeir` performs: the first entry of type `t`, reported
      by its position in the selection. */
  function Find(s: Selection, t: HeirType): (r: Option<nat>)
    ensures r.Some? <==> IsHeirSelected(s, t)
    ensures r.Some? ==> r.value < |s| && s[r.value].heirType == t
    ensures r.Some? ==> forall j | 0 <= j < r.value :: s[j].heirType != t
  {
    if |s| == 0 then None
    else if s[0].heirType == t then Some(0)
    else
      match Find(s[1..], t)
      case None =>
        assert forall i | 1 <= i < |s| :: s[i] == s[1..][i - 1];
        None
      case Some(k) => Some(k + 1)
  }

  /** The count on the row of type `t`, if there is one. */
  function CountOf(s: Selection, t: HeirType): Option<int>
  {
    match Find(s, t)
    case None => None
    case Some(i) => Some(s[i].count)
  }

  // Invariants the handlers promise to keep.

  /** No relative type is listed twice. */
  predicate TypesDistinct(s: Selection) {
    forall i, j | 0 <= i < j < |s| :: s[i].heirType != s[j].heirType
  }

  /** A husband and a wife are never selected together. */
  predicate NoSpouseClash(s: Selection) {
    !(IsHeirSelected(s, Husband) && IsHeirSelected(s, Wife))
  }

  /** Every count lies between one and its type's limit. */
  predicate CountsWithinLimits(s: Selection) {
    forall i | 0 <= i < |s| :: 1 <= s[i].count <= Limit(s[i].heirType)
  }

  predicate Valid(s: Selection) {
    TypesDistinct(s) && NoSpouseClash(s) && CountsWithinLimits(s)
  }

  /** The spouse a selected `t` excludes, when `t` is a spouse. */
  predicate SpouseConflict(s: Selection, t: HeirType) {
    || (t == Husband && IsHeirSelected(s, Wife))
    || (t == Wife && IsHeirSelected(s, Husband))
  }

  // The handlers.

  /** `addHeir`: an already selected type, or a spouse while the other spouse
      is selected, leaves the list as it is (the conflict path only raises an
      alert); any other type is appended with a count of one. */
  function AddHeir(s: Selection, t: HeirType): (r: Selection)
    ensures IsHeirSelected(s, t) ==> r == s
    ensures SpouseConflict(s, t) ==> r == s
    ensures !IsHeirSelected(s, t) && !SpouseConflict(s, t) ==> r == s + [HeirInput(t, 1)]
    ensures r != s ==> |r| == |s| + 1 && r[..|s|] == s && r[|s|] == HeirInput(t, 1)
  {
    if Find(s, t).Some? || SpouseConflict(s, t) then s
    else s + [HeirInput(t, 1)]
  }

  /** The entry-wise step of `updateHeirCount`: replace the count of an entry
      of type `t`, keep any other entry. */
  function SetCountIfType(h: HeirInput, t: HeirType, count: int): HeirInput
  {
    if h.heirType == t then h.(count := count) else h
  }

  /** `updateHeirCount`: every entry of type `t` gets the new count; length,
      order, types and the other entries are untouched. */
  function UpdateHeirCount(s: Selection, t: HeirType, count: int): (r: Selection)
    ensures |r| == |s|
    ensures forall i | 0 <= i < |s| :: r[i].heirType == s[i].heirType
    ensures forall i | 0 <= i < |s| :: s[i].heirType != t ==> r[i] == s[i]
    ensures forall i | 0 <= i < |s| :: s[i].heirType == t ==> r[i].count == count
  {
    seq(|s|, i requires 0 <= i < |s| => SetCountIfType(s[i], t, count))
  }

  /** `removeHeir`: every entry of type `t` is dropped, the others are kept in
      their order. */
  function RemoveHeir(s: Selection, t: HeirType): (r: Selection)
    ensures |r| <= |s|
    ensures !IsHeirSelected(r, t)
    ensures forall h :: h in r <==> h in s && h.heirType != t
  {
    if |s| == 0 then []
    else if s[0].heirType != t then [s[0]] + RemoveHeir(s[1..], t)
    else RemoveHeir(s[1..], t)
  }

  /** `isHeirDisabled`: the grid button of `t` is greyed out. */
  predicate IsHeirDisabled(s: Selection, t: HeirType) {
    IsHeirSelected(s, t) || SpouseConflict(s, t)
  }

  // Facts about lookups.

  /** A type is selected in a non-empty list exactly when it heads the list
      or is selected in the rest. */
  lemma SelectedCons(s: Selection, t: HeirType)
    requires |s| > 0
    ensures IsHeirSelected(s, t) <==> s[0].heirType == t || IsHeirSelected(s[1..], t)
  {
    if IsHeirSelected(s, t) && s[0].heirType != t {
      var i :| 0 <= i < |s| && s[i].heirType == t;
      assert s[1..][i - 1] == s[i];
    }
    if IsHeirSelected(s[1..], t) {
      var i :| 0 <= i < |s[1..]| && s[1..][i].heirType == t;
      assert s[i + 1] == s[1..][i];
    }
  }

  /** The rest of a list with distinct types has distinct types and does not
      hold the head's type. */
  lemma DistinctTail(s: Selection)
    requires TypesDistinct(s)
    requires |s| > 0
    ensures TypesDistinct(s[1..])
    ensures !IsHeirSelected(s[1..], s[0].heirType)
  {
    forall a, b | 0 <= a < b < |s[1..]| ensures s[1..][a].heirType != s[1..][b].heirType {
      assert s[1..][a] == s[a + 1] && s[1..][b] == s[b + 1];
    }
    forall k | 0 <= k < |s[1..]| ensures s[1..][k].heirType != s[0].heirType {
      assert s[1..][k] == s[k + 1];
    }
  }

  /** With distinct types, the entry at any position is the one `Find` reports. */
  lemma FindDistinct(s: Selection, i: nat)
    requires TypesDistinct(s)
    requires i < |s|
    ensures Find(s, s[i].heirType) == Some(i)
    ensures CountOf(s, s[i].heirType) == Some(s[i].count)
  {
  }

  /** In a valid selection, the row of a selected type shows a count
      between one and that type's limit. */
  lemma ValidCountInRange(s: Selection, t: HeirType)
    requires Valid(s)
    requires IsHeirSelected(s, t)
    ensures 1 <= CountOf(s, t).value <= Limit(t)
  {
    var i := Find(s, t).value;
    assert s[i].heirType == t;
    assert 1 <= s[i].count <= Limit(s[i].heirType) by { assert CountsWithinLimits(s); }
  }

  // Properties of adding.

  /** Adding changes the list exactly when the grid button is not greyed out. */
  lemma AddHeirChangesIffEnabled(s: Selection, t: HeirType)
    ensures AddHeir(s, t) != s <==> !IsHeirDisabled(s, t)
    ensures !IsHeirDisabled(s, t) ==> AddHeir(s, t) == s + [HeirInput(t, 1)]
  {
    if !IsHeirDisabled(s, t) {
      assert |AddHeir(s, t)| == |s| + 1;
    }
  }

  /** In a valid selection the button is greyed out exactly when appending the
      type with a count of one would break distinctness or spouse exclusion. */
  lemma DisabledIffAppendBreaksInvariant(s: Selection, t: HeirType)
    requires Valid(s)
    ensures IsHeirDisabled(s, t) <==> !Valid(s + [HeirInput(t, 1)])
  {
    var s' := s + [HeirInput(t, 1)];
    HeirLimitsTotal(t);
    if IsHeirSelected(s, t) {
      var i :| 0 <= i < |s| && s[i].heirType == t;
      assert s'[i].heirType == s'[|s|].heirType;
    } else if t == Husband && IsHeirSelected(s, Wife) {
      var i :| 0 <= i < |s| && s[i].heirType == Wife;
      assert s'[i].heirType == Wife && s'[|s|].heirType == Husband;
    } else if t == Wife && IsHeirSelected(s, Husband) {
      var i :| 0 <= i < |s| && s[i].heirType == Husband;
      assert s'[i].heirType == Husband && s'[|s|].heirType == Wife;
    } else {
      AppendPreservesValid(s, t);
    }
  }

  /** Appending a type that is neither selected nor in spouse conflict keeps
      the selection valid. */
  lemma AppendPreservesValid(s: Selection, t: HeirType)
    requires Valid(s)
    requires !IsHeirSelected(s, t) && !SpouseConflict(s, t)
    ensures Valid(s + [HeirInput(t, 1)])
  {
    var s' := s + [HeirInput(t, 1)];
    assert forall i | 0 <= i < |s| :: s'[i] == s[i];
    forall u | IsHeirSelected(s', u)
      ensures IsHeirSelected(s, u) || u == t
    {
      var i :| 0 <= i < |s'| && s'[i].heirType == u;
      if i < |s| {
        assert s[i].heirType == u;
      }
    }
    HeirLimitsTotal(t);
  }

  /** Adding keeps every invariant. */
  lemma AddHeirPreservesValid(s: Selection, t: HeirType)
    requires Valid(s)
    ensures Valid(AddHeir(s, t))
  {
    if !IsHeirSelected(s, t) && !SpouseConflict(s, t) {
      AppendPreservesValid(s, t);
    }
  }

  // Properties of updating a count.

  /** After the update the row of `t`, if any, shows the new count, and every
      other type's presence and count are unchanged. */
  lemma UpdateHeirCountLookup(s: Selection, t: HeirType, count: int, u: HeirType)
    ensures IsHeirSelected(UpdateHeirCount(s, t, count), u) <==> IsHeirSelected(s, u)
    ensures u == t ==> CountOf(UpdateHeirCount(s, t, count), u) == (if IsHeirSelected(s, t) then Some(count) else None)
    ensures u != t ==> CountOf(UpdateHeirCount(s, t, count), u) == CountOf(s, u)
  {
    var r := UpdateHeirCount(s, t, count);
    SameTypesSameFind(s, r, u);
    if Find(s, u).Some? {
      var i := Find(s, u).value;
      assert CountOf(r, u) == Some(r[i].count);
    }
  }

  /** Two lists with the same types position by position find a type at the
      same position. */
  lemma {:induction false} SameTypesSameFind(s: Selection, r: Selection, u: HeirType)
    requires |r| == |s|
    requires forall i | 0 <= i < |s| :: r[i].heirType == s[i].heirType
    ensures Find(r, u) == Find(s, u)
  {
    if |s| > 0 && s[0].heirType != u {
      SameTypesSameFind(s[1..], r[1..], u);
    }
  }

  /** Updating an absent type is a no-op. */
  lemma UpdateAbsentIsNoOp(s: Selection, t: HeirType, count: int)
    requires !IsHeirSelected(s, t)
    ensures UpdateHeirCount(s, t, count) == s
  {
    var r := UpdateHeirCount(s, t, count);
    assert forall i | 0 <= i < |s| :: r[i] == s[i];
  }

  /** Setting a type's entries to the count they already have is a no-op. */
  lemma UpdateToSameCountIsNoOp(s: Selection, t: HeirType, count: int)
    requires forall i | 0 <= i < |s| :: s[i].heirType == t ==> s[i].count == count
    ensures UpdateHeirCount(s, t, count) == s
  {
    var r := UpdateHeirCount(s, t, count);
    assert forall i | 0 <= i < |s| :: r[i] == s[i];
  }

  /** Two updates of the same type: the second one wins. */
  lemma UpdateTwice(s: Selection, t: HeirType, first: int, second: int)
    ensures UpdateHeirCount(UpdateHeirCount(s, t, first), t, second) == UpdateHeirCount(s, t, second)
  {
    var a := UpdateHeirCount(UpdateHeirCount(s, t, first), t, second);
    var b := UpdateHeirCount(s, t, second);
    assert forall k | 0 <= k < |s| :: a[k] == b[k];
  }

  /** With distinct types, overwriting the count of the entry at `i` and
      then writing its old count back restores the selection. */
  lemma UpdateThenRestore(s: Selection, i: nat, count: int)
    requires TypesDistinct(s)
    requires i < |s|
    ensures UpdateHeirCount(UpdateHeirCount(s, s[i].heirType, count), s[i].heirType, s[i].count) == s
  {
    var t := s[i].heirType;
    forall k | 0 <= k < |s| && s[k].heirType == t
      ensures s[k].count == s[i].count
    {
      assert k == i;
    }
    UpdateTwice(s, t, count, s[i].count);
    UpdateToSameCountIsNoOp(s, t, s[i].count);
  }

  /** Updating never breaks distinctness or spouse exclusion, and keeps the
      counts in range when the new count is in range. */
  lemma UpdateHeirCountPreservesValid(s: Selection, t: HeirType, count: int)
    requires Valid(s)
    requires IsHeirSelected(s, t) ==> 1 <= count <= Limit(t)
    ensures Valid(UpdateHeirCount(s, t, count))
  {
    var r := UpdateHeirCount(s, t, count);
    UpdateHeirCountLookup(s, t, count, Husband);
    UpdateHeirCountLookup(s, t, count, Wife);
    forall i | 0 <= i < |r| && r[i].heirType == t
      ensures IsHeirSelected(s, t)
    {
      assert s[i].heirType == t;
    }
  }

  // Properties of removing.

  /** Removing an absent type is a no-op. */
  lemma {:induction false} RemoveAbsentIsNoOp(s: Selection, t: HeirType)
    requires !IsHeirSelected(s, t)
    ensures RemoveHeir(s, t) == s
  {
    if |s| > 0 {
      SelectedCons(s, t);
      RemoveAbsentIsNoOp(s[1..], t);
      assert s == [s[0]] + s[1..];
    }
  }

  /** With distinct types, removing `t` cuts out exactly its one entry and
      keeps the entries before and after it in order. */
  lemma {:induction false} RemoveCutsOneEntry(s: Selection, i: nat)
    requires TypesDistinct(s)
    requires i < |s|
    ensures RemoveHeir(s, s[i].heirType) == s[..i] + s[i + 1..]
  {
    DistinctTail(s);
    if i == 0 {
      RemoveAbsentIsNoOp(s[1..], s[0].heirType);
    } else {
      var t := s[i].heirType;
      assert s[0].heirType != t;
      assert s[1..][i - 1] == s[i];
      RemoveCutsOneEntry(s[1..], i - 1);
      assert s[1..][..i - 1] + s[1..][i..] == s[1..i] + s[i + 1..];
      assert [s[0]] + s[1..i] == s[..i];
    }
  }

  /** Removing from a one-entry list keeps the entry exactly when its type
      differs. */
  lemma RemoveHeirSingleton(h: HeirInput, t: HeirType)
    ensures RemoveHeir([h], t) == if h.heirType == t then [] else [h]
  {
    assert [h][1..] == [];
  }

  /** Removing distributes over concatenation: each part is filtered on its
      own and the parts stay in order. With `RemoveHeirSingleton` this fixes
      the result on every list, repeated types included. */
  lemma {:induction false} RemoveHeirAppend(a: Selection, b: Selection, t: HeirType)
    ensures RemoveHeir(a + b, t) == RemoveHeir(a, t) + RemoveHeir(b, t)
  {
    if |a| > 0 {
      assert (a + b)[0] == a[0];
      assert (a + b)[1..] == a[1..] + b;
      RemoveHeirAppend(a[1..], b, t);
    } else {
      assert a + b == b;
    }
  }

  /** Removing keeps every invariant. */
  lemma RemoveHeirPreservesValid(s: Selection, t: HeirType)
    requires Valid(s)
    ensures Valid(RemoveHeir(s, t))
  {
    if IsHeirSelected(s, t) {
      var i :| 0 <= i < |s| && s[i].heirType == t;
      RemoveCutsOneEntry(s, i);
      CutPreservesValid(s, i);
    } else {
      RemoveAbsentIsNoOp(s, t);
    }
  }

  /** Cutting one entry out of a valid selection leaves a valid selection. */
  lemma CutPreservesValid(s: Selection, i: nat)
    requires Valid(s)
    requires i < |s|
    ensures Valid(s[..i] + s[i + 1..])
  {
    CutEntries(s, i);
    var r := s[..i] + s[i + 1..];
    forall u | IsHeirSelected(r, u) ensures IsHeirSelected(s, u) {
      var k :| 0 <= k < |r| && r[k].heirType == u;
      assert r[k] == s[if k < i then k else k + 1];
    }
  }

  /** Cutting position `i` keeps distinctness and count bounds: the entries
      left are the old ones, shifted down by one from `i` on. */
  lemma CutEntries(s: Selection, i: nat)
    requires i < |s|
    ensures TypesDistinct(s) ==> TypesDistinct(s[..i] + s[i + 1..])
    ensures CountsWithinLimits(s) ==> CountsWithinLimits(s[..i] + s[i + 1..])
  {
    var r := s[..i] + s[i + 1..];
    forall k | 0 <= k < |r| ensures r[k] == s[if k < i then k else k + 1] {
    }
  }

  /** Removing what was just added restores the list: adding a type that is
      not selected and then removing it gives back the original selection,
      whether or not the add went through. */
  lemma AddThenRemove(s: Selection, t: HeirType)
    requires !IsHeirSelected(s, t)
    ensures RemoveHeir(AddHeir(s, t), t) == s
  {
    RemoveAbsentIsNoOp(s, t);
    if !SpouseConflict(s, t) {
      RemoveAppended(s, t);
    }
  }

  /** Removing `t` from a list that ends with a `t` entry, and has none before,
      drops that last entry. */
  lemma {:induction false} RemoveAppended(s: Selection, t: HeirType)
    requires !IsHeirSelected(s, t)
    ensures RemoveHeir(s + [HeirInput(t, 1)], t) == s
  {
    var s' := s + [HeirInput(t, 1)];
    if |s| == 0 {
      assert s'[1..] == [];
    } else {
      SelectedCons(s, t);
      assert s'[0] == s[0];
      assert s'[1..] == s[1..] + [HeirInput(t, 1)];
      RemoveAppended(s[1..], t);
      assert s == [s[0]] + s[1..];
    }
  }

  // Submitting a calculation.

  /** The estate field after `parseFloat`: not a number, or a number. The
      parsing itself is not modelled. */
  datatype ParsedEstate = NotANumber | Number(value: real)

  /** What pressing Calculate leads to: one of the two form errors, or a
      request handed to the calculation service. */
  datatype CalculateOutcome =
    | EstateError
    | HeirError
    | Submit(estate: real, heirs: Selection)

  predicate EstateAcceptable(e: ParsedEstate) {
    e.Number? && e.value > 0.0
  }

  /** `handleCalculate` up to the service call: the estate is checked first,
      then that at least one heir is selected. */
  function HandleCalculate(e: ParsedEstate, s: Selection): (r: CalculateOutcome)
    ensures r.EstateError? <==> !EstateAcceptable(e)
    ensures r.HeirError? <==> EstateAcceptable(e) && |s| == 0
    ensures r.Submit? <==> EstateAcceptable(e) && |s| > 0
    ensures r.Submit? ==> r.estate == e.value && r.estate > 0.0 && r.heirs == s
  {
    if e.NotANumber? || e.value <= 0.0 then EstateError
    else if |s| == 0 then HeirError
    else Submit(e.value, s)
  }

}
