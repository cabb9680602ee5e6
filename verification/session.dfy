/** The heir panel as the user drives it: the grid of type buttons and, for
    every selected entry, a row with a stepper and a remove button, all
    feeding the selection handlers (App.tsx rendering of the rows and the
    grid; components/HeirInputRow.tsx for the row). */
module Session {

  import opened Options
  import opened HeirTypes
  import opened App
  import HeirInputRow

  /** One user gesture on the heir panel. The grid buttons are named by
      their type; the plus, minus and remove buttons by the position of the
      row, since one row is rendered per entry of the selection and its
      callbacks read that entry's type and count. */
  datatype Action =
    | ClickGridButton(t: HeirType)
    | PressPlus(row: nat)
    | PressMinus(row: nat)
    | PressRemove(row: nat)

  /** The row's `onUpdate` callback: a count the stepper emits is written
      with `updateHeirCount`; no emission changes nothing. */
  function ApplyEmitted(s: Selection, t: HeirType, emitted: Option<int>): Selection
  {
    match emitted
    case None => s
    case Some(c) => UpdateHeirCount(s, t, c)
  }

  /** A click on the grid button of `t`: `addHeir` runs only when the button
      is not greyed out. */
  function ClickGrid(s: Selection, t: HeirType): Selection
  {
    if IsHeirDisabled(s, t) then s else AddHeir(s, t)
  }

  /** Plus on the row of entry `i`; nothing happens when there is no such
      row or its stepper is not rendered. */
  function Plus(s: Selection, i: nat): Selection
  {
    if i < |s| && HeirInputRow.StepperShown(s[i].heirType) then
      ApplyEmitted(s, s[i].heirType, HeirInputRow.HandleIncrement(s[i].heirType, s[i].count))
    else s
  }

  /** Minus on the row of entry `i`; nothing happens when there is no such
      row or its stepper is not rendered. */
  function Minus(s: Selection, i: nat): Selection
  {
    if i < |s| && HeirInputRow.StepperShown(s[i].heirType) then
      ApplyEmitted(s, s[i].heirType, HeirInputRow.HandleDecrement(s[i].count))
    else s
  }

  /** The remove button on the row of entry `i`; it removes that entry's
      type. Nothing happens without such a row. */
  function PressRemoveRow(s: Selection, i: nat): Selection
  {
    if i < |s| then RemoveHeir(s, s[i].heirType) else s
  }

  /** The selection after one gesture. */
  function Step(s: Selection, a: Action): Selection
  {
    match a
    case ClickGridButton(t) => ClickGrid(s, t)
    case PressPlus(i) => Plus(s, i)
    case PressMinus(i) => Minus(s, i)
    case PressRemove(i) => PressRemoveRow(s, i)
  }

  /** The selection after a sequence of gestures, first gesture first. */
  function Run(s: Selection, actions: seq<Action>): Selection
    decreases |actions|
  {
    if |actions| == 0 then s else Run(Step(s, actions[0]), actions[1..])
  }

  /** The greyed-out guard on a grid button is redundant: clicking it has
      exactly the effect of `addHeir`. */
  lemma GridClickIsAddHeir(s: Selection, t: HeirType)
    ensures Step(s, ClickGridButton(t)) == AddHeir(s, t)
  {
    AddHeirChangesIffEnabled(s, t);
  }

  /** Writing a count the stepper of row `i` emits keeps a valid selection
      valid. */
  lemma SteppedCountWithinLimit(s: Selection, i: nat, emitted: Option<int>)
    requires Valid(s)
    requires i < |s|
    requires || emitted == HeirInputRow.HandleIncrement(s[i].heirType, s[i].count)
             || emitted == HeirInputRow.HandleDecrement(s[i].count)
    ensures Valid(ApplyEmitted(s, s[i].heirType, emitted))
  {
    assert 1 <= s[i].count <= Limit(s[i].heirType);
    if emitted.Some? {
      UpdateHeirCountPreservesValid(s, s[i].heirType, emitted.value);
    }
  }

  /** Every gesture keeps the selection valid: distinct types, no husband
      beside a wife, counts within limits. */
  lemma StepPreservesValid(s: Selection, a: Action)
    requires Valid(s)
    ensures Valid(Step(s, a))
  {
    match a
    case ClickGridButton(t) =>
      AddHeirPreservesValid(s, t);
    case PressPlus(i) =>
      if i < |s| {
        SteppedCountWithinLimit(s, i, HeirInputRow.HandleIncrement(s[i].heirType, s[i].count));
      }
    case PressMinus(i) =>
      if i < |s| {
        SteppedCountWithinLimit(s, i, HeirInputRow.HandleDecrement(s[i].count));
      }
    case PressRemove(i) =>
      if i < |s| {
        RemoveHeirPreservesValid(s, s[i].heirType);
      }
  }

  /** Any sequence of gestures from a valid selection ends in a valid one. */
  lemma {:induction false} RunPreservesValid(s: Selection, actions: seq<Action>)
    requires Valid(s)
    ensures Valid(Run(s, actions))
    decreases |actions|
  {
    if |actions| > 0 {
      StepPreservesValid(s, actions[0]);
      RunPreservesValid(Step(s, actions[0]), actions[1..]);
    }
  }

  /** Starting from the empty selection the panel shows on load, every
      reachable selection is valid, and every type whose limit is one is
      listed with a count of exactly one. */
  lemma ReachableFromEmpty(actions: seq<Action>, t: HeirType)
    ensures Valid(Run([], actions))
    ensures Limit(t) == 1 && IsHeirSelected(Run([], actions), t) ==> CountOf(Run([], actions), t) == Some(1)
  {
    RunPreservesValid([], actions);
    SingletonCountIsOne(Run([], actions), t);
  }

  /** In a valid selection a type whose limit is one has count one. */
  lemma SingletonCountIsOne(s: Selection, t: HeirType)
    requires Valid(s)
    ensures Limit(t) == 1 && IsHeirSelected(s, t) ==> CountOf(s, t) == Some(1)
  {
    if Limit(t) == 1 && IsHeirSelected(s, t) {
      ValidCountInRange(s, t);
    }
  }

  /** A request that the Calculate button sends after any sequence of
      gestures from the empty selection has a positive estate and a
      non-empty list of distinct types, with no husband beside a wife and
      every count within its type's limit; the submit path itself checks
      none of this but the estate and the list's length. */
  lemma SubmittedFromPanelWellFormed(e: ParsedEstate, actions: seq<Action>)
    requires HandleCalculate(e, Run([], actions)).Submit?
    ensures HandleCalculate(e, Run([], actions)).estate > 0.0
    ensures |HandleCalculate(e, Run([], actions)).heirs| > 0
    ensures Valid(HandleCalculate(e, Run([], actions)).heirs)
  {
    ReachableFromEmpty(actions, Husband);
  }

  /** A row without a rendered stepper ignores plus and minus. */
  lemma HiddenStepperIgnoresPresses(s: Selection, i: nat)
    requires i < |s| ==> Limit(s[i].heirType) == 1
    ensures Step(s, PressPlus(i)) == s
    ensures Step(s, PressMinus(i)) == s
  {
  }

  /** Below the limit, plus then minus on a row gives back the selection. */
  lemma PlusThenMinus(s: Selection, i: nat)
    requires TypesDistinct(s)
    requires i < |s|
    requires 1 <= s[i].count < Limit(s[i].heirType)
    ensures Step(Step(s, PressPlus(i)), PressMinus(i)) == s
  {
    var t, c := s[i].heirType, s[i].count;
    var raised := UpdateHeirCount(s, t, c + 1);
    assert Step(s, PressPlus(i)) == raised by {
      assert HeirInputRow.HandleIncrement(t, c) == Some(c + 1);
    }
    assert Step(raised, PressMinus(i)) == UpdateHeirCount(raised, t, c) by {
      assert raised[i] == HeirInput(t, c + 1);
      assert HeirInputRow.HandleDecrement(c + 1) == Some(c);
    }
    UpdateThenRestore(s, i, c + 1);
  }

  /** Pressing remove on a row of a valid selection drops exactly that entry
      and leaves the rest in order. */
  lemma PressRemoveDropsRow(s: Selection, i: nat)
    requires Valid(s)
    requires i < |s|
    ensures Step(s, PressRemove(i)) == s[..i] + s[i + 1..]
    ensures !IsHeirSelected(Step(s, PressRemove(i)), s[i].heirType)
  {
    RemoveCutsOneEntry(s, i);
  }

}
