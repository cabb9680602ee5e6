/** The row that shows one selected relative type: a count stepper guarded
    by the limit table, and a remove button (components/HeirInputRow.tsx). */
module HeirInputRow {

  import opened Options
  import opened HeirTypes

  /** The plus button: emits the next count only while below the limit. */
  function HandleIncrement(t: HeirType, count: int): (emitted: Option<int>)
    ensures emitted.Some? <==> count < Limit(t)
    ensures emitted.Some? ==> emitted.value > count && emitted.value <= Limit(t)
    ensures emitted.Some? ==> emitted.value - count == 1
  {
    if count < Limit(t) then Some(count + 1) else None
  }

  /** The minus button: emits the previous count only while above one. */
  function HandleDecrement(count: int): (emitted: Option<int>)
    ensures emitted.Some? <==> count > 1
    ensures emitted.Some? ==> 1 <= emitted.value < count
    ensures emitted.Some? ==> count - emitted.value == 1
  {
    if count > 1 then Some(count - 1) else None
  }

  /** The stepper is rendered only for types that allow more than one relative. */
  predicate StepperShown(t: HeirType) {
    Limit(t) > 1
  }

  /** The rendered minus button is greyed out at a count of one or less. */
  predicate DecrementDisabled(count: int) {
    count <= 1
  }

  /** The rendered plus button is greyed out at or above the limit. */
  predicate IncrementDisabled(t: HeirType, count: int) {
    count >= Limit(t)
  }

  /** A greyed-out button is exactly one whose handler would emit nothing. */
  lemma DisabledButtonsEmitNothing(t: HeirType, count: int)
    ensures IncrementDisabled(t, count) <==> HandleIncrement(t, count).None?
    ensures DecrementDisabled(count) <==> HandleDecrement(count).None?
  {
  }

  /** A count within `[1, limit]` stays within it after either button. */
  lemma SteppingKeepsBounds(t: HeirType, count: int)
    requires 1 <= count <= Limit(t)
    ensures HandleIncrement(t, count).Some? ==> 1 <= HandleIncrement(t, count).value <= Limit(t)
    ensures HandleDecrement(count).Some? ==> 1 <= HandleDecrement(count).value <= Limit(t)
  {
  }

  /** Below the limit, plus then minus gives back the original count. */
  lemma IncrementThenDecrement(t: HeirType, count: int)
    requires 1 <= count < Limit(t)
    ensures HandleIncrement(t, count).Some?
    ensures HandleDecrement(HandleIncrement(t, count).value) == Some(count)
  {
  }

  /** Above one and within the limit, minus then plus gives back the count. */
  lemma DecrementThenIncrement(t: HeirType, count: int)
    requires 1 < count <= Limit(t)
    ensures HandleDecrement(count).Some?
    ensures HandleIncrement(t, HandleDecrement(count).value) == Some(count)
  {
  }

  /** The stepper is hidden for exactly the husband and the five ascendant
      types, the types whose limit is one. */
  lemma StepperHiddenForSingletons(t: HeirType)
    ensures !StepperShown(t) <==> Limit(t) == 1
    ensures !StepperShown(t) <==> t == Husband || IsAscendant(t)
  {
  }

}
