# Heir selection panel of an inheritance calculator, in Dafny

The calculator is a browser form. The user enters an estate value and picks
relatives from a fixed list of fifteen heir types. Each picked type has a
head count. The form then hands the estate and the list to an external
language-model service, and that service computes every share. The
repository itself holds no share, exclusion, 'Awl or Radd logic, so this
model contains none.

What the repository does decide deterministically is the heir selection,
and that is what is modelled here:

- `HeirTypes` (types.ts): the fifteen-member `HeirType` enumeration and the
  strings it stands for. It also holds the `HeirInput` record
  `{type, count}` and the `HEIR_LIMITS` table of maximum head counts.
- `HeirInputRow` (components/HeirInputRow.tsx): the count stepper on each
  selected row. Plus is guarded by the type's limit and minus by a floor
  of one. The stepper is rendered only for types whose limit exceeds one.
- `App` (App.tsx): the selection as an ordered `seq<HeirInput>`. It has the
  `addHeir`, `updateHeirCount` and `removeHeir` handlers, the
  `isHeirSelected` and `isHeirDisabled` predicates, and the checks that
  `handleCalculate` runs before it calls the service. Each handler is a
  pure function from the old list to the new one. The alert path of
  `addHeir` returns the list unchanged.
- `Session` (App.tsx rendering, components/HeirInputRow.tsx): the panel as
  a user drives it. There is one grid button per type and, for each entry,
  a row with a stepper and a remove button. A row's buttons are addressed
  by the row's position, because each rendered row reads the type and the
  count of its own entry. Sequences of gestures are replayed from the
  empty selection the panel starts with.

The selection invariant `App.Valid` has three parts:

- types are pairwise distinct;
- a husband and a wife are never both selected;
- every count lies in `[1, limit]`.

Adding and removing preserve it. Updating a count preserves it when the new
count is within the type's limit, which is the only kind of count the
stepper emits. So every panel gesture preserves it.

## Model

| member | source | states |
|---|---|---|
| HeirTypes.ValueInjective | types.ts:1-17 | Distinct enumeration members carry distinct strings, so the string keys of the limit table and of the rendered rows never collide |
| HeirTypes.AvailableHeirsComplete | App.tsx:10 | The grid lists the fifteen members in declaration order, each exactly once |
| HeirTypes.HeirLimitsTotal | types.ts:40-56 | The limit table has an entry for every heir type, and every entry is at least 1 |
| HeirTypes.LimitIsTable | types.ts:40-56 | The limit used throughout is the table's entry for the type |
| HeirTypes.Limit | types.ts:40-56 | The limit is at least 1. It is 1 exactly for the husband and the five ascendants (father, mother, both grandmothers, paternal grandfather), 4 exactly for the wife, and 20 exactly for the two descendant and six sibling types |
| HeirInputRow.HandleIncrement | components/HeirInputRow.tsx:18-20 | Plus emits a count exactly when the count is below the limit; the emitted count is one more and does not exceed the limit |
| HeirInputRow.HandleDecrement | components/HeirInputRow.tsx:22-24 | Minus emits a count exactly when the count exceeds one; the emitted count is one less and at least 1 |
| HeirInputRow.DisabledButtonsEmitNothing | components/HeirInputRow.tsx:39-53 | A greyed-out plus or minus button is exactly one whose handler would emit nothing |
| HeirInputRow.SteppingKeepsBounds | components/HeirInputRow.tsx:15-24 | A count in `[1, limit]` is still in `[1, limit]` after plus or minus |
| HeirInputRow.IncrementThenDecrement | components/HeirInputRow.tsx:18-24 | For a count of at least 1 and below the limit, plus followed by minus returns the original count |
| HeirInputRow.DecrementThenIncrement | components/HeirInputRow.tsx:18-24 | For a count above 1 and within the limit, minus followed by plus returns the original count |
| HeirInputRow.StepperHiddenForSingletons | components/HeirInputRow.tsx:37 | The stepper is hidden exactly for the types with limit 1, that is, for the husband and the ascendants |
| App.Find | App.tsx:50 | The lookup succeeds exactly when the type is selected, and it reports the first entry of that type |
| App.ValidCountInRange | App.tsx:50 | In a valid selection, the entry the lookup finds for a selected type has a count between 1 and the type's limit |
| App.AddHeir | App.tsx:49-64 | Adding a selected type leaves the list unchanged. So does adding a spouse while the other spouse is selected. Otherwise `{type, count: 1}` is appended and the earlier entries keep their order and values |
| App.AddHeirChangesIffEnabled | App.tsx:76-81 | Adding changes the list if and only if the type's grid button is not disabled, and then it appends `{type, count: 1}` |
| App.DisabledIffAppendBreaksInvariant | App.tsx:76-81 | In a valid selection, a type's button is disabled exactly when appending that type would break distinctness or spouse exclusion |
| App.AddHeirPreservesValid | App.tsx:49-63 | Adding keeps types distinct, spouses exclusive and counts within limits |
| App.UpdateHeirCount | App.tsx:66-68 | Updating keeps the length, the order and every entry's type. Entries of other types are unchanged, and entries of the updated type get the new count |
| App.UpdateHeirCountLookup | App.tsx:66-68 | After an update, every type is selected exactly when it was before. The updated type's row reads the new count, and every other type's count is unchanged |
| App.UpdateAbsentIsNoOp | App.tsx:67 | Updating a type that is not selected leaves the list unchanged |
| App.UpdateTwice | App.tsx:67 | Of two successive updates of the same type, only the second one's count remains |
| App.UpdateThenRestore | App.tsx:67 | With distinct types, overwriting an entry's count and then writing the old count back restores the selection |
| App.UpdateHeirCountPreservesValid | App.tsx:67 | Updating keeps types distinct and spouses exclusive, and keeps counts within limits when the new count is within the type's limit |
| App.RemoveHeir | App.tsx:70-72 | After removing, the type is no longer selected, and the remaining entries are exactly the old entries of other types |
| App.RemoveHeirSingleton | App.tsx:71 | On a one-entry list, the entry is kept exactly when its type differs from the removed type |
| App.RemoveHeirAppend | App.tsx:71 | Removing from a concatenation removes from each part and keeps the parts in order. With the one-entry case this fixes the result on every list, including lists with repeated types, as `filter` does |
| App.RemoveAbsentIsNoOp | App.tsx:71 | Removing a type that is not selected leaves the list unchanged |
| App.RemoveCutsOneEntry | App.tsx:71 | With distinct types, removing a type cuts out exactly its one entry and keeps the entries before and after it in order |
| App.RemoveHeirPreservesValid | App.tsx:71 | Removing keeps types distinct, spouses exclusive and counts within limits |
| App.AddThenRemove | App.tsx:49-72 | Adding a type that is not selected and then removing it restores the original list, whether or not the add went through |
| App.HandleCalculate | App.tsx:83-95 | A request goes out exactly when the estate is a positive number and the list is non-empty, and it carries that estate and that list. The estate error is raised whenever the estate is bad, even if the list is also empty. The heir error is raised only for a good estate with an empty list |
| Session.GridClickIsAddHeir | App.tsx:231-239 | The `!disabled &&` guard on a grid button is redundant: a click has exactly the effect of `addHeir` |
| Session.StepPreservesValid | App.tsx:214-239 | Every panel gesture keeps the selection valid: grid click, plus, minus or remove |
| Session.RunPreservesValid | App.tsx:214-239 | Every sequence of gestures that starts from a valid selection ends in a valid selection |
| Session.ReachableFromEmpty | App.tsx:26 | Every selection reachable from the initial empty list is valid. Each selected type with limit 1 has count exactly 1, because entries start at 1 and plus never passes the limit |
| Session.SubmittedFromPanelWellFormed | App.tsx:83-99 | Any request the Calculate button sends after a sequence of gestures from the empty list has a positive estate and a non-empty list. Its types are distinct, no husband is paired with a wife, and its counts are within their limits |
| Session.HiddenStepperIgnoresPresses | components/HeirInputRow.tsx:37-55 | On a row whose type has limit 1 no stepper is rendered, so plus and minus change nothing; a position with no row changes nothing either |
| Session.PlusThenMinus | App.tsx:214-221 | With distinct types, plus and then minus on a row whose count is at least 1 and below its limit restores the whole selection |
| Session.PressRemoveDropsRow | App.tsx:214-222 | In a valid selection, a row's remove button drops exactly that row's entry, and the other entries stay in order |

## Left out

- The inheritance-share computation is left out. The source sends it to an external language-model service (services/geminiService.ts): a network call followed by JSON parsing. No share, exclusion, 'Awl or Radd rule exists in the repository, so none is modelled.
- Result rendering (components/ResultsView.tsx) and the rules table (components/InheritanceRules.tsx) are left out. They only display data, using floating-point amounts, currency formatting and chart colours.
- Estate parsing is left out. `parseFloat` after stripping commas is floating-point parsing, so the parsed estate is reduced to `NotANumber | Number(real)`. The checks on it are modelled with mathematical reals, not IEEE doubles. In particular `Number(real)` cannot hold +Infinity. `parseFloat` returns it for an input such as `1e400`, and the check `isNaN(x) || x <= 0` lets it through to the service.
- The service call, the loading and error state, the reset handler, the language and dark-mode toggles, the currency choice, the document title and direction, and all markup and styling are left out. They are UI plumbing with no effect on the selection.
- The `alert` on a husband/wife conflict is not modelled as an effect. Only its consequence is: the list is unchanged.
- Counts are modelled as `int`. In the source a count is a JavaScript `number`, but it only ever takes integer values: it starts at 1 and moves by 1.
- `App.Find` returns the position of the first matching entry, not the entry itself as `Array.prototype.find` does. The entry is the one at that position.
- Updates are applied one gesture at a time to the current list. React state batching and stale render closures are not modelled.

## Notes on the source

- No count ever falls below 1. `addHeir` starts every entry at 1 (App.tsx:63), and minus is guarded by `count > 1` (components/HeirInputRow.tsx:23). So `App.Valid` requires counts of at least 1.
- `handleCalculate` (App.tsx:87-95) checks neither that types are distinct nor that counts are within their limits. It relies on the panel never producing such a list. `Session.SubmittedFromPanelWellFormed` shows that this reliance holds.
