# Pseudo-activatable abilities registry

TabletopTweaks gives some abilities a "pseudo-activatable" action-bar slot.
Such a slot is drawn as active while the unit has at least one buff that its
ability watches. `UnitPartPseudoActivatableAbilities` is the per-unit part that
decides this. It keeps four pieces of state:

- `m_AbilitiesToMechanicSlots`: for each ability, the list of weak references to its slots;
- `m_AbilitiesToBuffs`: for each ability, its watch-set;
- `m_BuffsToAbilities`: the inverse index, buff to watching abilities;
- `m_ActiveWatchedBuffs`: the buffs currently applied.

Two kinds of event drive the part:

- Registering a slot appends a weak reference. A registration for an ability
  without a watch-set derives one, either from the slot's own `BuffToWatch` or
  from the `PseudoActivatable` components of the ability's variants. An ability
  whose derivation comes out empty is derived again at its next registration.
  Once recorded, a watch-set is never re-derived. If the ability then has a
  watch-set, its state is pushed to its live slots; otherwise no slot is
  written.
- A buff activation or deactivation updates the active set. It recomputes
  "watch-set meets active set" for every ability watching the buff, writes the
  result to each live slot, and drops references to slots that have been
  garbage-collected.

The Dafny model has five modules:

- `Wrappers` (`wrappers.dfy`): the `Option` type, for a component a blueprint
  may lack.
- `Blueprints` (`blueprints.dfy`): the blueprint data, as values. A
  `BlueprintBuffReference` is `BuffRef`, with `Null` for the shared null
  reference. A `BlueprintAbility` carries its `AbilityVariants` and
  `PseudoActivatable` components.
- `ActionBar` (`action_bar.dfy`): slot widgets are `Slot` objects with a
  mutable `shouldBeActive` flag. Weak references are `WeakSlotRef` objects.
  The garbage collector is a `collected` flag that only the environment sets.
- `Sequences` (`sequences.dfy`): the `List<T>.Remove` and filter operations on
  reference lists.
- `NewUnitParts` (`unit_part_pseudo_activatable_abilities.dfy`): the class
  `UnitPartPseudoActivatableAbilities`, with the four fields as `map`/`set`
  fields that its methods reassign.

The class invariant `Valid()` says three things:

- the two buff maps are transposes of each other;
- the null buff is never stored, and no entry is empty;
- every watched ability has a slot list, and every list holds distinct
  references to slots of its own ability.

`Synchronized()` says that every live slot of an ability with a watch-set shows
whether that watch-set meets the active buffs. Both are preserved by every
public operation.

## Model

| member | source | states |
|---|---|---|
| NewUnitParts.AnyActive | TabletopTweaks/NewUnitParts/UnitPartPseudoActivatableAbilities.cs:102 | the test whether some watched buff is active, used at lines 102 and 114, succeeds exactly when the watch-set and the active set intersect |
| NewUnitParts.SomeInBoth | TabletopTweaks/NewUnitParts/UnitPartPseudoActivatableAbilities.cs:114 | some element lies in both sets exactly when their intersection is non-empty, in both directions |
| NewUnitParts.VariantBuffToWatch | TabletopTweaks/NewUnitParts/UnitPartPseudoActivatableAbilities.cs:61-63 | a variant contributes its `PseudoActivatable.BuffToWatch` exactly when it has the component and the buff is not null; the null buff is never contributed |
| NewUnitParts.VariantBuffsToWatch | TabletopTweaks/NewUnitParts/UnitPartPseudoActivatableAbilities.cs:59-65 | the buffs collected from the variants never include the null buff |
| NewUnitParts.VariantBuffsToWatchMembers | TabletopTweaks/NewUnitParts/UnitPartPseudoActivatableAbilities.cs:59-65 | a buff is collected iff it is not null and some variant's `PseudoActivatable` component names it (both directions) |
| NewUnitParts.CollectVariantBuffsToWatch | TabletopTweaks/NewUnitParts/UnitPartPseudoActivatableAbilities.cs:59-65 | the `foreach` over the variants yields exactly the non-null buffs some variant names |
| NewUnitParts.WatchSetFor | TabletopTweaks/NewUnitParts/UnitPartPseudoActivatableAbilities.cs:49-77 | the derived watch-set (the slot's buff, else the variants' buffs, else nothing) never holds the null buff |
| NewUnitParts.WatchSetEmpty | TabletopTweaks/NewUnitParts/UnitPartPseudoActivatableAbilities.cs:57-67 | no watch-set is recorded iff the slot's buff is null and the ability has no variants or none of them names a non-null buff |
| NewUnitParts.WithWatcher | TabletopTweaks/NewUnitParts/UnitPartPseudoActivatableAbilities.cs:51-55 | the inverse map after an ability is added under each of a set of buffs: its keys are the old keys and those buffs, every old entry is kept, and each of those buffs' entries holds the ability |
| NewUnitParts.WithWatcherPairs | TabletopTweaks/NewUnitParts/UnitPartPseudoActivatableAbilities.cs:68-74 | the (buff, ability) pairs after the update are exactly the old pairs and the ability under each buff of the watch-set |
| NewUnitParts.WithWatcherNothing | TabletopTweaks/NewUnitParts/UnitPartPseudoActivatableAbilities.cs:68-74 | adding an ability to no buff leaves the inverse map as it is |
| NewUnitParts.WithWatcherStep | TabletopTweaks/NewUnitParts/UnitPartPseudoActivatableAbilities.cs:68-74 | one iteration of the inverse-map loop adds the ability to that buff's entry, creating the entry if missing, and changes no other entry |
| NewUnitParts.DerivationKeepsTransposed | TabletopTweaks/NewUnitParts/UnitPartPseudoActivatableAbilities.cs:50-55 | recording a new ability's watch-set in the forward map and adding it under each of those buffs in the inverse map keeps the two maps transposes |
| NewUnitParts.FilterKeepsSlotLists | TabletopTweaks/NewUnitParts/UnitPartPseudoActivatableAbilities.cs:138-140 | removing references from one slot list keeps every list distinct and of its own ability |
| NewUnitParts.RegisteredUnder | TabletopTweaks/NewUnitParts/UnitPartPseudoActivatableAbilities.cs:36-42 | a slot registered under an ability is a pseudo-activatable slot of that ability |
| NewUnitParts.UnitPartPseudoActivatableAbilities.constructor | TabletopTweaks/NewUnitParts/UnitPartPseudoActivatableAbilities.cs:20-29 | a new part has four empty collections and is valid and synchronized |
| NewUnitParts.UnitPartPseudoActivatableAbilities.RegisterPseudoActivatableAbilitySlot | TabletopTweaks/NewUnitParts/UnitPartPseudoActivatableAbilities.cs:32-82 | a non-pseudo-activatable slot changes no map and no slot. Otherwise exactly one fresh reference to the slot is appended to its ability's list, all other lists unchanged. An ability with a watch-set keeps both buff maps. One without records its derived watch-set in both maps, or nothing when that set is empty, and is derived again at a later registration. If the ability then has a watch-set, its state is written to the new slot and its other live slots, and its expired references are dropped; otherwise no slot is written. Validity and synchronization are kept |
| NewUnitParts.UnitPartPseudoActivatableAbilities.RegistrationKeepsSynchronized | TabletopTweaks/NewUnitParts/UnitPartPseudoActivatableAbilities.cs:36-81 | after a registration every live slot of every watched ability still shows that ability's state |
| NewUnitParts.UnitPartPseudoActivatableAbilities.RegisterPseudoActivatableSlot | TabletopTweaks/NewUnitParts/UnitPartPseudoActivatableAbilities.cs:36-81 | the registration of a pseudo-activatable slot, with the new reference returned: the same effects as above, unconditionally |
| NewUnitParts.UnitPartPseudoActivatableAbilities.AddSlotRef | TabletopTweaks/NewUnitParts/UnitPartPseudoActivatableAbilities.cs:36-42 | the ability's list becomes the old list (or the empty one) with one fresh reference to the slot appended; nothing else changes |
| NewUnitParts.UnitPartPseudoActivatableAbilities.TrackAbility | TabletopTweaks/NewUnitParts/UnitPartPseudoActivatableAbilities.cs:44-81 | an ability with a watch-set keeps both buff maps and gets its state pushed; one without gets the derived watch-set recorded first |
| NewUnitParts.UnitPartPseudoActivatableAbilities.DeriveWatchSet | TabletopTweaks/NewUnitParts/UnitPartPseudoActivatableAbilities.cs:49-77 | a non-empty derived watch-set is recorded in the forward map and the ability is added under each of its buffs in the inverse map; the maps stay transposes with no null key |
| NewUnitParts.UnitPartPseudoActivatableAbilities.UnwatchedSlotsUntouched | TabletopTweaks/NewUnitParts/UnitPartPseudoActivatableAbilities.cs:107-109 | an ability without a watch-set watches no buff, so no buff event may write to its slots |
| NewUnitParts.UnitPartPseudoActivatableAbilities.BuffEventKeepsSynchronized | TabletopTweaks/NewUnitParts/UnitPartPseudoActivatableAbilities.cs:84-122 | after a buff event every live slot of every watched ability still shows that ability's state: watchers were refreshed, and the others' watch-sets miss the buff |
| NewUnitParts.UnitPartPseudoActivatableAbilities.BuffActivated | TabletopTweaks/NewUnitParts/UnitPartPseudoActivatableAbilities.cs:84-89 | the buff joins the active set and nothing else in it changes. Both buff maps are unchanged. Exactly the watchers' lists are pruned of expired references. Every live slot of a watcher shows its ability's new state. No other slot is written. Validity and synchronization are kept |
| NewUnitParts.UnitPartPseudoActivatableAbilities.BuffDeactivated | TabletopTweaks/NewUnitParts/UnitPartPseudoActivatableAbilities.cs:91-96 | the same as for activation, with the buff removed from the active set |
| NewUnitParts.UnitPartPseudoActivatableAbilities.UpdateStateForAbility | TabletopTweaks/NewUnitParts/UnitPartPseudoActivatableAbilities.cs:98-105 | without a watch-set or a slot list nothing changes. Otherwise the ability's live slots show whether its watch-set meets the active buffs, and its list loses exactly its expired references |
| NewUnitParts.UnitPartPseudoActivatableAbilities.UpdateAbilitiesForBuff | TabletopTweaks/NewUnitParts/UnitPartPseudoActivatableAbilities.cs:107-122 | an unwatched buff changes nothing. Otherwise each watcher's list is pruned, and each of its live slots shows its state. Other lists and slots are untouched |
| NewUnitParts.UnitPartPseudoActivatableAbilities.ToggleStatuses | TabletopTweaks/NewUnitParts/UnitPartPseudoActivatableAbilities.cs:111-116 | the status map has exactly the given abilities that have a watch-set as keys, each mapped to whether its watch-set meets the active buffs; no state changes |
| NewUnitParts.UnitPartPseudoActivatableAbilities.PushToggleStatuses | TabletopTweaks/NewUnitParts/UnitPartPseudoActivatableAbilities.cs:117-121 | every ability in the status map has its list pruned and its live slots set to its status; other lists and slots are untouched |
| NewUnitParts.UnitPartPseudoActivatableAbilities.PushToggleStatus | TabletopTweaks/NewUnitParts/UnitPartPseudoActivatableAbilities.cs:118-120 | one iteration of that loop extends the handled abilities by one and keeps the loop's invariant |
| NewUnitParts.UnitPartPseudoActivatableAbilities.UpdateSlotRefs | TabletopTweaks/NewUnitParts/UnitPartPseudoActivatableAbilities.cs:124-141 | every live pseudo-activatable slot of the ability gets the flag. Live slots that are not pseudo-activatable and collected slots keep theirs. The list loses exactly its expired references, the rest kept in order. No other list changes |
| NewUnitParts.UnitPartPseudoActivatableAbilities.Validate | TabletopTweaks/NewUnitParts/UnitPartPseudoActivatableAbilities.cs:143-151 | reports exactly the abilities that occur in the inverse map's values but are not keys of the forward map, reports none on a valid part, and changes nothing |
| ActionBar.Live | TabletopTweaks/NewUnitParts/UnitPartPseudoActivatableAbilities.cs:126-139 | the references kept are exactly those whose slot has not been collected |
| ActionBar.LiveAppend | TabletopTweaks/NewUnitParts/UnitPartPseudoActivatableAbilities.cs:37-45 | pruning a list with one reference appended keeps the earlier live references in order, followed by the new one if its slot is live |
| ActionBar.PushToTargets | TabletopTweaks/NewUnitParts/UnitPartPseudoActivatableAbilities.cs:125-134 | the first `foreach` writes the flag to exactly the live pseudo-activatable targets and returns exactly the expired references |
| Sequences.Except | TabletopTweaks/NewUnitParts/UnitPartPseudoActivatableAbilities.cs:138-140 | the filtered list holds exactly the elements not excluded and is no longer than the original |
| Sequences.Without | TabletopTweaks/NewUnitParts/UnitPartPseudoActivatableAbilities.cs:139 | `List.Remove` of an absent element changes nothing; of a present one, the result is one shorter and its multiset of elements is the old one with one copy of that element taken out |
| Sequences.WithoutFirst | TabletopTweaks/NewUnitParts/UnitPartPseudoActivatableAbilities.cs:139 | `List.Remove` of a present element drops its first occurrence: the result is everything before the first index holding it followed by everything after, in order |
| Sequences.ExceptDistinct | TabletopTweaks/NewUnitParts/UnitPartPseudoActivatableAbilities.cs:138-140 | filtering keeps a list of distinct references distinct |
| Sequences.ExceptAbsent | TabletopTweaks/NewUnitParts/UnitPartPseudoActivatableAbilities.cs:139 | excluding an element that does not occur changes nothing |
| Sequences.WithoutExcept | TabletopTweaks/NewUnitParts/UnitPartPseudoActivatableAbilities.cs:138-140 | on a distinct list, one more `Remove` after a filter is the filter by the enlarged set |
| Sequences.ExceptNothing | TabletopTweaks/NewUnitParts/UnitPartPseudoActivatableAbilities.cs:135-140 | removing no references keeps the list |
| Sequences.ExceptRestrict | TabletopTweaks/NewUnitParts/UnitPartPseudoActivatableAbilities.cs:132-139 | only the elements of the list decide the filter's result |
| Sequences.ExceptAppend | TabletopTweaks/NewUnitParts/UnitPartPseudoActivatableAbilities.cs:138-140 | filtering a concatenation is the concatenation of the filtered parts, so the order of the kept elements is preserved |
| Sequences.RemoveEach | TabletopTweaks/NewUnitParts/UnitPartPseudoActivatableAbilities.cs:138-140 | removing each listed reference in turn from a distinct list is the order-keeping filter by the set of those references |

## Left out

- `Main.LogDebug` and `NameSafe()` are not modelled. They only write diagnostic output.
- Garbage collection is not modelled as reclaiming memory.
  - `TryGetTarget` succeeding is modelled as the target's `collected` flag being false.
  - The registry never writes that flag.
  - Collection during a call is not modelled: every operation sees the flags as fixed.
- The game engine's types and lookups are not modelled; they become data.
  - `GetComponent<AbilityVariants>` and `GetComponent<PseudoActivatable>` become fields of the `AbilityBlueprint` value.
  - `ToReference<BlueprintBuffReference>` becomes the constructor `Ref`, which is injective.
  - `_nullBuffRef` becomes `Null`.
  - The `is IPseudoActivatableMechanicsBarSlot` test becomes the slot's kind.
- The `#if DEBUG` call to `Validate()` at lines 78-80 is not made by the registration method.
  - `Validate` is a separate read-only method that returns the abilities it would log.
  - It is proved to return none on a valid part.
  - Calling it would change nothing, since it modifies no state.
- The source's implicit exception paths are not modelled; the model's types cannot express them.
  - A null `PseudoActivatableAbility` or `Blueprint` throws at line 36, or in `TryGetValue` at line 37, before any state change.
  - A `BuffToWatch` that is a C# null object, rather than the empty `_nullBuffRef`, throws at `.Equals` on line 49. By then the new reference is already appended (lines 37-42), so the part keeps the reference but records no watch-set and pushes nothing.
  - A null variant entry, or a `PseudoActivatable` component whose `BuffToWatch` is a C# null object, throws the same way at lines 61-62, with the same partial state.
- UI rendering of a slot and the `UnitPart` lifecycle are not modelled; they lie outside this logic.
- Some loops and branches of the source methods are separate methods here, so that each proof stays small. Each is listed in the table with the lines it covers:
  - `RegisterPseudoActivatableSlot`, `AddSlotRef`, `TrackAbility`, `DeriveWatchSet` and `CollectVariantBuffsToWatch` for registration. `RegisterPseudoActivatableAbilitySlot` and `RegisterPseudoActivatableSlot` are one source method: the first handles the slot that is ignored, and the second, which repeats its contract without the guard, the rest;
  - `ToggleStatuses`, `PushToggleStatuses` and `PushToggleStatus` for `UpdateAbilitiesForBuff`;
  - `PushToTargets` and `RemoveEach` for `UpdateSlotRefs`.
- Iteration order of `HashSet` and `Dictionary` is not modelled. The loops over them pick an arbitrary remaining element, and every result is proved for whichever order is taken.
- `UpdateSlotRefs` mutates the `List` held in the dictionary in place. Here the list is a `seq` value that is written back to the map. No other holder of the list exists in the source, so no aliasing is lost.
