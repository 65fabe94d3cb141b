/**
 * The per-unit registry that decides which action-bar slots of
 * pseudo-activatable abilities are drawn as active: a slot is active while
 * at least one of the buffs its ability watches is applied to the unit.
 */
module NewUnitParts {
  import opened Wrappers
  import opened Sequences
  import opened Blueprints
  import opened ActionBar

  /** Some element lies in both sets exactly when the sets intersect. */
  lemma SomeInBoth<T>(xs: set<T>, ys: set<T>)
    ensures (exists x :: x in xs && x in ys) <==> xs * ys != {}
  {
    if xs * ys != {} {
      var x :| x in xs * ys;
    }
    if exists x :: x in xs && x in ys {
      var x :| x in xs && x in ys;
      assert x in xs * ys;
    }
  }

  /** Whether at least one of the watched buffs is currently active. */
  function AnyActive(watched: set<BuffRef>, active: set<BuffRef>): (r: bool)
    ensures r <==> watched * active != {}
  {
    SomeInBoth(watched, active);
    exists b :: b in watched && b in active
  }

  /** A buff outside the watch-set does not change the test when it is activated or deactivated. */
  lemma AnyActiveIgnores(watched: set<BuffRef>, active: set<BuffRef>, buff: BuffRef)
    requires buff !in watched
    ensures AnyActive(watched, active + {buff}) == AnyActive(watched, active)
    ensures AnyActive(watched, active - {buff}) == AnyActive(watched, active)
  {
  }

  /**
   * The buff one variant contributes: the `BuffToWatch` of its
   * `PseudoActivatable` component, when it has one and it is not null.
   */
  function VariantBuffToWatch(variant: AbilityBlueprint): (r: set<BuffRef>)
    ensures Null !in r
    ensures forall b :: b in r <==> b != Null && variant.pseudoActivatable == Some(b)
  {
    match variant.pseudoActivatable
    case Some(b) => if b != Null then {b} else {}
    case None => {}
  }

  /** The buffs all of `variants` contribute, collected in order. */
  function VariantBuffsToWatch(variants: seq<AbilityBlueprint>): (r: set<BuffRef>)
    ensures Null !in r
  {
    if variants == [] then {}
    else VariantBuffsToWatch(variants[..|variants| - 1]) + VariantBuffToWatch(variants[|variants| - 1])
  }

  /** A buff is watched through the variants iff some variant watches it and it is not null. */
  lemma {:induction false} VariantBuffsToWatchMembers(variants: seq<AbilityBlueprint>, b: BuffRef)
    ensures b in VariantBuffsToWatch(variants) <==>
      b != Null && exists i :: 0 <= i < |variants| && variants[i].pseudoActivatable == Some(b)
  {
    if variants != [] {
      var n := |variants| - 1;
      var front := variants[..n];
      VariantBuffsToWatchMembers(front, b);
      if b in VariantBuffsToWatch(variants) && b !in VariantBuffToWatch(variants[n]) {
        var i :| 0 <= i < |front| && front[i].pseudoActivatable == Some(b);
        assert variants[i] == front[i];
      }
      if b != Null && exists i :: 0 <= i < |variants| && variants[i].pseudoActivatable == Some(b) {
        var i :| 0 <= i < |variants| && variants[i].pseudoActivatable == Some(b);
        if i < n {
          assert front[i] == variants[i];
        }
      }
    }
  }

  /**
   * The watch-set derived for `ability` when a slot naming `buffToWatch`
   * registers it: the slot's own buff when it is not null; otherwise the
   * buffs its variants watch; otherwise (no `AbilityVariants` component)
   * nothing. An empty result means no watch-set is recorded.
   */
  function WatchSetFor(ability: AbilityBlueprint, buffToWatch: BuffRef): (r: set<BuffRef>)
    ensures Null !in r
  {
    if buffToWatch != Null then {buffToWatch}
    else match ability.variants
      case None => {}
      case Some(variants) => VariantBuffsToWatch(variants)
  }

  /**
   * An ability gets no watch-set exactly when its slot's buff is null and
   * none of its variants has a `PseudoActivatable` component with a non-null
   * buff (in particular, when it has no `AbilityVariants` component).
   */
  lemma WatchSetEmpty(ability: AbilityBlueprint, buffToWatch: BuffRef)
    ensures WatchSetFor(ability, buffToWatch) == {} <==>
      buffToWatch == Null &&
      (ability.variants.None? ||
       forall i :: 0 <= i < |ability.variants.value| ==>
         ability.variants.value[i].pseudoActivatable in {None, Some(Null)})
  {
    if buffToWatch == Null && ability.variants.Some? {
      var variants := ability.variants.value;
      if WatchSetFor(ability, buffToWatch) == {} {
        forall i | 0 <= i < |variants|
          ensures variants[i].pseudoActivatable in {None, Some(Null)}
        {
          var c := variants[i].pseudoActivatable;
          if c.Some? && c.value != Null {
            VariantBuffsToWatchMembers(variants, c.value);
            assert false;
          }
        }
      } else {
        var b :| b in WatchSetFor(ability, buffToWatch);
        VariantBuffsToWatchMembers(variants, b);
      }
    }
  }

  /**
   * The registration's loop over the variants' `PseudoActivatable`
   * components: gathers their non-null watched buffs into a set, one
   * variant at a time.
   */
  method CollectVariantBuffsToWatch(variants: seq<AbilityBlueprint>) returns (buffs: set<BuffRef>)
    ensures buffs == VariantBuffsToWatch(variants)
    ensures forall b :: b in buffs <==>
      b != Null && exists i :: 0 <= i < |variants| && variants[i].pseudoActivatable == Some(b)
  {
    buffs := {};
    for i := 0 to |variants|
      invariant buffs == VariantBuffsToWatch(variants[..i])
    {
      assert variants[..i + 1][..i] == variants[..i];
      var component := variants[i].pseudoActivatable;
      if component.Some? && component.value != Null {
        buffs := buffs + {component.value};
      }
    }
    assert variants[..|variants|] == variants;
    forall b | true
      ensures b in buffs <==>
        b != Null && exists i :: 0 <= i < |variants| && variants[i].pseudoActivatable == Some(b)
    {
      VariantBuffsToWatchMembers(variants, b);
    }
  }

  /**
   * The inverse index after `ability` has been added to the entry of every
   * buff in `buffs`, creating the entries that are missing.
   */
  function WithWatcher(index: map<BuffRef, set<AbilityBlueprint>>, buffs: set<BuffRef>,
                       ability: AbilityBlueprint): (r: map<BuffRef, set<AbilityBlueprint>>)
    ensures r.Keys == index.Keys + buffs
    ensures forall b :: b in index ==> index[b] <= r[b]
    ensures forall b :: b in buffs ==> ability in r[b]
  {
    map b | b in index.Keys + buffs ::
      (if b in index then index[b] else {}) + (if b in buffs then {ability} else {})
  }

  /**
   * The pairs of a `WithWatcher` derivation are exactly the old pairs and
   * `ability` under each of `buffs`.
   */
  lemma WithWatcherPairs(index: map<BuffRef, set<AbilityBlueprint>>, buffs: set<BuffRef>,
                         ability: AbilityBlueprint, b: BuffRef, x: AbilityBlueprint)
    ensures b in WithWatcher(index, buffs, ability) && x in WithWatcher(index, buffs, ability)[b] <==>
      (b in index && x in index[b]) || (b in buffs && x == ability)
  {
  }

  /** Deriving over no buffs leaves the inverse map as it is. */
  lemma WithWatcherNothing(index: map<BuffRef, set<AbilityBlueprint>>, ability: AbilityBlueprint)
    ensures WithWatcher(index, {}, ability) == index
  {
    var derived := WithWatcher(index, {}, ability);
    assert derived.Keys == index.Keys;
    forall b | b in index ensures derived[b] == index[b] {
    }
  }

  /** Adding one more buff to a `WithWatcher` derivation updates that buff's entry alone. */
  lemma WithWatcherStep(index: map<BuffRef, set<AbilityBlueprint>>, done: set<BuffRef>,
                        buff: BuffRef, ability: AbilityBlueprint)
    requires buff !in done
    ensures WithWatcher(index, done + {buff}, ability) ==
      WithWatcher(index, done, ability)[buff := if buff in index then index[buff] + {ability} else {ability}]
  {
    var after := WithWatcher(index, done + {buff}, ability);
    var stepped := WithWatcher(index, done, ability)[buff := if buff in index then index[buff] + {ability} else {ability}];
    assert after.Keys == stepped.Keys;
    forall b | b in after ensures after[b] == stepped[b] {
    }
  }

  /** `inverse` holds exactly the (buff, ability) pairs of `forward`, turned round. */
  ghost predicate Transposed(forward: map<AbilityBlueprint, set<BuffRef>>,
                             inverse: map<BuffRef, set<AbilityBlueprint>>)
  {
    && (forall a, b :: a in forward && b in forward[a] ==> b in inverse && a in inverse[b])
    && (forall b, a :: b in inverse && a in inverse[b] ==> a in forward && b in forward[a])
  }

  /** Recording a new ability's watch-set in both maps keeps them transposed. */
  lemma DerivationKeepsTransposed(forward: map<AbilityBlueprint, set<BuffRef>>,
                                  inverse: map<BuffRef, set<AbilityBlueprint>>,
                                  ability: AbilityBlueprint, buffs: set<BuffRef>)
    requires Transposed(forward, inverse)
    requires ability !in forward
    ensures Transposed(forward[ability := buffs], WithWatcher(inverse, buffs, ability))
  {
  }

  /** Every reference in `refs` is distinct and points to a pseudo-activatable slot of `ability`. */
  ghost predicate RefsOf(ability: AbilityBlueprint, refs: seq<WeakSlotRef>) {
    && Distinct(refs)
    && forall r :: r in refs ==>
         r.target.kind.PseudoActivatable? && r.target.kind.ability == ability
  }

  /**
   * The two buff maps are transposes of each other, the null buff is never
   * a key of the inverse map and no entry of either map is empty.
   */
  ghost predicate IndexInvariant(forward: map<AbilityBlueprint, set<BuffRef>>,
                                 inverse: map<BuffRef, set<AbilityBlueprint>>)
  {
    && Transposed(forward, inverse)
    && Null !in inverse
    && (forall a :: a in forward ==> forward[a] != {})
    && (forall b :: b in inverse ==> inverse[b] != {})
  }

  /** Every slot list holds distinct references to slots of its own ability. */
  ghost predicate SlotListsInvariant(slots: map<AbilityBlueprint, seq<WeakSlotRef>>) {
    forall a :: a in slots ==> RefsOf(a, slots[a])
  }

  /** Filtering one slot list keeps every list well formed. */
  lemma FilterKeepsSlotLists(slots: map<AbilityBlueprint, seq<WeakSlotRef>>, ability: AbilityBlueprint,
                             xs: set<WeakSlotRef>)
    requires SlotListsInvariant(slots) && ability in slots
    ensures SlotListsInvariant(slots[ability := Except(slots[ability], xs)])
  {
    ExceptDistinct(slots[ability], xs);
  }


  /** A slot registered under `ability` is a pseudo-activatable slot of that ability. */
  lemma RegisteredUnder(slots: map<AbilityBlueprint, seq<WeakSlotRef>>, ability: AbilityBlueprint, s: Slot)
    requires SlotListsInvariant(slots) && ability in slots && s in Targets(slots[ability])
    ensures s.kind.PseudoActivatable? && s.kind.ability == ability
  {
  }

  /** `UnitPartPseudoActivatableAbilities`: the registry of one unit. */
  class UnitPartPseudoActivatableAbilities {
    /** `m_AbilitiesToMechanicSlots`: the weak slot references registered per ability. */
    var abilitiesToMechanicSlots: map<AbilityBlueprint, seq<WeakSlotRef>>
    /** `m_AbilitiesToBuffs`: the watch-set of each ability that has one. */
    var abilitiesToBuffs: map<AbilityBlueprint, set<BuffRef>>
    /** `m_BuffsToAbilities`: for each watched buff, the abilities watching it. */
    var buffsToAbilities: map<BuffRef, set<AbilityBlueprint>>
    /** `m_ActiveWatchedBuffs`: the buffs reported active and not since deactivated. */
    var activeWatchedBuffs: set<BuffRef>

    /**
     * The registry's invariant: the buff maps satisfy `IndexInvariant`,
     * every ability with a watch-set has a slot list, and every slot list
     * holds distinct references to slots of its own ability.
     */
    ghost predicate Valid()
      reads this
    {
      && IndexInvariant(abilitiesToBuffs, buffsToAbilities)
      && abilitiesToBuffs.Keys <= abilitiesToMechanicSlots.Keys
      && SlotListsInvariant(abilitiesToMechanicSlots)
    }

    /** The slots registered for `ability`, live or not. */
    ghost function SlotsOf(ability: AbilityBlueprint): set<Slot>
      reads this`abilitiesToMechanicSlots
    {
      if ability in abilitiesToMechanicSlots then Targets(abilitiesToMechanicSlots[ability]) else {}
    }

    /** Every slot registered with the registry. */
    ghost function TrackedSlots(): set<Slot>
      reads this`abilitiesToMechanicSlots
    {
      set a, r | a in abilitiesToMechanicSlots && r in abilitiesToMechanicSlots[a] :: r.target
    }

    /** The abilities watching `buff`. */
    ghost function Watchers(buff: BuffRef): set<AbilityBlueprint>
      reads this`buffsToAbilities
    {
      if buff in buffsToAbilities then buffsToAbilities[buff] else {}
    }

    /** The slots registered for any of `abilities`. */
    ghost function SlotsOfAll(abilities: set<AbilityBlueprint>): set<Slot>
      reads this`abilitiesToMechanicSlots
    {
      set a, r | a in abilities && a in abilitiesToMechanicSlots && r in abilitiesToMechanicSlots[a] :: r.target
    }

    /** The slots registered for the abilities watching `buff`. */
    ghost function WatcherSlots(buff: BuffRef): set<Slot>
      reads this`buffsToAbilities, this`abilitiesToMechanicSlots
    {
      SlotsOfAll(Watchers(buff))
    }

    /** The slots a registration of `slot` may write to. */
    ghost function RegistrationFrame(slot: Slot): set<Slot>
      reads this`abilitiesToMechanicSlots
    {
      if slot.kind.PseudoActivatable? then SlotsOf(slot.kind.ability) + {slot} else {}
    }

    /**
     * The state the registry shows for `ability`: whether its watch-set
     * meets the active buffs. An ability without a watch-set is never shown.
     */
    ghost function WatchSetMeetsActive(ability: AbilityBlueprint): bool
      reads this`abilitiesToBuffs, this`activeWatchedBuffs
    {
      ability in abilitiesToBuffs && AnyActive(abilitiesToBuffs[ability], activeWatchedBuffs)
    }

    /**
     * Every live slot of every ability with a watch-set shows whether that
     * watch-set meets the active buffs.
     */
    ghost predicate Synchronized()
      reads this, TrackedSlots()
    {
      forall s :: s in TrackedSlots() && !s.collected &&
                  s.kind.PseudoActivatable? && s.kind.ability in abilitiesToBuffs ==>
        s.shouldBeActive == WatchSetMeetsActive(s.kind.ability)
    }

    constructor ()
      ensures Valid() && Synchronized()
      ensures abilitiesToMechanicSlots == map[] && abilitiesToBuffs == map[]
      ensures buffsToAbilities == map[] && activeWatchedBuffs == {}
    {
      abilitiesToMechanicSlots := map[];
      abilitiesToBuffs := map[];
      buffsToAbilities := map[];
      activeWatchedBuffs := {};
    }

    /**
     * Records `mechanicSlot` if it is a pseudo-activatable slot, derives its
     * ability's watch-set if the ability has none yet, and pushes the
     * ability's state to its slots.
     */
    method RegisterPseudoActivatableAbilitySlot(mechanicSlot: Slot)
      requires Valid()
      modifies this`abilitiesToMechanicSlots, this`abilitiesToBuffs, this`buffsToAbilities
      modifies RegistrationFrame(mechanicSlot)`shouldBeActive
      ensures Valid()
      // a slot that is not pseudo-activatable is ignored
      ensures !mechanicSlot.kind.PseudoActivatable? ==>
        && abilitiesToMechanicSlots == old(abilitiesToMechanicSlots)
        && abilitiesToBuffs == old(abilitiesToBuffs)
        && buffsToAbilities == old(buffsToAbilities)
      // a watch-set, once recorded, is kept; otherwise this registration may record one
      ensures mechanicSlot.kind.PseudoActivatable? ==>
        var a := mechanicSlot.kind.ability;
        a in old(abilitiesToBuffs) ==>
          abilitiesToBuffs == old(abilitiesToBuffs) && buffsToAbilities == old(buffsToAbilities)
      ensures mechanicSlot.kind.PseudoActivatable? ==>
        var a := mechanicSlot.kind.ability;
        var w := WatchSetFor(a, mechanicSlot.kind.buffToWatch);
        a !in old(abilitiesToBuffs) ==>
          if w == {} then
            abilitiesToBuffs == old(abilitiesToBuffs) && buffsToAbilities == old(buffsToAbilities)
          else
            && abilitiesToBuffs == old(abilitiesToBuffs)[a := w]
            && buffsToAbilities == WithWatcher(old(buffsToAbilities), w, a)
      // exactly one new reference is appended; expired ones are dropped if the state was pushed
      ensures mechanicSlot.kind.PseudoActivatable? ==>
        var a := mechanicSlot.kind.ability;
        && abilitiesToMechanicSlots.Keys == old(abilitiesToMechanicSlots.Keys) + {a}
        && (forall b :: b in old(abilitiesToMechanicSlots) && b != a ==>
              abilitiesToMechanicSlots[b] == old(abilitiesToMechanicSlots[b]))
        && exists ref: WeakSlotRef ::
             && fresh(ref) && ref.target == mechanicSlot
             && var appended := (if a in old(abilitiesToMechanicSlots)
                                 then old(abilitiesToMechanicSlots[a]) else []) + [ref];
                abilitiesToMechanicSlots[a] == if a in abilitiesToBuffs then Live(appended) else appended
      // the ability's state is pushed to the new slot and to its other live slots
      ensures mechanicSlot.kind.PseudoActivatable? ==>
        var a := mechanicSlot.kind.ability;
        mechanicSlot.shouldBeActive ==
          if !mechanicSlot.collected && a in abilitiesToBuffs then WatchSetMeetsActive(a)
          else old(mechanicSlot.shouldBeActive)
      ensures mechanicSlot.kind.PseudoActivatable? ==>
        var a := mechanicSlot.kind.ability;
        forall s :: s in old(SlotsOf(a)) ==>
          s.shouldBeActive ==
            if !s.collected && a in abilitiesToBuffs then WatchSetMeetsActive(a) else old(s.shouldBeActive)
      // every live slot still shows its ability's state
      ensures old(Synchronized()) ==> Synchronized()
    {
      if !mechanicSlot.kind.PseudoActivatable? {
        return;
      }
      var slotRef := RegisterPseudoActivatableSlot(mechanicSlot);
      assert mechanicSlot in old(RegistrationFrame(mechanicSlot));
      if old(Synchronized()) {
        RegistrationKeepsSynchronized(mechanicSlot);
      }
    }

    /**
     * A registration keeps every live slot synchronized: only the slots of
     * the registered ability can change, and they were all refreshed if that
     * ability has a watch-set; every other ability keeps its watch-set,
     * its slot list and its slots.
     */
    twostate lemma RegistrationKeepsSynchronized(mechanicSlot: Slot)
      requires old(Valid()) && old(Synchronized()) && Valid()
      requires mechanicSlot.kind.PseudoActivatable?
      requires activeWatchedBuffs == old(activeWatchedBuffs)
      requires forall b :: b in abilitiesToBuffs && b != mechanicSlot.kind.ability ==>
        b in old(abilitiesToBuffs) && abilitiesToBuffs[b] == old(abilitiesToBuffs[b])
      requires forall b :: b in abilitiesToMechanicSlots && b != mechanicSlot.kind.ability ==>
        b in old(abilitiesToMechanicSlots) && abilitiesToMechanicSlots[b] == old(abilitiesToMechanicSlots[b])
      requires forall s :: s in SlotsOf(mechanicSlot.kind.ability) ==> s in old(RegistrationFrame(mechanicSlot))
      requires var a := mechanicSlot.kind.ability;
        forall s :: s in old(RegistrationFrame(mechanicSlot)) ==>
          s.shouldBeActive ==
            if !s.collected && a in abilitiesToBuffs then WatchSetMeetsActive(a) else old(s.shouldBeActive)
      requires forall s :: s in old(TrackedSlots()) ==> s.collected == old(s.collected)
      requires forall s :: s in old(TrackedSlots()) && s !in old(RegistrationFrame(mechanicSlot)) ==>
        s.shouldBeActive == old(s.shouldBeActive)
      ensures Synchronized()
    {
      var a := mechanicSlot.kind.ability;
      forall s | s in TrackedSlots() && !s.collected &&
                 s.kind.PseudoActivatable? && s.kind.ability in abilitiesToBuffs
        ensures s.shouldBeActive == WatchSetMeetsActive(s.kind.ability)
      {
        var b := s.kind.ability;
        var r: WeakSlotRef :| b in abilitiesToMechanicSlots && r in abilitiesToMechanicSlots[b] && r.target == s;
        if b == a {
          assert s in SlotsOf(a);
        } else {
          assert r in old(abilitiesToMechanicSlots[b]);
          assert s in old(TrackedSlots());
          assert s !in old(RegistrationFrame(mechanicSlot));
        }
      }
    }

    /** The registration of a slot that is pseudo-activatable; returns the new reference. */
    method RegisterPseudoActivatableSlot(mechanicSlot: Slot) returns (slotRef: WeakSlotRef)
      requires Valid() && mechanicSlot.kind.PseudoActivatable?
      modifies this`abilitiesToMechanicSlots, this`abilitiesToBuffs, this`buffsToAbilities
      modifies RegistrationFrame(mechanicSlot)`shouldBeActive
      ensures Valid()
      // a watch-set, once recorded, is kept; otherwise this registration may record one
      ensures
        var a := mechanicSlot.kind.ability;
        a in old(abilitiesToBuffs) ==>
          abilitiesToBuffs == old(abilitiesToBuffs) && buffsToAbilities == old(buffsToAbilities)
      ensures
        var a := mechanicSlot.kind.ability;
        var w := WatchSetFor(a, mechanicSlot.kind.buffToWatch);
        a !in old(abilitiesToBuffs) ==>
          if w == {} then
            abilitiesToBuffs == old(abilitiesToBuffs) && buffsToAbilities == old(buffsToAbilities)
          else
            && abilitiesToBuffs == old(abilitiesToBuffs)[a := w]
            && buffsToAbilities == WithWatcher(old(buffsToAbilities), w, a)
      // exactly one new reference is appended; expired ones are dropped if the state was pushed
      ensures fresh(slotRef) && slotRef.target == mechanicSlot
      ensures
        var a := mechanicSlot.kind.ability;
        && abilitiesToMechanicSlots.Keys == old(abilitiesToMechanicSlots.Keys) + {a}
        && (forall b :: b in old(abilitiesToMechanicSlots) && b != a ==>
              abilitiesToMechanicSlots[b] == old(abilitiesToMechanicSlots[b]))
        && var appended := (if a in old(abilitiesToMechanicSlots)
                            then old(abilitiesToMechanicSlots[a]) else []) + [slotRef];
           abilitiesToMechanicSlots[a] == if a in abilitiesToBuffs then Live(appended) else appended
      // the ability's state is pushed to the new slot and to its other live slots
      ensures
        var a := mechanicSlot.kind.ability;
        forall s :: s in old(RegistrationFrame(mechanicSlot)) ==>
          s.shouldBeActive ==
            if !s.collected && a in abilitiesToBuffs then WatchSetMeetsActive(a) else old(s.shouldBeActive)
    {
      var abilityBlueprint := mechanicSlot.kind.ability;
      var buffToWatch := mechanicSlot.kind.buffToWatch;
      slotRef := AddSlotRef(mechanicSlot);
      TrackAbility(abilityBlueprint, buffToWatch);
    }

    /**
     * The first step of a registration: appends a new weak reference to
     * `mechanicSlot` to its ability's list, creating the list if needed.
     */
    method AddSlotRef(mechanicSlot: Slot) returns (slotRef: WeakSlotRef)
      requires Valid() && mechanicSlot.kind.PseudoActivatable?
      modifies this`abilitiesToMechanicSlots
      ensures Valid()
      ensures fresh(slotRef) && slotRef.target == mechanicSlot
      ensures var a := mechanicSlot.kind.ability;
        abilitiesToMechanicSlots == old(abilitiesToMechanicSlots)[a :=
          (if a in old(abilitiesToMechanicSlots) then old(abilitiesToMechanicSlots[a]) else []) + [slotRef]]
      ensures SlotsOf(mechanicSlot.kind.ability) == old(RegistrationFrame(mechanicSlot))
    {
      var abilityBlueprint := mechanicSlot.kind.ability;
      slotRef := new WeakSlotRef(mechanicSlot);
      if abilityBlueprint in abilitiesToMechanicSlots {
        abilitiesToMechanicSlots := abilitiesToMechanicSlots[abilityBlueprint :=
          abilitiesToMechanicSlots[abilityBlueprint] + [slotRef]];
      } else {
        assert [] + [slotRef] == [slotRef];
        abilitiesToMechanicSlots := abilitiesToMechanicSlots[abilityBlueprint := [slotRef]];
      }
      assert RefsOf(abilityBlueprint, abilitiesToMechanicSlots[abilityBlueprint]);
    }

    /**
     * The rest of a registration, once the new reference is in the
     * ability's list: an ability with a watch-set keeps it, one without
     * gets one derived (possibly none); if it then has a watch-set, its
     * state is pushed.
     */
    method TrackAbility(ability: AbilityBlueprint, buffToWatch: BuffRef)
      requires Valid() && ability in abilitiesToMechanicSlots
      modifies this`abilitiesToMechanicSlots, this`abilitiesToBuffs, this`buffsToAbilities
      modifies SlotsOf(ability)`shouldBeActive
      ensures Valid()
      ensures ability in old(abilitiesToBuffs) ==>
        abilitiesToBuffs == old(abilitiesToBuffs) && buffsToAbilities == old(buffsToAbilities)
      ensures ability !in old(abilitiesToBuffs) ==>
        var w := WatchSetFor(ability, buffToWatch);
        if w == {} then
          abilitiesToBuffs == old(abilitiesToBuffs) && buffsToAbilities == old(buffsToAbilities)
        else
          && abilitiesToBuffs == old(abilitiesToBuffs)[ability := w]
          && buffsToAbilities == WithWatcher(old(buffsToAbilities), w, ability)
      ensures abilitiesToMechanicSlots.Keys == old(abilitiesToMechanicSlots.Keys)
      ensures forall a :: a in old(abilitiesToMechanicSlots) && a != ability ==>
        abilitiesToMechanicSlots[a] == old(abilitiesToMechanicSlots[a])
      ensures abilitiesToMechanicSlots[ability] ==
        if ability in abilitiesToBuffs then Live(old(abilitiesToMechanicSlots[ability]))
        else old(abilitiesToMechanicSlots[ability])
      ensures forall s :: s in old(SlotsOf(ability)) ==>
        s.shouldBeActive ==
          if !s.collected && ability in abilitiesToBuffs then WatchSetMeetsActive(ability) else old(s.shouldBeActive)
    {
      if ability !in abilitiesToBuffs {
        DeriveWatchSet(ability, buffToWatch);
      }
      UpdateStateForAbility(ability);
    }

    /**
     * The registration's derivation of a watch-set, from the slot's own
     * buff or else from the ability's variants: records the watch-set of an
     * ability that has none yet in both maps, or nothing when it is empty.
     */
    method DeriveWatchSet(ability: AbilityBlueprint, buffToWatch: BuffRef)
      requires IndexInvariant(abilitiesToBuffs, buffsToAbilities)
      requires ability !in abilitiesToBuffs
      modifies this`abilitiesToBuffs, this`buffsToAbilities
      ensures IndexInvariant(abilitiesToBuffs, buffsToAbilities)
      ensures var w := WatchSetFor(ability, buffToWatch);
        if w == {} then
          abilitiesToBuffs == old(abilitiesToBuffs) && buffsToAbilities == old(buffsToAbilities)
        else
          && abilitiesToBuffs == old(abilitiesToBuffs)[ability := w]
          && buffsToAbilities == WithWatcher(old(buffsToAbilities), w, ability)
    {
      ghost var watchSet := WatchSetFor(ability, buffToWatch);
      if buffToWatch != Null {
        abilitiesToBuffs := abilitiesToBuffs[ability := {buffToWatch}];
        if buffToWatch in buffsToAbilities {
          buffsToAbilities := buffsToAbilities[buffToWatch := buffsToAbilities[buffToWatch] + {ability}];
        } else {
          buffsToAbilities := buffsToAbilities[buffToWatch := {ability}];
        }
        WithWatcherNothing(old(buffsToAbilities), ability);
        WithWatcherStep(old(buffsToAbilities), {}, buffToWatch, ability);
        assert watchSet == {} + {buffToWatch};
        DerivationKeepsTransposed(old(abilitiesToBuffs), old(buffsToAbilities), ability, watchSet);
      } else if ability.variants.Some? {
        var variantBlueprintBuffsToWatch := CollectVariantBuffsToWatch(ability.variants.value);
        if variantBlueprintBuffsToWatch != {} {
          abilitiesToBuffs := abilitiesToBuffs[ability := variantBlueprintBuffsToWatch];
          assert variantBlueprintBuffsToWatch == watchSet;
          var pending := variantBlueprintBuffsToWatch;
          assert watchSet - pending == {};
          WithWatcherNothing(buffsToAbilities, ability);
          while pending != {}
            invariant pending <= watchSet
            invariant abilitiesToBuffs == old(abilitiesToBuffs)[ability := watchSet]
            invariant buffsToAbilities == WithWatcher(old(buffsToAbilities), watchSet - pending, ability)
            decreases pending
          {
            var buffRef :| buffRef in pending;
            assert buffRef !in watchSet - pending;
            assert buffRef in buffsToAbilities <==> buffRef in old(buffsToAbilities);
            assert buffRef in buffsToAbilities ==> buffsToAbilities[buffRef] == old(buffsToAbilities)[buffRef];
            if buffRef in buffsToAbilities {
              buffsToAbilities := buffsToAbilities[buffRef := buffsToAbilities[buffRef] + {ability}];
            } else {
              buffsToAbilities := buffsToAbilities[buffRef := {ability}];
            }
            assert watchSet - (pending - {buffRef}) == (watchSet - pending) + {buffRef};
            WithWatcherStep(old(buffsToAbilities), watchSet - pending, buffRef, ability);
            pending := pending - {buffRef};
          }
          assert watchSet - pending == watchSet;
          DerivationKeepsTransposed(old(abilitiesToBuffs), old(buffsToAbilities), ability, watchSet);
        }
      }
    }

    /**
     * A buff event keeps every live slot synchronized: the watchers' slots
     * were refreshed, and every other ability's watch-set misses the buff,
     * so its state and its slots are as they were.
     */
    twostate lemma BuffEventKeepsSynchronized(buff: BuffRef)
      requires old(Valid()) && old(Synchronized()) && Valid()
      requires abilitiesToBuffs == old(abilitiesToBuffs) && buffsToAbilities == old(buffsToAbilities)
      requires activeWatchedBuffs == old(activeWatchedBuffs) + {buff} ||
               activeWatchedBuffs == old(activeWatchedBuffs) - {buff}
      requires abilitiesToMechanicSlots.Keys == old(abilitiesToMechanicSlots.Keys)
      requires forall a :: a in old(abilitiesToMechanicSlots) ==>
        abilitiesToMechanicSlots[a] ==
          if a in Watchers(buff) then Live(old(abilitiesToMechanicSlots[a])) else old(abilitiesToMechanicSlots[a])
      requires forall s :: s in old(WatcherSlots(buff)) ==>
        s.shouldBeActive == if !s.collected then WatchSetMeetsActive(s.kind.ability) else old(s.shouldBeActive)
      requires forall s :: s in old(TrackedSlots()) ==> s.collected == old(s.collected)
      requires forall s :: s in old(TrackedSlots()) && s !in old(WatcherSlots(buff)) ==>
        s.shouldBeActive == old(s.shouldBeActive)
      ensures Synchronized()
    {
      forall s | s in TrackedSlots() && !s.collected &&
                 s.kind.PseudoActivatable? && s.kind.ability in abilitiesToBuffs
        ensures s.shouldBeActive == WatchSetMeetsActive(s.kind.ability)
      {
        var a := s.kind.ability;
        var r: WeakSlotRef :| a in abilitiesToMechanicSlots && r in abilitiesToMechanicSlots[a] && r.target == s;
        assert r in old(abilitiesToMechanicSlots[a]);
        assert s in old(TrackedSlots());
        if a in Watchers(buff) {
          assert s in old(WatcherSlots(buff));
        } else {
          assert s !in old(WatcherSlots(buff));
          assert buff !in abilitiesToBuffs[a];
          AnyActiveIgnores(abilitiesToBuffs[a], old(activeWatchedBuffs), buff);
        }
      }
    }

    /**
     * An ability without a watch-set watches no buff, so no buff event may
     * write to its slots: every slot a buff event may write belongs to
     * another ability.
     */
    lemma UnwatchedSlotsUntouched(ability: AbilityBlueprint, buff: BuffRef)
      requires Valid() && ability !in abilitiesToBuffs
      ensures ability !in Watchers(buff)
      ensures forall s :: s in WatcherSlots(buff) ==> s.kind.PseudoActivatable? && s.kind.ability != ability
    {
    }

    /** A buff was applied to the unit: it becomes active and its watchers are refreshed. */
    method BuffActivated(buff: BuffId)
      requires Valid()
      modifies this, WatcherSlots(Ref(buff))`shouldBeActive
      ensures Valid()
      ensures activeWatchedBuffs == old(activeWatchedBuffs) + {Ref(buff)}
      ensures abilitiesToBuffs == old(abilitiesToBuffs) && buffsToAbilities == old(buffsToAbilities)
      ensures abilitiesToMechanicSlots.Keys == old(abilitiesToMechanicSlots.Keys)
      ensures forall a :: a in old(abilitiesToMechanicSlots) ==>
        abilitiesToMechanicSlots[a] ==
          if a in Watchers(Ref(buff)) then Live(old(abilitiesToMechanicSlots[a])) else old(abilitiesToMechanicSlots[a])
      ensures forall s :: s in old(WatcherSlots(Ref(buff))) ==>
        s.shouldBeActive == if !s.collected then WatchSetMeetsActive(s.kind.ability) else old(s.shouldBeActive)
      ensures old(Synchronized()) ==> Synchronized()
    {
      var buffRef := Ref(buff);
      activeWatchedBuffs := activeWatchedBuffs + {buffRef};
      UpdateAbilitiesForBuff(buffRef);
      if old(Synchronized()) {
        BuffEventKeepsSynchronized(buffRef);
      }
    }

    /** A buff was removed from the unit: it stops being active and its watchers are refreshed. */
    method BuffDeactivated(buff: BuffId)
      requires Valid()
      modifies this, WatcherSlots(Ref(buff))`shouldBeActive
      ensures Valid()
      ensures activeWatchedBuffs == old(activeWatchedBuffs) - {Ref(buff)}
      ensures abilitiesToBuffs == old(abilitiesToBuffs) && buffsToAbilities == old(buffsToAbilities)
      ensures abilitiesToMechanicSlots.Keys == old(abilitiesToMechanicSlots.Keys)
      ensures forall a :: a in old(abilitiesToMechanicSlots) ==>
        abilitiesToMechanicSlots[a] ==
          if a in Watchers(Ref(buff)) then Live(old(abilitiesToMechanicSlots[a])) else old(abilitiesToMechanicSlots[a])
      ensures forall s :: s in old(WatcherSlots(Ref(buff))) ==>
        s.shouldBeActive == if !s.collected then WatchSetMeetsActive(s.kind.ability) else old(s.shouldBeActive)
      ensures old(Synchronized()) ==> Synchronized()
    {
      var buffRef := Ref(buff);
      activeWatchedBuffs := activeWatchedBuffs - {buffRef};
      UpdateAbilitiesForBuff(buffRef);
      if old(Synchronized()) {
        BuffEventKeepsSynchronized(buffRef);
      }
    }

    /**
     * Pushes `ability`'s state to its slots, provided it has a watch-set and
     * a slot list; otherwise changes nothing.
     */
    method UpdateStateForAbility(ability: AbilityBlueprint)
      requires Valid()
      modifies this`abilitiesToMechanicSlots, SlotsOf(ability)`shouldBeActive
      ensures Valid()
      ensures abilitiesToMechanicSlots ==
        if ability in abilitiesToBuffs && ability in old(abilitiesToMechanicSlots)
        then old(abilitiesToMechanicSlots)[ability := Live(old(abilitiesToMechanicSlots[ability]))]
        else old(abilitiesToMechanicSlots)
      ensures forall s :: s in old(SlotsOf(ability)) ==>
        s.shouldBeActive == if !s.collected && ability in abilitiesToBuffs then WatchSetMeetsActive(ability)
                            else old(s.shouldBeActive)
    {
      if ability !in abilitiesToBuffs || ability !in abilitiesToMechanicSlots {
        return;
      }
      var shouldBeActive := AnyActive(abilitiesToBuffs[ability], activeWatchedBuffs);
      forall s | s in SlotsOf(ability) ensures s.kind.PseudoActivatable? {
        RegisteredUnder(abilitiesToMechanicSlots, ability, s);
      }
      UpdateSlotRefs(ability, shouldBeActive);
    }

    /**
     * Recomputes the state of every ability watching `buff` and pushes it to
     * their slots; a buff nobody watches changes nothing.
     */
    method UpdateAbilitiesForBuff(buff: BuffRef)
      requires Valid()
      modifies this`abilitiesToMechanicSlots, WatcherSlots(buff)`shouldBeActive
      ensures Valid()
      ensures abilitiesToMechanicSlots.Keys == old(abilitiesToMechanicSlots.Keys)
      ensures forall a :: a in old(abilitiesToMechanicSlots) ==>
        abilitiesToMechanicSlots[a] ==
          if a in Watchers(buff) then Live(old(abilitiesToMechanicSlots[a])) else old(abilitiesToMechanicSlots[a])
      ensures forall s :: s in old(WatcherSlots(buff)) ==>
        s.shouldBeActive == if !s.collected then WatchSetMeetsActive(s.kind.ability) else old(s.shouldBeActive)
    {
      if buff !in buffsToAbilities {
        return;
      }
      var abilities := buffsToAbilities[buff];
      var abilitiesToggleStatus := ToggleStatuses(abilities);
      // computing the statuses changes nothing, so the expired references are the same
      forall a | a in abilitiesToMechanicSlots
        ensures Live(abilitiesToMechanicSlots[a]) == Live(old(abilitiesToMechanicSlots[a]))
      {
        assert forall s :: s in Targets(abilitiesToMechanicSlots[a]) ==> allocated(s);
      }
      // every ability watching the buff has a watch-set, so all of them are toggled
      assert abilitiesToggleStatus.Keys == abilities;
      PushToggleStatuses(abilitiesToggleStatus);
    }

    /**
     * The first loop of `UpdateAbilitiesForBuff`: the state of each of
     * `abilities` that has a watch-set.
     */
    method ToggleStatuses(abilities: set<AbilityBlueprint>) returns (status: map<AbilityBlueprint, bool>)
      ensures status.Keys == abilities * abilitiesToBuffs.Keys
      ensures forall a :: a in status ==> status[a] == WatchSetMeetsActive(a)
    {
      status := map[];
      var pending := abilities;
      while pending != {}
        invariant pending <= abilities
        invariant status.Keys == (abilities - pending) * abilitiesToBuffs.Keys
        invariant forall a :: a in status ==> status[a] == WatchSetMeetsActive(a)
        decreases pending
      {
        var abilityBlueprint :| abilityBlueprint in pending;
        if abilityBlueprint in abilitiesToBuffs {
          status := status[abilityBlueprint := AnyActive(abilitiesToBuffs[abilityBlueprint], activeWatchedBuffs)];
        }
        pending := pending - {abilityBlueprint};
      }
    }

    /**
     * The second loop of `UpdateAbilitiesForBuff`: pushes each toggle status
     * to the slots of its ability, pruning expired references.
     */
    method PushToggleStatuses(status: map<AbilityBlueprint, bool>)
      requires SlotListsInvariant(abilitiesToMechanicSlots)
      modifies this`abilitiesToMechanicSlots, SlotsOfAll(status.Keys)`shouldBeActive
      ensures SlotListsInvariant(abilitiesToMechanicSlots)
      ensures abilitiesToMechanicSlots.Keys == old(abilitiesToMechanicSlots.Keys)
      ensures forall a :: a in old(abilitiesToMechanicSlots) ==>
        abilitiesToMechanicSlots[a] ==
          if a in status then Live(old(abilitiesToMechanicSlots[a])) else old(abilitiesToMechanicSlots[a])
      ensures forall s :: s in old(SlotsOfAll(status.Keys)) ==>
        s.kind.ability in status &&
        s.shouldBeActive == if !s.collected then status[s.kind.ability] else old(s.shouldBeActive)
    {
      ghost var slots0, expired0, targets, flags0 := SnapshotForPush(status);
      var remaining := status.Keys;
      while remaining != {}
        invariant remaining <= status.Keys
        invariant PushedFor(status, status.Keys - remaining, slots0, expired0, targets, flags0)
        decreases remaining
      {
        var abilityBlueprint :| abilityBlueprint in remaining;
        PushToggleStatus(status, abilityBlueprint, status.Keys - remaining, slots0, expired0, targets, flags0);
        assert status.Keys - remaining + {abilityBlueprint} == status.Keys - (remaining - {abilityBlueprint});
        remaining := remaining - {abilityBlueprint};
      }
      assert status.Keys - remaining == status.Keys;
    }

    /**
     * The values `PushToggleStatuses` compares its final state against.
     * Taking them (`TakeSnapshot`) and establishing the loop's invariant
     * for them (`PushedForStart`) are separate members so that each proof
     * stays small.
     */
    ghost method SnapshotForPush(status: map<AbilityBlueprint, bool>)
      returns (slots0: map<AbilityBlueprint, seq<WeakSlotRef>>,
               expired0: map<AbilityBlueprint, set<WeakSlotRef>>,
               targets: set<Slot>, flags0: map<Slot, bool>)
      requires SlotListsInvariant(abilitiesToMechanicSlots)
      ensures slots0 == abilitiesToMechanicSlots && targets == SlotsOfAll(status.Keys)
      ensures forall a :: a in slots0 ==> a in expired0 && Live(slots0[a]) == Except(slots0[a], expired0[a])
      ensures forall s :: s in targets ==> s in flags0 && flags0[s] == s.shouldBeActive
      ensures forall s :: s in targets ==>
        s.kind.PseudoActivatable? && s.kind.ability in status &&
        s.kind.ability in slots0 && s in Targets(slots0[s.kind.ability])
      ensures PushedFor(status, {}, slots0, expired0, targets, flags0)
    {
      slots0, expired0, targets, flags0 := TakeSnapshot(status);
      PushedForStart(status, slots0, expired0, targets, flags0);
    }

    /** Records the slot lists, their expired references and the flags of the slots of `status`'s abilities. */
    ghost method TakeSnapshot(status: map<AbilityBlueprint, bool>)
      returns (slots0: map<AbilityBlueprint, seq<WeakSlotRef>>,
               expired0: map<AbilityBlueprint, set<WeakSlotRef>>,
               targets: set<Slot>, flags0: map<Slot, bool>)
      requires SlotListsInvariant(abilitiesToMechanicSlots)
      ensures slots0 == abilitiesToMechanicSlots && targets == SlotsOfAll(status.Keys)
      ensures forall a :: a in slots0 ==> a in expired0 && expired0[a] == Expired(slots0[a])
      ensures forall s :: s in targets ==> s in flags0 && flags0[s] == s.shouldBeActive
      ensures forall s :: s in targets ==>
        s.kind.PseudoActivatable? && s.kind.ability in status &&
        s.kind.ability in slots0 && s in Targets(slots0[s.kind.ability])
      ensures forall a :: a in slots0 && a in status ==> Targets(slots0[a]) <= targets
    {
      slots0 := abilitiesToMechanicSlots;
      expired0 := map a | a in slots0 :: Expired(slots0[a]);
      targets := SlotsOfAll(status.Keys);
      flags0 := map s: Slot | s in targets :: s.shouldBeActive;
      forall s | s in targets
        ensures s.kind.PseudoActivatable? && s.kind.ability in status
        ensures s.kind.ability in slots0 && s in Targets(slots0[s.kind.ability])
      {
        var a: AbilityBlueprint, r: WeakSlotRef :| a in status && a in slots0 && r in slots0[a] && r.target == s;
        assert RefsOf(a, slots0[a]);
      }
      forall a | a in slots0 && a in status ensures Targets(slots0[a]) <= targets {
        forall s | s in Targets(slots0[a]) ensures s in targets {
          var r :| r in slots0[a] && r.target == s;
        }
      }
    }

    /** Before the loop of `PushToggleStatuses`, no ability has been handled. */
    lemma PushedForStart(status: map<AbilityBlueprint, bool>,
                         slots0: map<AbilityBlueprint, seq<WeakSlotRef>>,
                         expired0: map<AbilityBlueprint, set<WeakSlotRef>>,
                         targets: set<Slot>, flags0: map<Slot, bool>)
      requires SlotListsInvariant(abilitiesToMechanicSlots) && slots0 == abilitiesToMechanicSlots
      requires forall a :: a in slots0 ==> a in expired0 && expired0[a] == Expired(slots0[a])
      requires forall s :: s in targets ==> s in flags0 && flags0[s] == s.shouldBeActive
      requires forall a :: a in slots0 && a in status ==> Targets(slots0[a]) <= targets
      ensures PushedFor(status, {}, slots0, expired0, targets, flags0)
    {
    }

    /**
     * The state of `PushToggleStatuses` once the abilities in `done` have
     * been handled: their lists are pruned and their live slots show their
     * status; every other list and slot is as it was (`slots0`, `flags0`).
     */
    ghost predicate PushedFor(status: map<AbilityBlueprint, bool>, done: set<AbilityBlueprint>,
                              slots0: map<AbilityBlueprint, seq<WeakSlotRef>>,
                              expired0: map<AbilityBlueprint, set<WeakSlotRef>>,
                              targets: set<Slot>, flags0: map<Slot, bool>)
      reads this`abilitiesToMechanicSlots, targets`shouldBeActive, targets`collected
    {
      && slots0.Keys <= expired0.Keys && targets <= flags0.Keys
      && (forall a :: a in slots0 && a in status ==> Targets(slots0[a]) <= targets)
      // no `collected` field has changed, so the same references are expired
      && (forall a :: a in slots0 && a in status ==> Expired(slots0[a]) == expired0[a])
      && SlotListsInvariant(abilitiesToMechanicSlots)
      && abilitiesToMechanicSlots.Keys == slots0.Keys
      && (forall a :: a in slots0 ==>
            abilitiesToMechanicSlots[a] == if a in done then Except(slots0[a], expired0[a]) else slots0[a])
      && (forall s ::
            s in targets && s.kind.PseudoActivatable? && s.kind.ability in done &&
            s.kind.ability in status && !s.collected ==>
              s.shouldBeActive == status[s.kind.ability])
      && (forall s :: s in targets && !(s.kind.PseudoActivatable? && s.kind.ability in done && !s.collected) ==>
            s.shouldBeActive == flags0[s])
    }

    /** One iteration of `PushToggleStatuses`: handles `ability`. */
    method PushToggleStatus(status: map<AbilityBlueprint, bool>, ability: AbilityBlueprint,
                            ghost done: set<AbilityBlueprint>,
                            ghost slots0: map<AbilityBlueprint, seq<WeakSlotRef>>,
                            ghost expired0: map<AbilityBlueprint, set<WeakSlotRef>>,
                            ghost targets: set<Slot>, ghost flags0: map<Slot, bool>)
      requires PushedFor(status, done, slots0, expired0, targets, flags0)
      requires ability in status && ability !in done
      requires forall s :: s in targets ==>
        s.kind.PseudoActivatable? && s.kind.ability in slots0 && s in Targets(slots0[s.kind.ability])
      modifies this`abilitiesToMechanicSlots
      modifies (if ability in slots0 then Targets(slots0[ability]) else {})`shouldBeActive
      ensures PushedFor(status, done + {ability}, slots0, expired0, targets, flags0)
    {
      if ability in abilitiesToMechanicSlots {
        ghost var ownSlots := Targets(slots0[ability]);
        forall s | s in ownSlots ensures s.kind.ability == ability {
          RegisteredUnder(abilitiesToMechanicSlots, ability, s);
        }
        UpdateSlotRefs(ability, status[ability]);
        forall s | s in targets && s.kind.ability == ability ensures s in ownSlots {
        }
      }
    }

    /**
     * Writes `shouldBeActive` to every live pseudo-activatable slot of
     * `ability` and then drops the references whose slot has been collected,
     * keeping the others in order.
     */
    method UpdateSlotRefs(ability: AbilityBlueprint, shouldBeActive: bool)
      requires SlotListsInvariant(abilitiesToMechanicSlots)
      requires ability in abilitiesToMechanicSlots
      modifies this`abilitiesToMechanicSlots, SlotsOf(ability)`shouldBeActive
      ensures SlotListsInvariant(abilitiesToMechanicSlots)
      ensures abilitiesToMechanicSlots ==
        old(abilitiesToMechanicSlots)[ability := Live(old(abilitiesToMechanicSlots[ability]))]
      ensures forall s :: s in old(SlotsOf(ability)) ==>
        s.shouldBeActive == if !s.collected && s.kind.PseudoActivatable? then shouldBeActive
                            else old(s.shouldBeActive)
    {
      var slotRefs := abilitiesToMechanicSlots[ability];
      var slotRefsToRemove := PushToTargets(slotRefs, shouldBeActive);
      assert Distinct(slotRefs);
      var kept := RemoveEach(slotRefs, slotRefsToRemove);
      ExceptRestrict(slotRefs, (set r | r in slotRefsToRemove), Expired(slotRefs));
      FilterKeepsSlotLists(abilitiesToMechanicSlots, ability, Expired(slotRefs));
      abilitiesToMechanicSlots := abilitiesToMechanicSlots[ability := kept];
    }

    /**
     * The debug-only consistency check: returns the abilities it would
     * report, namely those that occur among the inverse map's values but are
     * not keys of the ability map. It changes nothing, and on a valid
     * registry it reports nothing.
     */
    method Validate() returns (unindexed: set<AbilityBlueprint>)
      ensures forall a :: a in unindexed <==>
        a !in abilitiesToBuffs && exists b :: b in buffsToAbilities && a in buffsToAbilities[b]
      ensures Valid() ==> unindexed == {}
    {
      var abilitiesInBuffsDictionary: set<AbilityBlueprint> := {};
      var buffs := buffsToAbilities.Keys;
      while buffs != {}
        invariant buffs <= buffsToAbilities.Keys
        invariant forall a :: a in abilitiesInBuffsDictionary <==>
          exists b :: b in buffsToAbilities.Keys - buffs && a in buffsToAbilities[b]
        decreases buffs
      {
        var b :| b in buffs;
        abilitiesInBuffsDictionary := abilitiesInBuffsDictionary + buffsToAbilities[b];
        buffs := buffs - {b};
      }

      unindexed := {};
      var pending := abilitiesInBuffsDictionary;
      while pending != {}
        invariant pending <= abilitiesInBuffsDictionary
        invariant forall a :: a in unindexed <==>
          a in abilitiesInBuffsDictionary - pending && a !in abilitiesToBuffs
        decreases pending
      {
        var abilityBlueprint :| abilityBlueprint in pending;
        if abilityBlueprint !in abilitiesToBuffs {
          unindexed := unindexed + {abilityBlueprint};
        }
        pending := pending - {abilityBlueprint};
      }
    }
  }
}
