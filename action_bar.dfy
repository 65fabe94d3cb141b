/**
 * Action-bar slots as the registry sees them: UI objects it does not own,
 * held through weak references.
 */
module ActionBar {
  import opened Blueprints
  import opened Sequences

  /**
   * What a `MechanicActionBarSlot` is: an ordinary slot, or one that
   * implements `IPseudoActivatableMechanicsBarSlot` and so names the
   * ability it shows and the buff it watches.
   */
  datatype SlotKind =
    | Plain
    | PseudoActivatable(ability: AbilityBlueprint, buffToWatch: BuffRef)

  /**
   * A slot widget. `shouldBeActive` is the flag the registry sets;
   * `collected` is true once the UI has dropped the widget and the garbage
   * collector has reclaimed it. Only the environment sets `collected`, and it
   * never goes back to false.
   */
  class Slot {
    const kind: SlotKind
    var shouldBeActive: bool
    var collected: bool

    constructor (kind: SlotKind)
      ensures this.kind == kind && !shouldBeActive && !collected
    {
      this.kind := kind;
      shouldBeActive := false;
      collected := false;
    }
  }

  /**
   * `WeakReference<MechanicActionBarSlot>`: `TryGetTarget` succeeds exactly
   * when the target has not been collected. Each registration makes a new
   * reference object, so references compare by identity.
   */
  class WeakSlotRef {
    const target: Slot

    constructor (target: Slot)
      ensures this.target == target
    {
      this.target := target;
    }
  }

  /** The slots that the references in `refs` point to. */
  ghost function Targets(refs: seq<WeakSlotRef>): set<Slot> {
    set r | r in refs :: r.target
  }

  /** The references in `refs` whose target has been collected. */
  ghost function Expired(refs: seq<WeakSlotRef>): set<WeakSlotRef>
    reads Targets(refs)`collected
  {
    set r | r in refs && r.target.collected
  }

  /** `refs` with every expired reference removed, the rest in order. */
  ghost function Live(refs: seq<WeakSlotRef>): (r: seq<WeakSlotRef>)
    reads Targets(refs)`collected
    ensures forall x :: x in r ==> x in refs && !x.target.collected
    ensures forall x :: x in refs && !x.target.collected ==> x in r
  {
    Except(refs, Expired(refs))
  }

  /**
   * Appending a reference to a list and then dropping the expired ones keeps
   * the earlier live references in order, followed by the new one if its
   * slot is live.
   */
  lemma LiveAppend(refs: seq<WeakSlotRef>, r: WeakSlotRef)
    ensures Live(refs + [r]) == Live(refs) + (if r.target.collected then [] else [r])
  {
    var expired := Expired(refs + [r]);
    ExceptAppend(refs, [r], expired);
    ExceptRestrict(refs, expired, Expired(refs));
    assert [r][1..] == [];
    assert r in expired <==> r.target.collected;
  }

  /**
   * The first pass of the registry's `UpdateSlotRefs`: sets the flag of
   * every live pseudo-activatable target of `slotRefs` and returns the
   * references whose target has been collected.
   */
  method PushToTargets(slotRefs: seq<WeakSlotRef>, shouldBeActive: bool) returns (expired: seq<WeakSlotRef>)
    modifies Targets(slotRefs)`shouldBeActive
    ensures forall r :: r in expired ==> r in slotRefs && r.target.collected
    ensures forall r :: r in slotRefs && r.target.collected ==> r in expired
    ensures forall s :: s in Targets(slotRefs) ==>
      s.shouldBeActive == if !s.collected && s.kind.PseudoActivatable? then shouldBeActive
                          else old(s.shouldBeActive)
  {
    expired := [];
    for i := 0 to |slotRefs|
      invariant forall r :: r in expired ==> r in slotRefs && r.target.collected
      invariant forall j :: 0 <= j < i && slotRefs[j].target.collected ==> slotRefs[j] in expired
      invariant forall s :: s in Targets(slotRefs) ==>
        s.shouldBeActive ==
          if s in Targets(slotRefs[..i]) && !s.collected && s.kind.PseudoActivatable? then shouldBeActive
          else old(s.shouldBeActive)
    {
      var slot := slotRefs[i].target;
      assert slotRefs[..i + 1] == slotRefs[..i] + [slotRefs[i]];
      if !slot.collected {
        if slot.kind.PseudoActivatable? {
          slot.shouldBeActive := shouldBeActive;
        }
      } else {
        expired := expired + [slotRefs[i]];
      }
    }
    assert slotRefs[..|slotRefs|] == slotRefs;
  }
}
