/**
 * The game's blueprint data, as far as the registry looks at it. Blueprints
 * are immutable reference data, so they are values here.
 */
module Blueprints {
  import opened Wrappers

  /** Identity of an ability blueprint (its asset guid). */
  type AbilityId = string

  /** Identity of a buff blueprint (its asset guid). */
  type BuffId = string

  /**
   * `BlueprintBuffReference`: either the reference to no blueprint (the
   * shared null reference) or a reference to one buff blueprint. Two
   * references are equal exactly when they name the same blueprint.
   */
  datatype BuffRef = Null | Ref(buff: BuffId)

  /**
   * `BlueprintAbility` with the two components the registry reads:
   * `variants` is the `AbilityVariants` component (None when the blueprint
   * has none) and `pseudoActivatable` is the `BuffToWatch` of its
   * `PseudoActivatable` component (None when it has none; the buff
   * reference itself may still be the null reference).
   */
  datatype AbilityBlueprint = AbilityBlueprint(
    id: AbilityId,
    variants: Option<seq<AbilityBlueprint>>,
    pseudoActivatable: Option<BuffRef>)
}
