/** The `decks` and `deck_roles` tables: records, the quantity default and the quantity validation. */
module DeckRoleModel {
  import opened Wrappers
  import opened RoleModel

  type DeckId = nat

  const MaxDeckNameLength: nat := 100
  /** The `defaultValue` of `deck_roles.quantity`. */
  const DefaultQuantity: int := 1
  /** The `min` validation of `deck_roles.quantity`. */
  const MinQuantity: int := 1

  /** A row of `decks`: `name` and `created_by` are both not-null. */
  datatype Deck = Deck(name: string, owner: UserId)

  /** A row of `deck_roles`: `deck_id` and `role_id` are not-null foreign keys. */
  datatype DeckRole = DeckRole(deckId: DeckId, roleId: RoleId, quantity: int)

  /** One `{role_id, quantity}` element of a request's `roles` array; an absent quantity is `None`. */
  datatype RoleEntry = RoleEntry(roleId: RoleId, quantity: Option<int>)

  /** The `decks.name` column accepts the value: present and at most 100 characters. */
  predicate AcceptsDeckName(name: Option<string>) {
    name.Some? && |name.value| <= MaxDeckNameLength
  }

  /**
   * Building a `deck_roles` row for `deckId` from a request entry: an absent quantity takes the
   * column default, a given one is kept as it is (no validation runs here).
   */
  function BuildDeckRole(deckId: DeckId, e: RoleEntry): (dr: DeckRole)
    ensures dr.deckId == deckId && dr.roleId == e.roleId
    ensures e.quantity.None? ==> dr.quantity == DefaultQuantity
    ensures e.quantity.Some? ==> dr.quantity == e.quantity.value
  {
    DeckRole(deckId, e.roleId, e.quantity.GetOr(DefaultQuantity))
  }

  datatype DeckRoleError = QuantityBelowMinimum

  /** The model-level validation of a `deck_roles` row: it passes exactly when quantity is at least 1. */
  function ValidateDeckRole(dr: DeckRole): (r: Result<DeckRole, DeckRoleError>)
    ensures r.Success? <==> dr.quantity >= MinQuantity
    ensures r.Success? ==> r.value == dr
    ensures r.Failure? ==> r.error == QuantityBelowMinimum
  {
    if dr.quantity < MinQuantity then Failure(QuantityBelowMinimum) else Success(dr)
  }

  /** A row built from an entry passes validation exactly when the entry's quantity is absent or at least 1. */
  lemma {:induction false} BuiltDeckRoleValidation(deckId: DeckId, e: RoleEntry)
    ensures ValidateDeckRole(BuildDeckRole(deckId, e)).Success?
            <==> (e.quantity.None? || e.quantity.value >= MinQuantity)
  {
  }
}
