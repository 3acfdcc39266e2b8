/**
 * The decks API as transitions of an abstract store of decks and `deck_roles` rows. Every handler
 * is scoped to the requesting user: a deck that user does not own is reported as not found.
 */
module DeckRoutes {
  import opened Wrappers
  import opened RoleModel
  import opened DeckRoleModel

  /**
   * The `decks` table and the `deck_roles` table. The model keeps rows in insertion order and
   * returns them in that order; the queries themselves have no ORDER BY.
   */
  datatype DeckStore = DeckStore(decks: map<DeckId, Deck>, rows: seq<DeckRole>)

  /** A deck as the handlers return it: the row with its `deck_roles` included. */
  datatype DeckView = DeckView(id: DeckId, name: string, owner: UserId, roles: seq<DeckRole>)

  datatype DeckResponse =
    | DeckList(views: map<DeckId, DeckView>)
    | DeckFound(view: DeckView)
    | DeckCreated(view: DeckView)
    | DeckUpdated(view: DeckView)
    | DeckDeleted
    | DeckNotFound
    | DeckServerError

  // ---------------------------------------------------------------------------------------------
  // Rows of one deck
  // ---------------------------------------------------------------------------------------------

  /** The rows of deck `d`, in the model's table order: the `include` of a deck's `DeckRoles`. */
  function RowsOf(rows: seq<DeckRole>, d: DeckId): (r: seq<DeckRole>)
    ensures forall x :: x in r <==> x in rows && x.deckId == d
    ensures |r| <= |rows|
  {
    if rows == [] then []
    else (if rows[0].deckId == d then [rows[0]] else []) + RowsOf(rows[1..], d)
  }

  /** `DeckRole.destroy({ where: { deck_id: d } })`: the table without the rows of deck `d`. */
  function DropRows(rows: seq<DeckRole>, d: DeckId): (r: seq<DeckRole>)
    ensures forall x :: x in r <==> x in rows && x.deckId != d
    ensures |r| <= |rows|
  {
    if rows == [] then []
    else (if rows[0].deckId != d then [rows[0]] else []) + DropRows(rows[1..], d)
  }

  /** The rows `roles.map(...)` builds for deck `d`, one per request entry, in order. */
  function BuildRows(d: DeckId, entries: seq<RoleEntry>): (r: seq<DeckRole>)
    ensures |r| == |entries|
    ensures forall i | 0 <= i < |r| :: r[i] == BuildDeckRole(d, entries[i])
  {
    if entries == [] then [] else [BuildDeckRole(d, entries[0])] + BuildRows(d, entries[1..])
  }

  /**
   * `DeckRole.bulkCreate(newRows)`: one INSERT, so all rows are added or none. It fails exactly when
   * some row names a role that does not exist (the `role_id` foreign key); model validations such
   * as `quantity >= 1` do not run in a bulk insert.
   */
  function InsertRows(rows: seq<DeckRole>, newRows: seq<DeckRole>, knownRoles: set<RoleId>): (r: Option<seq<DeckRole>>)
    ensures r.Some? <==> forall i | 0 <= i < |newRows| :: newRows[i].roleId in knownRoles
    ensures r.Some? ==> r.value == rows + newRows
  {
    if forall i | 0 <= i < |newRows| :: newRows[i].roleId in knownRoles then Some(rows + newRows) else None
  }

  lemma {:induction false} RowsOfAppend(a: seq<DeckRole>, b: seq<DeckRole>, d: DeckId)
    ensures RowsOf(a + b, d) == RowsOf(a, d) + RowsOf(b, d)
  {
    if a != [] {
      assert (a + b)[1..] == a[1..] + b;
      RowsOfAppend(a[1..], b, d);
    } else {
      assert a + b == b;
    }
  }

  /** After dropping deck `d`'s rows, `d` has none and every other deck keeps its rows in order. */
  lemma {:induction false} RowsOfDropRows(rows: seq<DeckRole>, d: DeckId, e: DeckId)
    ensures RowsOf(DropRows(rows, d), e) == if e == d then [] else RowsOf(rows, e)
  {
    if rows != [] {
      RowsOfDropRows(rows[1..], d, e);
      var head := if rows[0].deckId != d then [rows[0]] else [];
      RowsOfAppend(head, DropRows(rows[1..], d), e);
    }
  }

  /** Rows built for deck `d` all belong to `d`. */
  lemma {:induction false} RowsOfBuildRows(d: DeckId, entries: seq<RoleEntry>, e: DeckId)
    ensures RowsOf(BuildRows(d, entries), e) == if e == d then BuildRows(d, entries) else []
  {
    if entries != [] {
      RowsOfBuildRows(d, entries[1..], e);
      RowsOfAppend([BuildDeckRole(d, entries[0])], BuildRows(d, entries[1..]), e);
    }
  }

  // ---------------------------------------------------------------------------------------------
  // Ownership and views
  // ---------------------------------------------------------------------------------------------

  /** `Deck.findOne({ where: { id, created_by: user } })` finds the deck. */
  predicate Owned(st: DeckStore, id: DeckId, user: UserId) {
    id in st.decks && st.decks[id].owner == user
  }

  /** A deck with its rows, as the handlers return it. */
  function View(st: DeckStore, id: DeckId): (v: DeckView)
    requires id in st.decks
    ensures v.id == id && v.owner == st.decks[id].owner && v.name == st.decks[id].name
    ensures forall x :: x in v.roles <==> x in st.rows && x.deckId == id
  {
    DeckView(id, st.decks[id].name, st.decks[id].owner, RowsOf(st.rows, id))
  }

  /**
   * Every row belongs to an existing deck and names a known role: what the two foreign keys of
   * `deck_roles` guarantee.
   */
  predicate RowsReferToDecks(st: DeckStore, knownRoles: set<RoleId>) {
    forall x | x in st.rows :: x.deckId in st.decks && x.roleId in knownRoles
  }

  /** Deck `k` and its rows are the same in both stores. */
  predicate SameDeck(st: DeckStore, st': DeckStore, k: DeckId) {
    (k in st.decks <==> k in st'.decks)
    && (k in st.decks ==> st'.decks[k] == st.decks[k])
    && RowsOf(st'.rows, k) == RowsOf(st.rows, k)
  }

  // ---------------------------------------------------------------------------------------------
  // GET / and GET /:id
  // ---------------------------------------------------------------------------------------------

  /** GET `/`: exactly the decks the user owns, each with its rows. */
  function ListDecks(st: DeckStore, user: UserId): (r: DeckResponse)
    ensures r.DeckList?
    ensures forall k :: k in r.views <==> Owned(st, k, user)
    ensures forall k | k in r.views :: r.views[k].owner == user && r.views[k].roles == RowsOf(st.rows, k)
  {
    DeckList(map k | k in st.decks && st.decks[k].owner == user :: View(st, k))
  }

  /** GET `/:id`: the deck when the user owns it, otherwise 404. */
  function GetDeck(st: DeckStore, id: DeckId, user: UserId): (r: DeckResponse)
    ensures r.DeckFound? <==> Owned(st, id, user)
    ensures !r.DeckFound? ==> r == DeckNotFound
    ensures r.DeckFound? ==> r.view.id == id && r.view.owner == user && r.view.roles == RowsOf(st.rows, id)
  {
    if Owned(st, id, user) then DeckFound(View(st, id)) else DeckNotFound
  }

  // ---------------------------------------------------------------------------------------------
  // Writing a deck's rows
  // ---------------------------------------------------------------------------------------------

  /**
   * `DeckRole.bulkCreate` of the rows built for deck `d`: on success the deck's rows are followed by
   * the new ones and no other deck's rows change; on failure nothing is written.
   */
  function AddDeckRows(st: DeckStore, d: DeckId, entries: seq<RoleEntry>, knownRoles: set<RoleId>): (r: Option<DeckStore>)
    ensures r.Some? <==> forall i | 0 <= i < |entries| :: entries[i].roleId in knownRoles
    ensures r.Some? ==>
      && r.value.decks == st.decks
      && RowsOf(r.value.rows, d) == RowsOf(st.rows, d) + BuildRows(d, entries)
      && (forall k | k != d :: RowsOf(r.value.rows, k) == RowsOf(st.rows, k))
      && (forall x :: x in r.value.rows <==> x in st.rows || x in BuildRows(d, entries))
  {
    var added := BuildRows(d, entries);
    match InsertRows(st.rows, added, knownRoles)
    case None =>
      assert !forall i | 0 <= i < |entries| :: entries[i].roleId in knownRoles by {
        var i :| 0 <= i < |added| && added[i].roleId !in knownRoles;
        assert entries[i].roleId == added[i].roleId;
      }
      None
    case Some(rows) =>
      RowsOfAppend(st.rows, added, d);
      RowsOfBuildRows(d, entries, d);
      RowsOfAppendOthers(st.rows, added, d);
      Some(st.(rows := rows))
  }

  /** Appending rows of deck `d` leaves every other deck's rows as they were. */
  lemma {:induction false} RowsOfAppendOthers(rows: seq<DeckRole>, added: seq<DeckRole>, d: DeckId)
    requires forall i | 0 <= i < |added| :: added[i].deckId == d
    ensures forall k | k != d :: RowsOf(rows + added, k) == RowsOf(rows, k)
  {
    forall k | k != d ensures RowsOf(rows + added, k) == RowsOf(rows, k) {
      RowsOfAppend(rows, added, k);
      RowsOfOtherDeck(added, k);
    }
  }

  /** Rows none of which belongs to deck `k` give `k` no rows. */
  lemma {:induction false} RowsOfOtherDeck(rows: seq<DeckRole>, k: DeckId)
    requires forall x | x in rows :: x.deckId != k
    ensures RowsOf(rows, k) == []
  {
    if rows != [] {
      assert rows[0] in rows;
      RowsOfOtherDeck(rows[1..], k);
    }
  }

  /** `DeckRole.destroy` for deck `d`: the deck has no rows left and every other deck keeps its rows. */
  function ClearDeckRows(st: DeckStore, d: DeckId): (r: DeckStore)
    ensures r.decks == st.decks
    ensures RowsOf(r.rows, d) == []
    ensures forall k | k != d :: RowsOf(r.rows, k) == RowsOf(st.rows, k)
    ensures forall x :: x in r.rows <==> x in st.rows && x.deckId != d
  {
    DropRowsOthers(st.rows, d);
    RowsOfDropRows(st.rows, d, d);
    st.(rows := DropRows(st.rows, d))
  }

  /** Dropping deck `d`'s rows leaves every other deck's rows as they were. */
  lemma {:induction false} DropRowsOthers(rows: seq<DeckRole>, d: DeckId)
    ensures forall k | k != d :: RowsOf(DropRows(rows, d), k) == RowsOf(rows, k)
  {
    forall k | k != d ensures RowsOf(DropRows(rows, d), k) == RowsOf(rows, k) {
      RowsOfDropRows(rows, d, k);
    }
  }

  // ---------------------------------------------------------------------------------------------
  // POST /
  // ---------------------------------------------------------------------------------------------

  /**
   * POST `/`: create a deck owned by the user, then insert one row per entry when `roles` is a
   * non-empty array. A missing or over-long name fails the create and changes nothing; a failed
   * insert leaves the new deck without rows and answers 500.
   */
  function CreateDeck(st: DeckStore, user: UserId, name: Option<string>, roles: Option<seq<RoleEntry>>,
                      knownRoles: set<RoleId>, newId: DeckId): (out: (DeckStore, DeckResponse))
    requires newId !in st.decks
    ensures out.1.DeckCreated? || out.1 == DeckServerError
    ensures !AcceptsDeckName(name) ==> out == (st, DeckServerError)
    // the deck row exists whenever the name was accepted, even if the insert failed
    ensures AcceptsDeckName(name) ==> out.0.decks == st.decks[newId := Deck(name.value, user)]
    ensures out.1.DeckCreated? ==>
      && out.1.view == View(out.0, newId)
      && out.1.view.owner == user && out.1.view.name == name.value
      && RowsOf(out.0.rows, newId) == RowsOf(st.rows, newId) + (if roles.Some? then BuildRows(newId, roles.value) else [])
    ensures out.1.DeckServerError? ==> out.0.rows == st.rows
    ensures forall k | k != newId :: SameDeck(st, out.0, k)
  {
    if !AcceptsDeckName(name) then (st, DeckServerError)
    else
      var created := st.(decks := st.decks[newId := Deck(name.value, user)]);
      if roles.Some? && |roles.value| > 0 then
        match AddDeckRows(created, newId, roles.value, knownRoles)
        case None => (created, DeckServerError)
        case Some(done) => (done, DeckCreated(View(done, newId)))
      else
        assert roles.Some? ==> BuildRows(newId, roles.value) == [];
        (created, DeckCreated(View(created, newId)))
  }

  // ---------------------------------------------------------------------------------------------
  // PUT /:id
  // ---------------------------------------------------------------------------------------------

  /** The `roles` part of PUT `/:id` on an owned deck: clear its rows, then insert the new ones if any. */
  function ReplaceDeckRows(st: DeckStore, id: DeckId, entries: seq<RoleEntry>, knownRoles: set<RoleId>)
    : (out: (DeckStore, DeckResponse))
    requires id in st.decks
    ensures out.1.DeckUpdated? || out.1.DeckServerError?
    ensures out.0.decks == st.decks
    ensures out.1.DeckUpdated? ==> out.1.view == View(out.0, id) && RowsOf(out.0.rows, id) == BuildRows(id, entries)
    ensures out.1.DeckServerError? ==> RowsOf(out.0.rows, id) == []
    ensures forall k | k != id :: RowsOf(out.0.rows, k) == RowsOf(st.rows, k)
  {
    var cleared := ClearDeckRows(st, id);
    if |entries| > 0 then
      match AddDeckRows(cleared, id, entries, knownRoles)
      case None => (cleared, DeckServerError)
      case Some(done) => (done, DeckUpdated(View(done, id)))
    else
      assert BuildRows(id, entries) == [];
      (cleared, DeckUpdated(View(cleared, id)))
  }

  /**
   * PUT `/:id`: rename the deck (an absent name keeps it) and, when `roles` is given, replace all
   * of its rows. The steps are not in a transaction: a failed insert leaves the deck renamed and
   * without rows.
   */
  function UpdateDeck(st: DeckStore, id: DeckId, user: UserId, name: Option<string>, roles: Option<seq<RoleEntry>>,
                      knownRoles: set<RoleId>): (out: (DeckStore, DeckResponse))
    ensures out.1.DeckNotFound? <==> !Owned(st, id, user)
    ensures out.1.DeckNotFound? ==> out.0 == st
    ensures out.1.DeckUpdated? || out.1.DeckNotFound? || out.1.DeckServerError?
    // an over-long name fails the row update before anything is written
    ensures Owned(st, id, user) && name.Some? && |name.value| > MaxDeckNameLength ==> out == (st, DeckServerError)
    ensures out.1.DeckUpdated? ==>
      && out.0.decks == st.decks[id := Deck(name.GetOr(st.decks[id].name), user)]
      && out.1.view == View(out.0, id)
    // with `roles` the deck's rows are exactly the new ones; without, they are kept
    ensures out.1.DeckUpdated? && roles.Some? ==> RowsOf(out.0.rows, id) == BuildRows(id, roles.value)
    ensures out.1.DeckUpdated? && roles.None? ==> out.0.rows == st.rows
    ensures out.1.DeckServerError? && Owned(st, id, user) && |name.GetOr([])| <= MaxDeckNameLength ==>
      RowsOf(out.0.rows, id) == []
    ensures forall k | k != id :: SameDeck(st, out.0, k)
  {
    if !Owned(st, id, user) then (st, DeckNotFound)
    else if name.Some? && |name.value| > MaxDeckNameLength then (st, DeckServerError)
    else
      var renamed := st.(decks := st.decks[id := Deck(name.GetOr(st.decks[id].name), user)]);
      match roles
      case None => (renamed, DeckUpdated(View(renamed, id)))
      case Some(entries) => ReplaceDeckRows(renamed, id, entries, knownRoles)
  }

  // ---------------------------------------------------------------------------------------------
  // DELETE /:id
  // ---------------------------------------------------------------------------------------------

  /** DELETE `/:id`: the deck goes, and with it, by the cascade, all of its rows. */
  function DeleteDeck(st: DeckStore, id: DeckId, user: UserId): (out: (DeckStore, DeckResponse))
    ensures out.1.DeckDeleted? <==> Owned(st, id, user)
    ensures !out.1.DeckDeleted? ==> out == (st, DeckNotFound)
    ensures out.1.DeckDeleted? ==>
      && out.0.decks == st.decks - {id}
      && forall x :: x in out.0.rows <==> x in st.rows && x.deckId != id
    ensures forall k | k != id :: SameDeck(st, out.0, k)
  {
    if !Owned(st, id, user) then (st, DeckNotFound)
    else (ClearDeckRows(st, id).(decks := st.decks - {id}), DeckDeleted)
  }

  // ---------------------------------------------------------------------------------------------
  // Properties across requests
  // ---------------------------------------------------------------------------------------------

  /** Every mutation keeps the rows pointing at existing decks and known roles. */
  lemma {:induction false} CreateKeepsReferences(st: DeckStore, user: UserId, name: Option<string>, roles: Option<seq<RoleEntry>>,
                              knownRoles: set<RoleId>, newId: DeckId)
    requires newId !in st.decks && RowsReferToDecks(st, knownRoles)
    ensures RowsReferToDecks(CreateDeck(st, user, name, roles, knownRoles, newId).0, knownRoles)
  {
    var out := CreateDeck(st, user, name, roles, knownRoles, newId);
    if AcceptsDeckName(name) && roles.Some? && |roles.value| > 0 {
      var created := st.(decks := st.decks[newId := Deck(name.value, user)]);
      var r := AddDeckRows(created, newId, roles.value, knownRoles);
      if r.Some? {
        assert out.0 == r.value;
        forall x | x in out.0.rows ensures x.deckId in out.0.decks && x.roleId in knownRoles {
          if x !in st.rows {
            var added := BuildRows(newId, roles.value);
            var i :| 0 <= i < |added| && added[i] == x;
            assert x.roleId == roles.value[i].roleId;
          }
        }
      }
    }
  }

  lemma {:induction false} UpdateKeepsReferences(st: DeckStore, id: DeckId, user: UserId, name: Option<string>, roles: Option<seq<RoleEntry>>,
                              knownRoles: set<RoleId>)
    requires RowsReferToDecks(st, knownRoles)
    ensures RowsReferToDecks(UpdateDeck(st, id, user, name, roles, knownRoles).0, knownRoles)
  {
    var out := UpdateDeck(st, id, user, name, roles, knownRoles);
    if Owned(st, id, user) && !(name.Some? && |name.value| > MaxDeckNameLength) && roles.Some? {
      var renamed := st.(decks := st.decks[id := Deck(name.GetOr(st.decks[id].name), user)]);
      var cleared := ClearDeckRows(renamed, id);
      assert out == ReplaceDeckRows(renamed, id, roles.value, knownRoles);
      if |roles.value| > 0 && AddDeckRows(cleared, id, roles.value, knownRoles).Some? {
        assert out.0 == AddDeckRows(cleared, id, roles.value, knownRoles).value;
        forall x | x in out.0.rows ensures x.deckId in out.0.decks && x.roleId in knownRoles {
          if x !in cleared.rows {
            var added := BuildRows(id, roles.value);
            var i :| 0 <= i < |added| && added[i] == x;
            assert x.roleId == roles.value[i].roleId;
          }
        }
      }
    }
  }

  lemma {:induction false} DeleteKeepsReferences(st: DeckStore, id: DeckId, user: UserId, knownRoles: set<RoleId>)
    requires RowsReferToDecks(st, knownRoles)
    ensures RowsReferToDecks(DeleteDeck(st, id, user).0, knownRoles)
  {
  }

  /** In a store whose rows refer to existing decks, a created deck holds exactly the supplied rows. */
  lemma {:induction false} CreatedDeckHoldsSuppliedRows(st: DeckStore, user: UserId, name: Option<string>, roles: Option<seq<RoleEntry>>,
                                     knownRoles: set<RoleId>, newId: DeckId)
    requires newId !in st.decks && RowsReferToDecks(st, knownRoles)
    requires CreateDeck(st, user, name, roles, knownRoles, newId).1.DeckCreated?
    ensures CreateDeck(st, user, name, roles, knownRoles, newId).1.view.roles
            == if roles.Some? then BuildRows(newId, roles.value) else []
  {
    RowsOfOtherDeck(st.rows, newId);
  }

  /** Two stores that agree on the decks `user` owns give `user` the same listing. */
  lemma {:induction false} ListDecksAgree(st: DeckStore, st': DeckStore, user: UserId)
    requires forall k :: Owned(st, k, user) <==> Owned(st', k, user)
    requires forall k | Owned(st, k, user) :: SameDeck(st, st', k)
    ensures ListDecks(st, user) == ListDecks(st', user)
  {
    var a, b := ListDecks(st, user).views, ListDecks(st', user).views;
    assert a.Keys == b.Keys;
    forall k | k in a ensures a[k] == b[k] {
      assert SameDeck(st, st', k);
    }
  }

  /** A user's requests never change what another user sees. */
  lemma {:induction false} OtherUsersUnaffected(st: DeckStore, user: UserId, other: UserId, id: DeckId, name: Option<string>,
                             roles: Option<seq<RoleEntry>>, knownRoles: set<RoleId>, newId: DeckId)
    requires user != other && newId !in st.decks
    ensures ListDecks(CreateDeck(st, user, name, roles, knownRoles, newId).0, other) == ListDecks(st, other)
    ensures ListDecks(UpdateDeck(st, id, user, name, roles, knownRoles).0, other) == ListDecks(st, other)
    ensures ListDecks(DeleteDeck(st, id, user).0, other) == ListDecks(st, other)
  {
    var c := CreateDeck(st, user, name, roles, knownRoles, newId).0;
    assert forall k :: Owned(st, k, other) <==> Owned(c, k, other) by {
      forall k ensures Owned(st, k, other) <==> Owned(c, k, other) {
        if k != newId {
          assert SameDeck(st, c, k);
        }
      }
    }
    ListDecksAgree(st, c, other);
    var u := UpdateDeck(st, id, user, name, roles, knownRoles).0;
    assert forall k :: Owned(st, k, other) <==> Owned(u, k, other) by {
      forall k ensures Owned(st, k, other) <==> Owned(u, k, other) {
        if k != id {
          assert SameDeck(st, u, k);
        }
      }
    }
    ListDecksAgree(st, u, other);
    var d := DeleteDeck(st, id, user).0;
    assert forall k :: Owned(st, k, other) <==> Owned(d, k, other) by {
      forall k ensures Owned(st, k, other) <==> Owned(d, k, other) {
        if k != id {
          assert SameDeck(st, d, k);
        }
      }
    }
    ListDecksAgree(st, d, other);
  }

  /** After a delete the deck is gone: reading it again is a 404. */
  lemma {:induction false} DeletedDeckIsGone(st: DeckStore, id: DeckId, user: UserId, reader: UserId)
    requires DeleteDeck(st, id, user).1.DeckDeleted?
    ensures GetDeck(DeleteDeck(st, id, user).0, id, reader) == DeckNotFound
    ensures RowsOf(DeleteDeck(st, id, user).0.rows, id) == []
  {
    RowsOfDropRows(st.rows, id, id);
  }
}
