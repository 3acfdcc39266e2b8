/**
 * The deck builder's selection: a map from role id to quantity, kept in insertion order like a
 * JavaScript `Map`, the three editing operations, the statistics computed over it, and the
 * request a save sends.
 */
module DeckBuilder {
  import opened Wrappers
  import opened RoleModel
  import opened DeckRoleModel
  import opened DeckRoutes

  /** One map entry: a role id and its quantity. */
  datatype Entry = Entry(roleId: RoleId, qty: int)

  predicate DistinctIds(s: seq<Entry>) {
    forall i, j | 0 <= i < j < |s| :: s[i].roleId != s[j].roleId
  }

  /** The selection: entries in insertion order, one per role id. */
  type Selection = s: seq<Entry> | DistinctIds(s) witness []

  predicate Contains(s: Selection, id: RoleId) {
    exists i | 0 <= i < |s| :: s[i].roleId == id
  }

  /** The position of `id` in the selection, if it is there. */
  function IndexOf(s: Selection, id: RoleId): (r: Option<nat>)
    ensures r.Some? ==> r.value < |s| && s[r.value].roleId == id
    ensures r.None? <==> !Contains(s, id)
  {
    if s == [] then None
    else if s[|s| - 1].roleId == id then Some(|s| - 1)
    else
      var r := IndexOf(s[..|s| - 1], id);
      assert r.None? ==> !Contains(s, id) by {
        if r.None? {
          forall i | 0 <= i < |s| ensures s[i].roleId != id {
            if i < |s| - 1 {
              assert s[i] == s[..|s| - 1][i];
            }
          }
        }
      }
      r
  }

  /** `map.get(id) || 0`: the quantity of `id`, or 0 when it is absent. */
  function Qty(s: Selection, id: RoleId): (q: int)
    ensures !Contains(s, id) ==> q == 0
    ensures forall i | 0 <= i < |s| && s[i].roleId == id :: q == s[i].qty
  {
    match IndexOf(s, id)
    case None => 0
    case Some(i) => s[i].qty
  }

  /** Every quantity is at least 1: what the editing operations keep. */
  predicate Positive(s: Selection) {
    forall i | 0 <= i < |s| :: s[i].qty >= 1
  }

  // ---------------------------------------------------------------------------------------------
  // Map operations
  // ---------------------------------------------------------------------------------------------

  /** `map.set(id, q)`: an existing key keeps its position, a new key goes to the end. */
  function Put(s: Selection, id: RoleId, q: int): (r: Selection)
    ensures Contains(r, id) && Qty(r, id) == q
    ensures forall k | k != id :: (Contains(r, k) <==> Contains(s, k)) && Qty(r, k) == Qty(s, k)
    ensures Contains(s, id) ==> |r| == |s| && forall i | 0 <= i < |s| :: r[i] == if s[i].roleId == id then Entry(id, q) else s[i]
    ensures !Contains(s, id) ==> r == s + [Entry(id, q)]
    ensures Positive(s) && q >= 1 ==> Positive(r)
  {
    match IndexOf(s, id)
    case Some(i) =>
      var r := s[i := Entry(id, q)];
      assert r[i].roleId == id;
      forall k | k != id ensures (Contains(r, k) <==> Contains(s, k)) && Qty(r, k) == Qty(s, k) {
        if Contains(r, k) {
          var j :| 0 <= j < |r| && r[j].roleId == k;
          assert j != i && s[j] == r[j];
        }
        if Contains(s, k) {
          var j :| 0 <= j < |s| && s[j].roleId == k;
          assert j != i && r[j] == s[j];
        }
      }
      r
    case None =>
      var r := s + [Entry(id, q)];
      assert r[|s|].roleId == id;
      forall k | k != id ensures (Contains(r, k) <==> Contains(s, k)) && Qty(r, k) == Qty(s, k) {
        if Contains(r, k) {
          var i :| 0 <= i < |r| && r[i].roleId == k;
          assert i < |s| && s[i] == r[i];
        }
        if Contains(s, k) {
          var i :| 0 <= i < |s| && s[i].roleId == k;
          assert r[i] == s[i];
        }
      }
      r
  }

  /** The selection without its `i`-th entry, the others in order. */
  function Without(s: Selection, i: nat): (r: Selection)
    requires i < |s|
    ensures |r| == |s| - 1
    ensures forall j | 0 <= j < |r| :: r[j] == if j < i then s[j] else s[j + 1]
  {
    var r := s[..i] + s[i + 1..];
    assert forall j | 0 <= j < |r| :: r[j] == if j < i then s[j] else s[j + 1];
    assert DistinctIds(r) by {
      forall a, b | 0 <= a < b < |r| ensures r[a].roleId != r[b].roleId {
        var a', b' := if a < i then a else a + 1, if b < i then b else b + 1;
        assert r[a] == s[a'] && r[b] == s[b'];
      }
    }
    r
  }

  /** `map.delete(id)`: the entry goes, the others keep their order. */
  function Delete(s: Selection, id: RoleId): (r: Selection)
    ensures !Contains(r, id) && Qty(r, id) == 0
    ensures forall k | k != id :: (Contains(r, k) <==> Contains(s, k)) && Qty(r, k) == Qty(s, k)
    ensures !Contains(s, id) ==> r == s
    ensures |r| <= |s|
    ensures Positive(s) ==> Positive(r)
  {
    match IndexOf(s, id)
    case None => s
    case Some(i) =>
      var r := Without(s, i);
      forall k ensures Contains(r, k) <==> Contains(s, k) && k != id {
        if Contains(s, k) && k != id {
          var j :| 0 <= j < |s| && s[j].roleId == k;
          assert j != i;
          assert r[if j < i then j else j - 1].roleId == k;
        }
        if Contains(r, k) {
          var j :| 0 <= j < |r| && r[j].roleId == k;
          assert s[if j < i then j else j + 1].roleId == k;
        }
      }
      r
  }

  // ---------------------------------------------------------------------------------------------
  // addRole, removeRole, setQuantity
  // ---------------------------------------------------------------------------------------------

  /** `addRole`: one more of `id`; an absent id counts as 0. Every other entry is unchanged. */
  function AddRole(s: Selection, id: RoleId): (r: Selection)
    ensures Contains(r, id) && Qty(r, id) == Qty(s, id) + 1
    ensures forall k | k != id :: (Contains(r, k) <==> Contains(s, k)) && Qty(r, k) == Qty(s, k)
    ensures Positive(s) ==> Positive(r)
  {
    Put(s, id, Qty(s, id) + 1)
  }

  /** `removeRole`: one fewer of `id` while more than one is left, otherwise the entry goes. */
  function RemoveRole(s: Selection, id: RoleId): (r: Selection)
    ensures Qty(s, id) > 1 ==> Contains(r, id) && Qty(r, id) == Qty(s, id) - 1
    ensures Qty(s, id) <= 1 ==> !Contains(r, id)
    ensures forall k | k != id :: (Contains(r, k) <==> Contains(s, k)) && Qty(r, k) == Qty(s, k)
    ensures Positive(s) ==> Positive(r)
  {
    var current := Qty(s, id);
    if current > 1 then Put(s, id, current - 1) else Delete(s, id)
  }

  /** `setQuantity`: a quantity of 0 or less removes the entry, anything else is stored as it is. */
  function SetQuantity(s: Selection, id: RoleId, q: int): (r: Selection)
    ensures q <= 0 ==> !Contains(r, id)
    ensures q > 0 ==> Contains(r, id) && Qty(r, id) == q
    ensures forall k | k != id :: (Contains(r, k) <==> Contains(s, k)) && Qty(r, k) == Qty(s, k)
    ensures Positive(s) ==> Positive(r)
  {
    if q <= 0 then Delete(s, id) else Put(s, id, q)
  }

  /** Setting a present key twice keeps only the second value. */
  lemma {:induction false} PutTwice(s: Selection, id: RoleId, a: int, b: int)
    requires Contains(s, id)
    ensures Put(Put(s, id, a), id, b) == Put(s, id, b)
  {
    var r, t := Put(Put(s, id, a), id, b), Put(s, id, b);
    assert |r| == |t| == |s|;
    forall i | 0 <= i < |s| ensures r[i] == t[i] {
    }
  }

  /** Setting a present key to the value it has changes nothing. */
  lemma {:induction false} PutCurrent(s: Selection, id: RoleId)
    requires Contains(s, id)
    ensures Put(s, id, Qty(s, id)) == s
  {
    var r := Put(s, id, Qty(s, id));
    forall i | 0 <= i < |s| ensures r[i] == s[i] {
      if s[i].roleId == id {
        assert s[i].qty == Qty(s, id);
      }
    }
  }

  /** Removing a role just added gives back the selection, entry order included. */
  lemma {:induction false} RemoveAfterAdd(s: Selection, id: RoleId)
    requires Positive(s)
    ensures RemoveRole(AddRole(s, id), id) == s
  {
    if Contains(s, id) {
      RemoveAfterAddPresent(s, id);
    } else {
      RemoveAfterAddAbsent(s, id);
    }
  }

  /** A present role goes from `q` to `q + 1` and back to `q`, in place. */
  lemma {:induction false} RemoveAfterAddPresent(s: Selection, id: RoleId)
    requires Positive(s) && Contains(s, id)
    ensures RemoveRole(AddRole(s, id), id) == s
  {
    var j :| 0 <= j < |s| && s[j].roleId == id;
    var q := Qty(s, id);
    assert q >= 1;
    var added := Put(s, id, q + 1);
    assert AddRole(s, id) == added;
    assert RemoveRole(added, id) == Put(added, id, q);
    PutTwice(s, id, q + 1, q);
    PutCurrent(s, id);
  }

  /** An absent role is appended with quantity 1 and then deleted from the end. */
  lemma {:induction false} RemoveAfterAddAbsent(s: Selection, id: RoleId)
    requires !Contains(s, id)
    ensures RemoveRole(AddRole(s, id), id) == s
  {
    var added := AddRole(s, id);
    assert added == s + [Entry(id, 1)];
    assert IndexOf(added, id) == Some(|s|);
    assert RemoveRole(added, id) == added[..|s|] + added[|s| + 1..];
    assert added[..|s|] == s;
  }

  /** Setting a role to the quantity it already has changes nothing. */
  lemma {:induction false} SetQuantityToCurrent(s: Selection, id: RoleId)
    requires Positive(s)
    ensures SetQuantity(s, id, Qty(s, id)) == s
  {
    if Contains(s, id) {
      var j :| 0 <= j < |s| && s[j].roleId == id;
      assert Qty(s, id) >= 1;
      PutCurrent(s, id);
    }
  }

  // ---------------------------------------------------------------------------------------------
  // Sums over the selection
  // ---------------------------------------------------------------------------------------------

  /** `Array.from(map.values()).reduce(...)`: a left fold of `+` over the entries, in map order. */
  function SumOver(s: seq<Entry>, f: Entry -> int): int {
    if s == [] then 0 else SumOver(s[..|s| - 1], f) + f(s[|s| - 1])
  }

  lemma {:induction false} SumAppend(a: seq<Entry>, b: seq<Entry>, f: Entry -> int)
    ensures SumOver(a + b, f) == SumOver(a, f) + SumOver(b, f)
  {
    if b == [] {
      assert a + b == a;
    } else {
      assert (a + b)[..|a + b| - 1] == a + b[..|b| - 1];
      SumAppend(a, b[..|b| - 1], f);
    }
  }

  lemma {:induction false} SumSingle(e: Entry, f: Entry -> int)
    ensures SumOver([e], f) == f(e)
  {
    assert [e][..0] == [];
  }

  /** A sum splits around any one of its entries. */
  lemma {:induction false} SumSplit(s: seq<Entry>, j: nat, f: Entry -> int)
    requires j < |s|
    ensures SumOver(s, f) == SumOver(s[..j], f) + f(s[j]) + SumOver(s[j + 1..], f)
  {
    var a, b := s[..j], s[j + 1..];
    assert SumOver(s, f) == SumOver(a + [s[j]], f) + SumOver(b, f) by {
      assert s == (a + [s[j]]) + b;
      SumAppend(a + [s[j]], b, f);
    }
    assert SumOver(a + [s[j]], f) == SumOver(a, f) + f(s[j]) by {
      SumAppend(a, [s[j]], f);
      SumSingle(s[j], f);
    }
  }

  /** Replacing one entry changes a sum by the difference of the two terms. */
  lemma {:induction false} SumReplace(s: seq<Entry>, j: nat, e: Entry, f: Entry -> int)
    requires j < |s|
    ensures SumOver(s[j := e], f) == SumOver(s, f) - f(s[j]) + f(e)
  {
    var t := s[j := e];
    SumSplit(s, j, f);
    SumSplit(t, j, f);
    assert t[..j] == s[..j] && t[j + 1..] == s[j + 1..];
  }

  /** Removing one entry takes its term out of a sum. */
  lemma {:induction false} SumRemove(s: seq<Entry>, j: nat, f: Entry -> int)
    requires j < |s|
    ensures SumOver(s[..j] + s[j + 1..], f) == SumOver(s, f) - f(s[j])
  {
    SumSplit(s, j, f);
    SumAppend(s[..j], s[j + 1..], f);
  }

  /** The term an entry for `id` contributes, or 0 when there is none. */
  function TermOf(s: Selection, id: RoleId, f: Entry -> int): int {
    if Contains(s, id) then f(Entry(id, Qty(s, id))) else 0
  }

  /** `map.set` replaces the term of `id` in every sum over the selection. */
  lemma {:induction false} SumPut(s: Selection, id: RoleId, q: int, f: Entry -> int)
    ensures SumOver(Put(s, id, q), f) == SumOver(s, f) - TermOf(s, id, f) + f(Entry(id, q))
  {
    match IndexOf(s, id)
    case Some(j) =>
      assert s[j] == Entry(id, Qty(s, id));
      SumReplace(s, j, Entry(id, q), f);
    case None =>
      SumAppend(s, [Entry(id, q)], f);
  }

  /** When one more copy of `id` adds `d` to its term, `addRole` adds `d` to the sum. */
  lemma {:induction false} SumAfterAdd(s: Selection, id: RoleId, f: Entry -> int, d: int)
    requires f(Entry(id, Qty(s, id) + 1)) == f(Entry(id, Qty(s, id))) + d
    requires f(Entry(id, 0)) == 0
    ensures SumOver(AddRole(s, id), f) == SumOver(s, f) + d
  {
    SumPut(s, id, Qty(s, id) + 1, f);
  }

  /** `map.delete` takes the term of `id` out of every sum over the selection. */
  lemma {:induction false} SumDelete(s: Selection, id: RoleId, f: Entry -> int)
    ensures SumOver(Delete(s, id), f) == SumOver(s, f) - TermOf(s, id, f)
  {
    match IndexOf(s, id)
    case Some(j) =>
      assert s[j] == Entry(id, Qty(s, id));
      SumRemove(s, j, f);
    case None =>
  }

  // ---------------------------------------------------------------------------------------------
  // totalPlayers and totalScore
  // ---------------------------------------------------------------------------------------------

  function QtyTerm(): Entry -> int {
    (e: Entry) => e.qty
  }

  /** `totalPlayers`: the sum of all quantities. */
  function TotalPlayers(s: Selection): int {
    SumOver(s, QtyTerm())
  }

  /** Adding a role adds one player. */
  lemma {:induction false} TotalPlayersAfterAdd(s: Selection, id: RoleId)
    ensures TotalPlayers(AddRole(s, id)) == TotalPlayers(s) + 1
  {
    SumPut(s, id, Qty(s, id) + 1, QtyTerm());
  }

  /** Removing a role takes one player away when the role is there, and nothing otherwise. */
  lemma {:induction false} TotalPlayersAfterRemove(s: Selection, id: RoleId)
    requires Positive(s)
    ensures TotalPlayers(RemoveRole(s, id)) == TotalPlayers(s) - (if Contains(s, id) then 1 else 0)
  {
    if Qty(s, id) > 1 {
      SumPut(s, id, Qty(s, id) - 1, QtyTerm());
    } else {
      SumDelete(s, id, QtyTerm());
      if Contains(s, id) {
        var j :| 0 <= j < |s| && s[j].roleId == id;
        assert Qty(s, id) == 1;
      }
    }
  }

  /** Setting a quantity swaps the old quantity for the new one, or for 0 when it removes the role. */
  lemma {:induction false} TotalPlayersAfterSet(s: Selection, id: RoleId, q: int)
    ensures TotalPlayers(SetQuantity(s, id, q)) == TotalPlayers(s) - Qty(s, id) + (if q > 0 then q else 0)
  {
    if q <= 0 {
      SumDelete(s, id, QtyTerm());
    } else {
      SumPut(s, id, q, QtyTerm());
    }
  }

  /** With every quantity at least 1, there are at least as many players as entries. */
  lemma {:induction false} TotalPlayersAtLeastEntries(s: Selection)
    requires Positive(s)
    ensures TotalPlayers(s) >= |s|
  {
    if s != [] {
      var init: Selection := s[..|s| - 1];
      TotalPlayersAtLeastEntries(init);
    }
  }

  /** A role of the catalog the page loaded. */
  datatype CatalogRole = CatalogRole(id: RoleId, role: Role)

  /** `roles.find(r => r.id === id)`: the first catalog role with that id. */
  function FindRole(catalog: seq<CatalogRole>, id: RoleId): (r: Option<Role>)
    ensures r.None? <==> forall i | 0 <= i < |catalog| :: catalog[i].id != id
    ensures r.Some? ==> exists i | 0 <= i < |catalog| :: catalog[i] == CatalogRole(id, r.value)
                                   && forall j | 0 <= j < i :: catalog[j].id != id
  {
    if catalog == [] then None
    else if catalog[0].id == id then
      assert catalog[0] == CatalogRole(id, catalog[0].role);
      Some(catalog[0].role)
    else
      var r := FindRole(catalog[1..], id);
      if r.Some? then
        var i :| 0 <= i < |catalog[1..]| && catalog[1..][i] == CatalogRole(id, r.value)
                 && forall j | 0 <= j < i :: catalog[1..][j].id != id;
        assert catalog[i + 1] == CatalogRole(id, r.value);
        assert forall j | 0 <= j < i + 1 :: catalog[j].id != id by {
          forall j | 0 <= j < i + 1 ensures catalog[j].id != id {
            if j > 0 {
              assert catalog[j] == catalog[1..][j - 1];
            }
          }
        }
        r
      else
        assert forall i | 0 <= i < |catalog| :: catalog[i].id != id by {
          forall i | 0 <= i < |catalog| ensures catalog[i].id != id {
            if i > 0 {
              assert catalog[i] == catalog[1..][i - 1];
            }
          }
        }
        r
  }

  /** An entry's share of the score: `score * qty` for a role the catalog has, 0 otherwise. */
  function ScoreTerm(catalog: seq<CatalogRole>): Entry -> int {
    (e: Entry) => match FindRole(catalog, e.roleId)
         case None => 0
         case Some(r) => r.score * e.qty
  }

  /** `totalScore`: the sum of `score * qty` over the roles the catalog knows. */
  function TotalScore(catalog: seq<CatalogRole>, s: Selection): int {
    SumOver(s, ScoreTerm(catalog))
  }

  /** The score one copy of `id` is worth: its catalog score, or 0 when the catalog lacks it. */
  function UnitScore(catalog: seq<CatalogRole>, id: RoleId): int {
    if FindRole(catalog, id).Some? then FindRole(catalog, id).value.score else 0
  }

  lemma {:induction false} ScoreTermAt(catalog: seq<CatalogRole>, id: RoleId, n: int)
    ensures ScoreTerm(catalog)(Entry(id, n)) == UnitScore(catalog, id) * n
  {
  }

  lemma {:induction false} MulSucc(a: int, b: int)
    ensures a * (b + 1) == a * b + a
  {
  }

  /** One more copy of a role adds its unit score to the entry's term. */
  lemma {:induction false} ScoreTermStep(catalog: seq<CatalogRole>, id: RoleId, q: int)
    ensures ScoreTerm(catalog)(Entry(id, q + 1)) == ScoreTerm(catalog)(Entry(id, q)) + UnitScore(catalog, id)
  {
    ScoreTermAt(catalog, id, q);
    ScoreTermAt(catalog, id, q + 1);
    MulSucc(UnitScore(catalog, id), q);
  }

  /** Adding a role adds its score once; a role missing from the catalog adds nothing. */
  lemma {:induction false} TotalScoreAfterAdd(catalog: seq<CatalogRole>, s: Selection, id: RoleId)
    ensures TotalScore(catalog, AddRole(s, id)) == TotalScore(catalog, s) + UnitScore(catalog, id)
  {
    ScoreTermStep(catalog, id, Qty(s, id));
    ScoreTermOfNone(catalog, id);
    SumAfterAdd(s, id, ScoreTerm(catalog), UnitScore(catalog, id));
  }

  /** An entry with quantity 0 adds nothing to the score. */
  lemma {:induction false} ScoreTermOfNone(catalog: seq<CatalogRole>, id: RoleId)
    ensures ScoreTerm(catalog)(Entry(id, 0)) == 0
  {
  }

  /** A selection of roles the catalog does not know scores 0. */
  lemma {:induction false} UnknownRolesScoreZero(catalog: seq<CatalogRole>, s: Selection)
    requires forall i | 0 <= i < |s| :: FindRole(catalog, s[i].roleId).None?
    ensures TotalScore(catalog, s) == 0
  {
    if s != [] {
      var init: Selection := s[..|s| - 1];
      UnknownRolesScoreZero(catalog, init);
    }
  }

  // ---------------------------------------------------------------------------------------------
  // teamDistribution
  // ---------------------------------------------------------------------------------------------

  /** The four counters of `teamDistribution`. */
  datatype TeamCounts = TeamCounts(villager: int, werewolf: int, villageWerewolf: int, neutral: int)

  function Count(d: TeamCounts, t: Team): int {
    match t
    case Villager => d.villager
    case Werewolf => d.werewolf
    case VillageWerewolf => d.villageWerewolf
    case Neutral => d.neutral
  }

  /** `distribution[team] += n`: the counter of `t` grows by `n`, the others stay. */
  function AddTo(d: TeamCounts, t: Team, n: int): (r: TeamCounts)
    ensures Count(r, t) == Count(d, t) + n
    ensures forall u | u != t :: Count(r, u) == Count(d, u)
  {
    match t
    case Villager => d.(villager := d.villager + n)
    case Werewolf => d.(werewolf := d.werewolf + n)
    case VillageWerewolf => d.(villageWerewolf := d.villageWerewolf + n)
    case Neutral => d.(neutral := d.neutral + n)
  }

  function CountTotal(d: TeamCounts): int {
    d.villager + d.werewolf + d.villageWerewolf + d.neutral
  }

  /** An entry's quantity when the catalog has its role. */
  function FoundQtyTerm(catalog: seq<CatalogRole>): Entry -> int {
    (e: Entry) => if FindRole(catalog, e.roleId).Some? then e.qty else 0
  }

  /** An entry's quantity when the catalog has its role and that role is on team `t`. */
  function TeamQtyTerm(catalog: seq<CatalogRole>, t: Team): Entry -> int {
    (e: Entry) => if FindRole(catalog, e.roleId).Some? && FindRole(catalog, e.roleId).value.team == t then e.qty else 0
  }

  /**
   * `teamDistribution`: all four teams start at 0 and each entry whose role the catalog has adds
   * its quantity to that role's team; the counters together hold every found role's quantity.
   */
  function TeamDistribution(catalog: seq<CatalogRole>, s: seq<Entry>): (d: TeamCounts)
    ensures forall t :: Count(d, t) == SumOver(s, TeamQtyTerm(catalog, t))
    ensures CountTotal(d) == SumOver(s, FoundQtyTerm(catalog))
  {
    if s == [] then TeamCounts(0, 0, 0, 0)
    else
      var e := s[|s| - 1];
      var d := TeamDistribution(catalog, s[..|s| - 1]);
      match FindRole(catalog, e.roleId)
      case None => d
      case Some(r) => AddTo(d, r.team, e.qty)
  }

  /** When every selected role is in the catalog, the distribution accounts for every player. */
  lemma {:induction false} DistributionCountsAllPlayers(catalog: seq<CatalogRole>, s: Selection)
    requires forall i | 0 <= i < |s| :: FindRole(catalog, s[i].roleId).Some?
    ensures CountTotal(TeamDistribution(catalog, s)) == TotalPlayers(s)
  {
    FoundQtyMatches(catalog, s);
  }

  lemma {:induction false} FoundQtyMatches(catalog: seq<CatalogRole>, s: seq<Entry>)
    requires forall i | 0 <= i < |s| :: FindRole(catalog, s[i].roleId).Some?
    ensures SumOver(s, FoundQtyTerm(catalog)) == SumOver(s, QtyTerm())
  {
    if s != [] {
      FoundQtyMatches(catalog, s[..|s| - 1]);
    }
  }

  // ---------------------------------------------------------------------------------------------
  // balanceStatus
  // ---------------------------------------------------------------------------------------------

  datatype Balance = WerewolfHeavy | VillagerHeavy | Balanced

  /** The label shown for each balance. */
  function BalanceText(b: Balance): string {
    match b
    case WerewolfHeavy => "Werewolf Heavy"
    case VillagerHeavy => "Villager Heavy"
    case Balanced => "Balanced"
  }

  /** `balanceStatus`: the sign of the total score beyond a margin of 5 either way. */
  function BalanceStatus(totalScore: int): (b: Balance)
    ensures b == WerewolfHeavy <==> totalScore > 5
    ensures b == VillagerHeavy <==> totalScore < -5
    ensures b == Balanced <==> -5 <= totalScore <= 5
  {
    if totalScore > 5 then WerewolfHeavy
    else if totalScore < -5 then VillagerHeavy
    else Balanced
  }

  function Mirror(b: Balance): Balance {
    match b
    case WerewolfHeavy => VillagerHeavy
    case VillagerHeavy => WerewolfHeavy
    case Balanced => Balanced
  }

  /** Negating the score swaps the two heavy sides and keeps a balanced deck balanced. */
  lemma {:induction false} BalanceIsSymmetric(totalScore: int)
    ensures BalanceStatus(-totalScore) == Mirror(BalanceStatus(totalScore))
  {
  }

  // ---------------------------------------------------------------------------------------------
  // saveDeck and loadDeck
  // ---------------------------------------------------------------------------------------------

  /** The characters `String.prototype.trim` removes: white space and line terminators. */
  predicate IsJsSpace(c: char) {
    || c == '\t' || c == '\n' || c == '\U{000B}' || c == '\U{000C}' || c == '\r' || c == ' '
    || c == '\U{00A0}' || c == '\U{1680}' || ('\U{2000}' <= c <= '\U{200A}')
    || c == '\U{2028}' || c == '\U{2029}' || c == '\U{202F}' || c == '\U{205F}'
    || c == '\U{3000}' || c == '\U{FEFF}'
  }

  /** `s` without leading white space. */
  function TrimStart(s: string): (t: string)
    ensures |t| <= |s| && t == s[|s| - |t|..]
    ensures t == [] || !IsJsSpace(t[0])
    ensures forall i | 0 <= i < |s| - |t| :: IsJsSpace(s[i])
  {
    if s != [] && IsJsSpace(s[0]) then
      var t := TrimStart(s[1..]);
      assert forall i | 1 <= i < |s| - |t| :: s[i] == s[1..][i - 1];
      t
    else s
  }

  /** `s` without trailing white space. */
  function TrimEnd(s: string): (t: string)
    ensures |t| <= |s| && t == s[..|t|]
    ensures t == [] || !IsJsSpace(t[|t| - 1])
    ensures forall i | |t| <= i < |s| :: IsJsSpace(s[i])
  {
    if s != [] && IsJsSpace(s[|s| - 1]) then TrimEnd(s[..|s| - 1]) else s
  }

  /** `String.prototype.trim`. */
  function Trim(s: string): string {
    TrimEnd(TrimStart(s))
  }

  /** A name trims to nothing exactly when all of its characters are white space. */
  lemma {:induction false} TrimEmptyIffBlank(s: string)
    ensures Trim(s) == [] <==> forall i | 0 <= i < |s| :: IsJsSpace(s[i])
  {
  }

  /** The body of `POST /decks` that a save sends. */
  datatype DeckRequest = DeckRequest(name: string, roles: seq<RoleEntry>)

  datatype SaveRefusal = NameRequired | SelectionEmpty

  /** One `{role_id, quantity}` per selected entry, in map order. */
  function Payload(s: seq<Entry>): (p: seq<RoleEntry>)
    ensures |p| == |s|
    ensures forall i | 0 <= i < |s| :: p[i] == RoleEntry(s[i].roleId, Some(s[i].qty))
  {
    if s == [] then [] else Payload(s[..|s| - 1]) + [RoleEntry(s[|s| - 1].roleId, Some(s[|s| - 1].qty))]
  }

  /**
   * The checks and the request of `saveDeck`: a name that trims to nothing, or an empty selection,
   * sends nothing; otherwise the untrimmed name goes with one entry per selected role.
   */
  function SaveDeck(name: string, s: Selection): (r: Result<DeckRequest, SaveRefusal>)
    ensures r.Failure? <==> (forall i | 0 <= i < |name| :: IsJsSpace(name[i])) || |s| == 0
    ensures (forall i | 0 <= i < |name| :: IsJsSpace(name[i])) ==> r == Failure(NameRequired)
    ensures r.Success? ==> r.value.name == name && r.value.roles == Payload(s)
  {
    TrimEmptyIffBlank(name);
    if Trim(name) == [] then Failure(NameRequired)
    else if |s| == 0 then Failure(SelectionEmpty)
    else Success(DeckRequest(name, Payload(s)))
  }

  /** The rows a saved selection becomes all pass the `quantity >= 1` validation. */
  lemma {:induction false} SavedRowsAreValid(name: string, s: Selection, d: DeckId)
    requires Positive(s) && SaveDeck(name, s).Success?
    ensures forall i | 0 <= i < |s| :: ValidateDeckRole(BuildRows(d, SaveDeck(name, s).value.roles)[i]).Success?
  {
  }

  /** The role ids the rows name. */
  function RoleIdsOf(rows: seq<DeckRole>): set<RoleId> {
    set r | r in rows :: r.roleId
  }

  /** Row `i` is the last row naming its role. */
  predicate IsLastRowOf(rows: seq<DeckRole>, i: int) {
    0 <= i < |rows| && forall j | i < j < |rows| :: rows[j].roleId != rows[i].roleId
  }

  /**
   * `loadDeck`: `map.set(role_id, quantity)` for each row of the deck, in order, so a role takes
   * the quantity of the last row that names it.
   */
  function LoadDeck(rows: seq<DeckRole>): (s: Selection)
    ensures forall k :: Contains(s, k) <==> k in RoleIdsOf(rows)
    ensures forall i | IsLastRowOf(rows, i) :: Qty(s, rows[i].roleId) == rows[i].quantity
  {
    if rows == [] then []
    else
      var init := rows[..|rows| - 1];
      var last := rows[|rows| - 1];
      assert rows == init + [last];
      assert RoleIdsOf(rows) == RoleIdsOf(init) + {last.roleId};
      var loaded := LoadDeck(init);
      var r := Put(loaded, last.roleId, last.quantity);
      assert forall i | IsLastRowOf(rows, i) :: Qty(r, rows[i].roleId) == rows[i].quantity by {
        forall i | IsLastRowOf(rows, i) ensures Qty(r, rows[i].roleId) == rows[i].quantity {
          if i < |rows| - 1 {
            assert IsLastRowOf(init, i) && init[i] == rows[i];
          }
        }
      }
      r
  }

  /** Some row names `k`, so there is a last one. */
  lemma {:induction false} LastRowExists(rows: seq<DeckRole>, k: RoleId) returns (i: nat)
    requires k in RoleIdsOf(rows)
    ensures IsLastRowOf(rows, i) && rows[i].roleId == k
  {
    var last := rows[|rows| - 1];
    if last.roleId == k {
      i := |rows| - 1;
    } else {
      var init := rows[..|rows| - 1];
      assert rows == init + [last];
      assert k in RoleIdsOf(init);
      i := LastRowExists(init, k);
      assert rows[i] == init[i];
    }
  }

  /** Loading the rows a saved selection became, in the order they were built, gives back the selection. */
  lemma {:induction false} LoadAfterSave(s: Selection, d: DeckId)
    ensures LoadDeck(BuildRows(d, Payload(s))) == s
  {
    if s != [] {
      var init: Selection := s[..|s| - 1];
      var last := s[|s| - 1];
      var rows := BuildRows(d, Payload(s));
      assert rows[..|rows| - 1] == BuildRows(d, Payload(init));
      LoadAfterSave(init, d);
      assert rows[|rows| - 1] == DeckRole(d, last.roleId, last.qty);
      assert !Contains(init, last.roleId);
      assert s == init + [last];
    }
  }

  /**
   * The server returns a deck's rows in no particular order: loading the rows of a saved selection
   * in ANY order gives the same roles with the same quantities.
   */
  lemma {:induction false} LoadAnyOrderAfterSave(s: Selection, d: DeckId, rows: seq<DeckRole>)
    requires multiset(rows) == multiset(BuildRows(d, Payload(s)))
    ensures forall k :: Contains(LoadDeck(rows), k) <==> Contains(s, k)
    ensures forall k :: Qty(LoadDeck(rows), k) == Qty(s, k)
  {
    var built := BuildRows(d, Payload(s));
    LoadAfterSave(s, d);
    assert forall x :: x in rows <==> x in built by {
      forall x ensures x in rows <==> x in built {
        assert x in rows <==> x in multiset(rows);
        assert x in built <==> x in multiset(built);
      }
    }
    assert RoleIdsOf(rows) == RoleIdsOf(built);
    forall k ensures Qty(LoadDeck(rows), k) == Qty(s, k) {
      if k in RoleIdsOf(rows) {
        var i := LastRowExists(rows, k);
        assert rows[i] in built;
        var j :| 0 <= j < |built| && built[j] == rows[i];
        assert built[j] == DeckRole(d, s[j].roleId, s[j].qty);
      }
    }
  }

  /** The request a save sends for roles the server knows creates the deck. */
  lemma {:induction false} SavedRequestIsCreated(st: DeckStore, user: UserId, name: string, s: Selection, knownRoles: set<RoleId>, newId: DeckId)
    requires newId !in st.decks
    requires SaveDeck(name, s).Success? && |name| <= MaxDeckNameLength
    requires forall i | 0 <= i < |s| :: s[i].roleId in knownRoles
    ensures CreateDeck(st, user, Some(name), Some(Payload(s)), knownRoles, newId).1.DeckCreated?
  {
    var p := Payload(s);
    var created := st.(decks := st.decks[newId := Deck(name, user)]);
    assert |p| > 0 && AddDeckRows(created, newId, p, knownRoles).Some? by {
      assert forall i | 0 <= i < |p| :: p[i].roleId in knownRoles;
    }
  }

  /**
   * The whole save-and-reopen cycle: a saved selection, created as a deck on the server and loaded
   * back from the returned deck, is the selection that was saved.
   */
  lemma {:induction false} SaveCreateLoad(st: DeckStore, user: UserId, name: string, s: Selection, knownRoles: set<RoleId>, newId: DeckId)
    requires newId !in st.decks && RowsReferToDecks(st, knownRoles)
    requires SaveDeck(name, s).Success? && |name| <= MaxDeckNameLength
    requires forall i | 0 <= i < |s| :: s[i].roleId in knownRoles
    ensures var req := SaveDeck(name, s).value;
      var out := CreateDeck(st, user, Some(req.name), Some(req.roles), knownRoles, newId);
      out.1.DeckCreated? && LoadDeck(out.1.view.roles) == s
  {
    assert SaveDeck(name, s).value == DeckRequest(name, Payload(s));
    SavedRequestIsCreated(st, user, name, s, knownRoles, newId);
    CreatedDeckHoldsSuppliedRows(st, user, Some(name), Some(Payload(s)), knownRoles, newId);
    LoadAfterSave(s, newId);
  }
}
