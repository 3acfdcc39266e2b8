/** The `roles` table: the Role record, its column constraints and how a request's fields become a record. */
module RoleModel {
  import opened Wrappers

  type RoleId = nat
  type UserId = nat

  /** Column widths and the integer range of the `roles` table. */
  const MaxNameLength: nat := 100
  const MaxTeamLength: nat := 20
  const MaxImageUrlLength: nat := 500
  const MaxImageHashLength: nat := 64
  const MinInt32: int := -0x8000_0000
  const MaxInt32: int := 0x7fff_ffff

  /** The four values the `team` column accepts (its `isIn` validation). */
  datatype Team = Villager | Werewolf | VillageWerewolf | Neutral

  const AllowedTeams: seq<string> := ["Villager", "Werewolf", "Village/Werewolf", "Neutral"]

  /** The string stored in the `team` column for a team. */
  function TeamName(t: Team): (s: string)
    ensures s in AllowedTeams
    ensures |s| <= MaxTeamLength
  {
    match t
    case Villager => "Villager"
    case Werewolf => "Werewolf"
    case VillageWerewolf => "Village/Werewolf"
    case Neutral => "Neutral"
  }

  /** The `isIn` validation: a string is accepted exactly when it names one of the four teams. */
  function ParseTeam(s: string): (t: Option<Team>)
    ensures t.Some? <==> s in AllowedTeams
    ensures t.Some? ==> TeamName(t.value) == s
  {
    if s == "Villager" then Some(Villager)
    else if s == "Werewolf" then Some(Werewolf)
    else if s == "Village/Werewolf" then Some(VillageWerewolf)
    else if s == "Neutral" then Some(Neutral)
    else None
  }

  /** Parsing the stored name of a team gives that team back. */
  lemma {:induction false} TeamNameRoundTrip(t: Team)
    ensures ParseTeam(TeamName(t)) == Some(t)
  {
  }

  /** A row of `roles`. `isOfficial` and `createdBy` are set by the server, never by the request. */
  datatype Role = Role(
    name: string,
    description: Option<string>,
    team: Team,
    score: int,
    imageUrl: Option<string>,
    imageHash: Option<string>,
    isOfficial: bool,
    createdBy: Option<UserId>)

  predicate IsInt32(x: int) {
    MinInt32 <= x <= MaxInt32
  }

  /** A nullable string column of the given width accepts the value. */
  predicate FitsColumn(v: Option<string>, width: nat) {
    v.None? || |v.value| <= width
  }

  /** The column constraints every stored role satisfies (the team enum is enforced by the type). */
  predicate ValidRole(r: Role) {
    && |r.name| <= MaxNameLength
    && IsInt32(r.score)
    && FitsColumn(r.imageUrl, MaxImageUrlLength)
    && FitsColumn(r.imageHash, MaxImageHashLength)
  }

  /**
   * The text fields of a create or update request. An absent field is `None`; for `score`,
   * `None` is the NaN that `parseInt` yields for a missing or non-numeric value.
   */
  datatype RoleFields = RoleFields(
    name: Option<string>,
    description: Option<string>,
    team: Option<string>,
    score: Option<int>)

  datatype RoleError =
    | NameMissing
    | NameTooLong
    | TeamMissing
    | TeamNotAllowed
    | ScoreNotInteger
    | ScoreOutOfRange
    | ImageUrlTooLong
    | ImageHashTooLong

  /** Writing a row with these column values: the not-null, enum, width and integer checks, first failure reported. */
  function CheckRole(
    name: Option<string>, description: Option<string>, team: Option<string>, score: Option<int>,
    imageUrl: Option<string>, imageHash: Option<string>, isOfficial: bool, createdBy: Option<UserId>
  ): (r: Result<Role, RoleError>)
    ensures r.Success? <==>
      && name.Some? && |name.value| <= MaxNameLength
      && team.Some? && team.value in AllowedTeams
      && score.Some? && IsInt32(score.value)
      && FitsColumn(imageUrl, MaxImageUrlLength)
      && FitsColumn(imageHash, MaxImageHashLength)
    ensures r.Success? ==>
      && ValidRole(r.value)
      && r.value.name == name.value
      && r.value.description == description
      && TeamName(r.value.team) == team.value
      && r.value.score == score.value
      && r.value.imageUrl == imageUrl
      && r.value.imageHash == imageHash
      && r.value.isOfficial == isOfficial
      && r.value.createdBy == createdBy
  {
    if name.None? then Failure(NameMissing)
    else if |name.value| > MaxNameLength then Failure(NameTooLong)
    else if team.None? then Failure(TeamMissing)
    else if ParseTeam(team.value).None? then Failure(TeamNotAllowed)
    else if score.None? then Failure(ScoreNotInteger)
    else if !IsInt32(score.value) then Failure(ScoreOutOfRange)
    else if !FitsColumn(imageUrl, MaxImageUrlLength) then Failure(ImageUrlTooLong)
    else if !FitsColumn(imageHash, MaxImageHashLength) then Failure(ImageHashTooLong)
    else Success(Role(name.value, description, ParseTeam(team.value).value, score.value,
                      imageUrl, imageHash, isOfficial, createdBy))
  }

  /** `Role.create(roleData)`: a new role owned by `user`, `is_official` at its default `false`. */
  function NewRole(f: RoleFields, imageUrl: Option<string>, imageHash: Option<string>, user: UserId)
    : (r: Result<Role, RoleError>)
    ensures r.Success? <==>
      && f.name.Some? && |f.name.value| <= MaxNameLength
      && f.team.Some? && f.team.value in AllowedTeams
      && f.score.Some? && IsInt32(f.score.value)
      && FitsColumn(imageUrl, MaxImageUrlLength)
      && FitsColumn(imageHash, MaxImageHashLength)
    ensures r.Success? ==>
      && ValidRole(r.value)
      && !r.value.isOfficial
      && r.value.createdBy == Some(user)
      && Some(r.value.name) == f.name
      && r.value.description == f.description
      && Some(TeamName(r.value.team)) == f.team
      && r.value.imageUrl == imageUrl
      && r.value.imageHash == imageHash
      && r.value.score == f.score.value
  {
    CheckRole(f.name, f.description, f.team, f.score, imageUrl, imageHash, false, Some(user))
  }

  /**
   * `role.update(updates)`: fields the request leaves out keep their stored value (an update
   * drops undefined keys), while a NaN score is written and rejected.
   */
  function UpdatedRole(current: Role, f: RoleFields, imageUrl: Option<string>, imageHash: Option<string>)
    : (r: Result<Role, RoleError>)
    ensures ValidRole(current) && f == RoleFields(None, None, None, Some(current.score))
            && FitsColumn(imageUrl, MaxImageUrlLength) && FitsColumn(imageHash, MaxImageHashLength)
            ==> r == Success(current.(imageUrl := imageUrl, imageHash := imageHash))
    ensures f.score.None? ==> r.Failure?
    // the merged row is written exactly when it passes the column checks
    ensures r.Success? <==>
      && |f.name.GetOr(current.name)| <= MaxNameLength
      && (f.team.None? || f.team.value in AllowedTeams)
      && f.score.Some? && IsInt32(f.score.value)
      && FitsColumn(imageUrl, MaxImageUrlLength)
      && FitsColumn(imageHash, MaxImageHashLength)
    ensures r.Success? ==>
      && ValidRole(r.value)
      && r.value.score == f.score.value
      && (f.team.Some? ==> TeamName(r.value.team) == f.team.value)
      && r.value.name == f.name.GetOr(current.name)
      && r.value.description == (if f.description.Some? then f.description else current.description)
      && (f.team.None? ==> r.value.team == current.team)
      && r.value.imageUrl == imageUrl
      && r.value.imageHash == imageHash
      && r.value.isOfficial == current.isOfficial
      && r.value.createdBy == current.createdBy
  {
    CheckRole(Some(f.name.GetOr(current.name)),
              if f.description.Some? then f.description else current.description,
              Some(f.team.GetOr(TeamName(current.team))),
              f.score, imageUrl, imageHash, current.isOfficial, current.createdBy)
  }
}
