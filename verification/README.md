# Werewolf deck builder: role-image store, deck routes and selection algebra

A Dafny model of the three pieces of sequential logic in an "Ultimate Werewolf" deck-building
application. The application has an Express/Sequelize backend and a React frontend.

- **The deduplicated role-image store** covers the create, update and delete handlers of the roles API.
  - Each role may carry an uploaded image.
  - The image is stored once in an upload folder and identified by its SHA-256 digest.
  - A create is refused when another role already records the same digest.
  - A file in the folder with the same content is reused instead of written again.
  - A written file is removed again when the row write fails.
  - An image file is unlinked only while no other role points at its URL.
  - Every handler is a pure transition `Store -> (Store, Response)` over the `roles` table and the
    folder. The folder is a sequence of named files in the order they were written.
- **The deck routes** cover listing, reading, creating, updating and deleting decks.
  - Reads and writes are scoped to the deck's owner.
  - A PUT with `roles` replaces the deck's `deck_roles` rows wholesale.
  - A delete cascades to those rows.
- **The deck builder's selection** is the React page's `Map` from role id to quantity. It is modelled
  as an insertion-ordered sequence of entries with distinct ids. The model covers:
  - the three edit operations;
  - the aggregates over the selection: total players, total score, team distribution and balance;
  - the save-button checks and payload;
  - loading a saved deck back into a selection.
- **The record constraints** of the `roles` and `deck_roles` tables:
  - the team enumeration;
  - the column widths;
  - 32-bit scores;
  - the default quantity and the `min: 1` validation.

Modules, in dependency order:

- `Wrappers`: `Option` and `Result`.
- `RoleModel`: the Role record and its validation.
- `DeckRoleModel`: the Deck and DeckRole records.
- `Uploads`: the upload filter, generated file names, URLs, the folder and the folder scan.
- `RoleRoutes`: the POST, PUT and DELETE role handlers.
- `RoleStoreProperties`: the store invariants and multi-step properties.
- `DeckRoutes`: the deck handlers.
- `DeckBuilder`: the selection algebra and the save and load round-trip.

Outside influences become parameters:

- **The hash function.** `hash: Bytes -> Digest` is a parameter, and no property assumes it is
  collision-free.
- **The `Io` value** carries:
  - the generated file-name stem (`Date.now()` plus `Math.random()`);
  - the id the database assigns;
  - whether the folder scan throws;
  - whether a call before any file is released throws: `findByPk`, a `findOne` or the folder write.
    Each of these ends in a server error with the store unchanged, because a file already written
    is removed by the handler's cleanup;
  - whether the row write fails for a reason other than the column constraints.
- **The deck routes** take the set of existing role ids (the foreign-key target) and the new deck's id.

Two properties of the store are central: `Consistent` and `UniqueDigests`.

- **`Consistent`** says:
  - every role's image is in the folder with the recorded digest;
  - no two roles record the same digest.

  Create, delete and every successful update preserve it.
- **`UniqueDigests`** says no two folder files have the same content digest. Every handler preserves
  it when the folder scan works.

Two behaviours of the handlers are worth stating plainly:

- **Two roles never share an uploaded image.** The second upload of the same bytes is refused,
  because some role already records that digest (`roles.js:110-123`). Files are shared only by roles
  whose URL was set some other way. `RoleStoreProperties.SameImageTwiceIsRejected` proves that
  uploading the same bytes twice is refused.
- **Any error in the folder scan aborts the whole scan** and reports no match (`roles.js:43-46`).

The model reproduces a known gap in the update handler without fixing it.

- The old image file is unlinked before the row is updated.
- If the row update then fails, only the file this request wrote is cleaned up. The role keeps
  pointing at a file that is gone.
- `RoleStoreProperties.FailedUpdateLosesOldImage` exhibits a concrete consistent store where this
  happens. The store is no longer consistent afterwards.
- For this reason `UpdatePreservesConsistency` is stated only for successful updates.

## Model

| member | source | states |
|---|---|---|
| RoleModel.TeamName | backend/models/Role.js:12-17 | the stored name of every team is one of the four accepted strings and fits the 20-character column |
| RoleModel.ParseTeam | backend/models/Role.js:15-17 | a team string is accepted exactly when it is Villager, Werewolf, Village/Werewolf or Neutral, and the accepted team is stored under that same string |
| RoleModel.TeamNameRoundTrip | backend/models/Role.js:12-17 | parsing the stored name of a team gives back that team |
| RoleModel.CheckRole | backend/models/Role.js:4-39 | a row is accepted exactly when the name is present and at most 100 characters, the team is one of the four, the score is present and a 32-bit integer, the image URL is at most 500 and the hash at most 64 characters; an accepted row holds exactly the given values |
| RoleModel.NewRole | backend/routes/roles.js:96-104 | a created role carries the request's name, description, team and parsed score and the given image URL and hash, is owned by the requesting user and is not official; a missing name or team or a non-numeric score is refused |
| RoleModel.UpdatedRole | backend/routes/roles.js:172-179 | the update succeeds exactly when the merged row (request fields over stored ones) passes the column checks; a given name, team and score are written, fields the request leaves out keep their stored values, a non-numeric score is refused, ownership and `is_official` never change, and the image fields take the given values |
| DeckRoleModel.BuildDeckRole | backend/models/DeckRole.js:21-23 | a row built from a request entry belongs to the given deck and role, and takes quantity 1 when the entry gives none |
| DeckRoleModel.ValidateDeckRole | backend/models/DeckRole.js:24-26 | a deck-role row passes validation exactly when its quantity is at least 1 |
| DeckRoleModel.BuiltDeckRoleValidation | backend/models/DeckRole.js:21-26 | a row built from an entry is valid exactly when the entry's quantity is absent or at least 1 |
| Uploads.CheckUpload | backend/routes/roles.js:52-63 | an upload reaches the handler exactly when its MIME type is JPEG, PNG or WEBP and it is at most 5 MiB; a wrong type is reported as such before the size is looked at |
| Uploads.NewFileNameKeepsExtension | backend/routes/roles.js:140 | a generated file name has the same `path.extname` extension as the uploaded file's name and contains no slash |
| Uploads.UrlOf | backend/routes/roles.js:145 | the URL of a stored file lies under `/uploads/roles/`, and the file is found again from it |
| Uploads.UrlOfInjective | backend/routes/roles.js:136 | different files are served under different URLs |
| Uploads.Write | backend/routes/roles.js:143 | writing a file under a new name adds exactly that file with that content and changes no other file |
| Uploads.Unlink | backend/routes/roles.js:236 | unlinking removes exactly the named file and keeps every other file |
| Uploads.UnlinkWritten | backend/routes/roles.js:153-156 | removing the file just written gives back the folder as it was before the write |
| Uploads.FolderMatch | backend/routes/roles.js:28-47 | a reported match is a folder file whose content has the wanted digest; no match means either the scan failed or no file has that digest |
| Uploads.FirstMatch | backend/routes/roles.js:32-40 | the scan stops at the first file in folder order whose content has the wanted digest, and finds none exactly when no file has it |
| Uploads.CheckHashInUploadsFolder | backend/routes/roles.js:28-47 | the loop over the listing returns the same file as the scan definition: a file with the digest, or none when none has it |
| Uploads.UniqueDigestsMatch | backend/routes/roles.js:32-40 | in a folder without two files of equal digest, scanning for a file's own digest finds that very file |
| RoleRoutes.HashOwner | backend/routes/roles.js:186-191 | a duplicate owner is a role, other than the excluded one, recording the digest; none is found exactly when no such role exists |
| RoleRoutes.ReleaseImage | backend/routes/roles.js:266-285 | a role's image file is unlinked exactly when the role has a URL into the folder and no other role has the same URL; no other file changes |
| RoleRoutes.DiscardWritten | backend/routes/roles.js:152-156 | the failure clean-up removes only the file this request wrote, and nothing when it wrote none |
| RoleRoutes.PlaceImage | backend/routes/roles.js:131-147 | the image ends up in a folder file with the upload's digest: the first matching file without any write, or else a new file under the generated name, which keeps the extension |
| RoleRoutes.CommitCreate | backend/routes/roles.js:150-158 | the row is added under the new id exactly when it is valid and the write succeeds; otherwise the written file is removed and the table is unchanged |
| RoleRoutes.CreateWithImage | backend/routes/roles.js:106-156 | a throwing `findOne` or folder write gives a server error with nothing changed; otherwise an image whose digest some role records is refused, naming that role, and nothing changes, and a created role records the upload's digest |
| RoleRoutes.CreateAtPlacement | backend/routes/roles.js:131-151 | after placement, a failed create leaves the store as it was; a successful one adds exactly the new role, recording the upload's digest |
| RoleRoutes.CreateRole | backend/routes/roles.js:92-160 | POST `/`: any outcome other than Created leaves roles and files as they were; a filtered upload is refused with the filter's reason; a query or write throwing before the create gives a server error; otherwise a duplicate is refused, naming an existing owner of the digest; success adds exactly one valid role owned by the user; without an image the folder is untouched |
| RoleRoutes.CommitUpdate | backend/routes/roles.js:246-255 | the row is replaced exactly when the updated record is valid and the write succeeds; otherwise only the file this request wrote is removed |
| RoleRoutes.UpdateWithImage | backend/routes/roles.js:181-244 | an image recorded by another role is refused and nothing changes; the table changes only at the updated role, which records the new digest |
| RoleRoutes.UpdateRole | backend/routes/roles.js:163-256 | PUT `/:id`: a filtered upload is refused; a query or the folder write throwing before any file is released gives a server error; otherwise a missing role gives 404 and a duplicate of another role is refused; all of these leave the store unchanged; the table changes only at `id` and only on success; without an image the folder and the image fields are kept |
| RoleRoutes.DeleteRole | backend/routes/roles.js:259-293 | DELETE `/:id`: a missing role gives 404 without change; otherwise the role is removed, its file survives exactly when another role has the same URL, and every other file is untouched |
| RoleStoreProperties.NoSharedImageUrls | backend/routes/roles.js:108-123 | in a consistent store no two roles point at the same image URL |
| RoleStoreProperties.CreateReusesFolderFile | backend/routes/roles.js:131-137 | when the folder already holds a file with the upload's digest, create writes nothing and points the new role at that file |
| RoleStoreProperties.CreateWritesNewFile | backend/routes/roles.js:139-147 | when no folder file matches, a successful create adds exactly one file under the generated name, with the original extension, and the role points at it; a failed create leaves the folder as it was |
| RoleStoreProperties.PlaceImageKeepsImages | backend/routes/roles.js:131-147 | placing an image never disturbs the file of any existing role |
| RoleStoreProperties.CreatePreservesConsistency | backend/routes/roles.js:92-160 | create, whatever its outcome, keeps every role's image stored with its digest and keeps digests distinct between roles |
| RoleStoreProperties.CreateWithImagePreservesConsistency | backend/routes/roles.js:106-151 | a successful create with an image keeps the store consistent |
| RoleStoreProperties.CreateKeepsFolderDeduplicated | backend/routes/roles.js:125-147 | when the folder scan works, create never leaves two folder files with the same digest |
| RoleStoreProperties.CreateWithImageKeepsFolderDeduplicated | backend/routes/roles.js:131-147 | a successful create with an image writes only when no folder file has its digest, so the folder stays free of duplicates |
| RoleStoreProperties.SameImageTwiceIsRejected | backend/routes/roles.js:110-123 | after a role is created with an image, uploading the same bytes for a second role is refused, naming the first role, unless the duplicate query itself throws |
| RoleStoreProperties.CreateWritesOrReuses | backend/routes/roles.js:133-147 | a created role with an image records the digest of the uploaded bytes |
| RoleStoreProperties.ReleaseReplacedFate | backend/routes/roles.js:222-240 | the old image file survives the release exactly when the new URL is the same or another role has the old URL; no other file changes |
| RoleStoreProperties.UpdateOldFileFate | backend/routes/roles.js:222-240 | after an update with a non-duplicate image, whether or not the row write succeeds, the old file survives exactly when a call before the release threw, the new image landed on it, or another role points at it |
| RoleStoreProperties.ReuploadOwnImageKeepsFile | backend/routes/roles.js:185-223 | re-uploading a role's own image passes the duplicate check, finds its existing file, deletes nothing and keeps the URL |
| RoleStoreProperties.UpdatePreservesConsistency | backend/routes/roles.js:163-256 | a successful update keeps the store consistent |
| RoleStoreProperties.ReleaseKeepsOtherImages | backend/routes/roles.js:226-238 | releasing the replaced image keeps every other role's image and the new image file |
| RoleStoreProperties.UpdateKeepsFolderDeduplicated | backend/routes/roles.js:203-220 | when the folder scan works, update never leaves two folder files with the same digest |
| RoleStoreProperties.ReplacingImageKeepsFolderDeduplicated | backend/routes/roles.js:203-244 | an update that places a new image and releases the old one keeps folder digests distinct |
| RoleStoreProperties.ExampleUpdateLosesFile | backend/routes/roles.js:235-252 | in a concrete store, an update whose row write fails still unlinks the old image file |
| RoleStoreProperties.FailedUpdateLosesOldImage | backend/routes/roles.js:246-252 | a consistent store exists where a failed update leaves the role table unchanged but the role's image file gone, so the store is no longer consistent |
| RoleStoreProperties.DeletePreservesConsistency | backend/routes/roles.js:259-293 | delete keeps the store consistent |
| RoleStoreProperties.DeleteKeepsFolderDeduplicated | backend/routes/roles.js:266-285 | delete never leaves two folder files with the same digest |
| RoleStoreProperties.DeleteInConsistentStoreRemovesFile | backend/routes/roles.js:266-281 | in a consistent store, deleting a role always removes its image file |
| RoleStoreProperties.DeleteSharedImage | backend/routes/roles.js:266-284 | a file two roles point at survives deleting the first and goes with the second |
| DeckRoutes.RowsOf | backend/routes/decks.js:10-13 | the rows included with a deck are exactly the stored rows of that deck |
| DeckRoutes.InsertRows | backend/routes/decks.js:62 | a bulk insert is all-or-nothing: it succeeds exactly when every row names an existing role, and then appends all rows |
| DeckRoutes.AddDeckRows | backend/routes/decks.js:56-63 | on success the deck gains exactly the rows built from the entries, other decks keep theirs, and the decks table is untouched |
| DeckRoutes.ClearDeckRows | backend/routes/decks.js:97 | afterwards the deck has no rows, and every other deck keeps exactly its rows |
| DeckRoutes.View | backend/routes/decks.js:65-70 | a deck's response carries its id, name and owner and exactly its rows |
| DeckRoutes.ListDecks | backend/routes/decks.js:6-20 | the list holds exactly the decks the user owns, each with its own rows |
| DeckRoutes.GetDeck | backend/routes/decks.js:23-44 | a deck is returned exactly when the requester owns it, and otherwise the answer is 404 |
| DeckRoutes.CreateDeck | backend/routes/decks.js:47-76 | a valid name creates one deck owned by the requester, whose rows are exactly the supplied entries; other decks are unchanged; an invalid name changes nothing; a failed insert keeps the new deck row but adds no deck-role rows |
| DeckRoutes.ReplaceDeckRows | backend/routes/decks.js:96-107 | the deck's rows become exactly the supplied ones, or none when the insert fails; other decks' rows are untouched |
| DeckRoutes.UpdateDeck | backend/routes/decks.js:79-120 | PUT answers 404 without change unless the requester owns the deck; with `roles` the rows are replaced wholesale, without them they are kept; a too-long name fails before any write; other decks are unchanged |
| DeckRoutes.DeleteDeck | backend/routes/decks.js:123-141 | DELETE answers 404 without change unless the requester owns the deck; otherwise the deck and exactly its rows are removed |
| DeckRoutes.CreateKeepsReferences | backend/routes/decks.js:47-76 | create keeps every row pointing at an existing deck and an existing role |
| DeckRoutes.UpdateKeepsReferences | backend/routes/decks.js:79-120 | update keeps every row pointing at an existing deck and an existing role |
| DeckRoutes.DeleteKeepsReferences | backend/models/index.js:8 | thanks to the cascade, delete leaves no row pointing at the removed deck |
| DeckRoutes.CreatedDeckHoldsSuppliedRows | backend/routes/decks.js:56-72 | the deck returned by a successful create holds exactly the rows built from the supplied entries |
| DeckRoutes.ListDecksAgree | backend/routes/decks.js:8-15 | the list depends only on the decks the user owns and their rows |
| DeckRoutes.OtherUsersUnaffected | backend/routes/decks.js:81-86 | create, update and delete by one user never change what another user lists |
| DeckRoutes.DeletedDeckIsGone | backend/routes/decks.js:136 | after a delete the deck is not found by anyone and has no rows left |
| DeckBuilder.Qty | frontend/src/pages/DeckBuilder.jsx:39 | the quantity read for a role is its entry's quantity, or 0 when absent |
| DeckBuilder.Put | frontend/src/pages/DeckBuilder.jsx:39 | `Map.set` gives the key the new value, in place when it is present and appended otherwise, and changes no other key |
| DeckBuilder.Delete | frontend/src/pages/DeckBuilder.jsx:51 | `Map.delete` removes the key and keeps every other key and quantity |
| DeckBuilder.AddRole | frontend/src/pages/DeckBuilder.jsx:36-42 | the role's quantity becomes the old one plus 1, with absent counting as 0, and every other entry is unchanged; positivity is preserved |
| DeckBuilder.RemoveRole | frontend/src/pages/DeckBuilder.jsx:44-55 | a quantity above 1 is decremented, otherwise the key is removed; every other entry is unchanged; positivity is preserved |
| DeckBuilder.SetQuantity | frontend/src/pages/DeckBuilder.jsx:57-67 | a quantity at most 0 removes the key, otherwise the key is set to exactly that quantity; every other entry is unchanged; positivity is preserved |
| DeckBuilder.RemoveAfterAdd | frontend/src/pages/DeckBuilder.jsx:36-55 | from a selection of positive quantities, removing a role right after adding it gives back the same selection, entry order included |
| DeckBuilder.PutTwice | frontend/src/pages/DeckBuilder.jsx:36-52 | two `Map.set` calls on a present key leave the map as the second call alone does, key position included |
| DeckBuilder.PutCurrent | frontend/src/pages/DeckBuilder.jsx:64 | `Map.set` of a present key to its current value leaves the map unchanged |
| DeckBuilder.SetQuantityToCurrent | frontend/src/pages/DeckBuilder.jsx:57-67 | setting a role to the quantity it already has changes nothing |
| DeckBuilder.TotalPlayersAfterAdd | frontend/src/pages/DeckBuilder.jsx:69-71 | adding a role raises the player total by one |
| DeckBuilder.TotalPlayersAfterRemove | frontend/src/pages/DeckBuilder.jsx:44-71 | removing a selected role lowers the player total by one, and removing an unselected role leaves it unchanged |
| DeckBuilder.TotalPlayersAfterSet | frontend/src/pages/DeckBuilder.jsx:57-71 | setting a quantity replaces that role's share of the total with the new quantity, or with 0 when it is not positive |
| DeckBuilder.TotalPlayersAtLeastEntries | frontend/src/pages/DeckBuilder.jsx:69-71 | with positive quantities there are at least as many players as selected roles |
| DeckBuilder.FindRole | frontend/src/pages/DeckBuilder.jsx:75 | the catalogue lookup returns the first role with that id, and nothing exactly when no role has it |
| DeckBuilder.TotalScoreAfterAdd | frontend/src/pages/DeckBuilder.jsx:73-78 | adding a role raises the total score by that role's score, or by 0 when the role is not in the catalogue |
| DeckBuilder.UnknownRolesScoreZero | frontend/src/pages/DeckBuilder.jsx:73-78 | roles missing from the catalogue contribute nothing to the total score |
| DeckBuilder.AddTo | frontend/src/pages/DeckBuilder.jsx:85 | adding to one team's count changes only that team's count |
| DeckBuilder.TeamDistribution | frontend/src/pages/DeckBuilder.jsx:80-89 | each team's count is the summed quantity of the found roles of that team, and the counts together total the quantities of all found roles |
| DeckBuilder.DistributionCountsAllPlayers | frontend/src/pages/DeckBuilder.jsx:80-89 | when every selected role is in the catalogue, the team counts add up to the player total |
| DeckBuilder.BalanceStatus | frontend/src/pages/DeckBuilder.jsx:91-95 | Werewolf Heavy exactly when the score is above 5, Villager Heavy exactly when it is below -5, Balanced otherwise, including exactly 5 and -5 |
| DeckBuilder.BalanceIsSymmetric | frontend/src/pages/DeckBuilder.jsx:91-95 | negating the score swaps Werewolf Heavy and Villager Heavy and keeps Balanced |
| DeckBuilder.TrimStart | frontend/src/pages/DeckBuilder.jsx:98 | the result is a suffix of the input that drops exactly the leading white space |
| DeckBuilder.TrimEnd | frontend/src/pages/DeckBuilder.jsx:98 | the result is a prefix of the input that drops exactly the trailing white space |
| DeckBuilder.TrimEmptyIffBlank | frontend/src/pages/DeckBuilder.jsx:98 | a name trims to empty exactly when all its characters are white space |
| DeckBuilder.Payload | frontend/src/pages/DeckBuilder.jsx:109-112 | the payload has one `{role_id, quantity}` element per selection entry, in order |
| DeckBuilder.SaveDeck | frontend/src/pages/DeckBuilder.jsx:97-117 | nothing is posted exactly when the name is blank or the selection is empty, and a blank name is reported first; otherwise the request carries the name and the payload |
| DeckBuilder.SavedRowsAreValid | frontend/src/pages/DeckBuilder.jsx:109-117 | the rows built from a saved positive selection all pass the quantity validation |
| DeckBuilder.LoadDeck | frontend/src/pages/DeckBuilder.jsx:128-135 | the loaded selection holds exactly the role ids of the deck's rows, each with the quantity of the last row naming it |
| DeckBuilder.LoadAfterSave | frontend/src/pages/DeckBuilder.jsx:109-135 | loading the rows built from a selection's payload, in the order they were built, gives back that selection |
| DeckBuilder.LoadAnyOrderAfterSave | frontend/src/pages/DeckBuilder.jsx:128-135 | loading the rows of a saved selection in any order gives the same roles with the same quantities |
| DeckBuilder.SavedRequestIsCreated | frontend/src/pages/DeckBuilder.jsx:114-117 | a request the save button sends, with a name that fits and known roles, creates the deck |
| DeckBuilder.SaveCreateLoad | frontend/src/pages/DeckBuilder.jsx:97-135 | saving a selection, creating the deck on the server and loading the created deck gives back the same selection |

## Left out

- **Hashing.** SHA-256 and stream hashing are a parameter. No property assumes the hash is collision-free.
- **Generated file names and ids.** Names come from `Date.now()` and `Math.random()`, and the
  database assigns ids. Both are inputs. The generated name is required not to clash with a
  folder file (`FreshFor`).
- **Directory listing order.** The model keeps the folder's files in the order they were written, and
  the scan visits them in that order. The program's `readdirSync` returns names sorted byte by byte.
  When two folder files have the same content, the program may therefore reuse a different one than
  the model does. No property proved under `UniqueDigests` depends on this order.
- **Real filesystem and ORM calls.**
  - `existsSync`, `mkdirSync`, `readdirSync`, `writeFileSync`, `unlinkSync` and the Sequelize queries
    are operations on the abstract store.
  - The folder holds only regular files; directories in the listing are not modelled.
  - `mkdirSync` only creates the folder when it is missing, so the model does not represent it.
- **Role image URLs outside `/uploads/roles/`.** The program unlinks
  `path.join(__dirname, '..', image_url)` for any non-empty URL, so `/img/a.png` names
  `backend/img/a.png`, and `/uploads/roles/../x` is normalised to `backend/uploads/x`. Such URLs can
  only come from data written outside these handlers. The program would unlink the file such a URL
  names relative to `backend/`. The model does not: its folder holds only the upload folder's files,
  so a URL without the `/uploads/roles/` prefix names no file, and a suffix such as `../x` is looked
  up as a folder file name, which no generated name matches.
- **Concurrency.** The race between the duplicate checks and the write between concurrent requests
  is not modelled. Each request is one atomic transition.
- **Row order of `Role.findOne`.** The query has no ORDER BY, so the row it returns is unspecified.
  The model returns the smallest matching id.
- **Extra database failures.**
  - On role delete, a throwing `findByPk` or `findOne` gives a server error with nothing changed, and
    `role.destroy()` can fail after the file was unlinked. Neither is modelled: the delete handler
    always succeeds once the role is found.
  - Database errors on the deck routes other than the column constraints and unknown role ids are not
    modelled. `bulkCreate` is all-or-nothing.
- **Deck-role validation on insert.** `bulkCreate` runs without model validation, so the deck routes
  store a quantity below 1 as given. `ValidateDeckRole` states the validation. `SavedRowsAreValid`
  shows that the page never sends such a row.
- DeckBuilder.SaveCreateLoad: assumes the created deck's rows come back in the order they were
  inserted. The `DeckRole` include has no ORDER BY, so the program's order is unspecified.
  `LoadAnyOrderAfterSave` states what holds for any order: the same roles with the same quantities,
  but the selection's entry order may differ.
- **The deck name in `loadDeck`.** Loading a deck also copies its name into the page's name field.
  The model covers only the selection.
- **Explicit `null` values** in request bodies are treated like absent fields.
- **Read-only and peripheral routes.**
  - The GET endpoints of the roles API have no store logic.
  - Authentication, `isAuthenticated` and the `created_at DESC` ordering of lists are left out. The
    deck list is a map from deck id to deck.
- **JavaScript numbers.** Integers are unbounded. Quantities and scores never wrap, and
  `parseInt` is a parsed integer or a missing value.
- **The React page's other parts.** Rendering, data loading, `alert`/`confirm`, `deleteDeck`,
  `clearDeck` and navigation are not modelled.
- **`parseInt(roleId)` lookups** in the score and distribution. The role ids in the selection are
  already integers, so the lookup compares ids directly.
- **Unknown team names in the distribution.** Stored roles always have one of the four teams, so the
  distribution has exactly four counters.
- **`RoleStoreProperties.UpdatePreservesConsistency`: stated only for updates that succeed.** A failed
  update after the old file was unlinked breaks consistency. `FailedUpdateLosesOldImage` shows this
  for a concrete store.
- **`RoleStoreProperties.CreateKeepsFolderDeduplicated` and `UpdateKeepsFolderDeduplicated`: stated
  only when the folder scan works.** A failed scan reports "no match", so a second copy of an image can
  be written.
