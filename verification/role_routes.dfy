/**
 * The create, update and delete handlers of the roles API as transitions of an abstract store:
 * the `roles` table and the upload folder. Every handler returns the new store and its response.
 */
module RoleRoutes {
  import opened Wrappers
  import opened RoleModel
  import opened Uploads

  datatype Store = Store(roles: map<RoleId, Role>, files: Folder)

  /**
   * What a request gets from outside the model: the generated file-name stem, the id the database
   * assigns to a new row, whether the folder scan throws, whether a call before any file is
   * released throws (`findByPk`, a `findOne`, the folder write), and whether the final row write
   * fails for a reason other than the column constraints.
   */
  datatype Io = Io(stem: string, newId: RoleId, scanFails: bool, earlyFails: bool, dbFails: bool)

  datatype Response =
    | Created(id: RoleId)
    | Updated(id: RoleId)
    | Deleted
    | NotFound
    | DuplicateImage(ownerId: RoleId, ownerName: string)
    | UploadRejected(reason: UploadError)
    | ServerError

  /** `m` is the smallest element of `s`. */
  predicate IsLeastOf(m: nat, s: set<nat>) {
    m in s && forall x | x in s :: m <= x
  }

  /** The smallest element of a non-empty set. */
  function Least(s: set<nat>): (m: nat)
    requires s != {}
    ensures IsLeastOf(m, s)
  {
    LeastExists(s);
    var m :| IsLeastOf(m, s);
    m
  }

  lemma {:induction false} LeastExists(s: set<nat>)
    requires s != {}
    ensures exists m :: IsLeastOf(m, s)
  {
    var y :| y in s;
    var rest := s - {y};
    if rest != {} {
      LeastExists(rest);
      var m :| IsLeastOf(m, rest);
      var least := if y < m then y else m;
      forall x | x in s ensures least <= x {
        if x != y {
          assert x in rest;
        }
      }
      assert IsLeastOf(least, s);
    } else {
      forall x | x in s ensures y <= x {
        assert x !in rest;
      }
      assert IsLeastOf(y, s);
    }
  }

  /**
   * `Role.findOne` by `image_hash`, optionally excluding one id. The query has no ORDER BY; the
   * model picks the smallest matching id.
   */
  function HashOwner(roles: map<RoleId, Role>, h: string, except: Option<RoleId>): (r: Option<RoleId>)
    ensures r.Some? ==> r.value in roles && roles[r.value].imageHash == Some(h) && except != Some(r.value)
    ensures r.None? <==> forall k | k in roles && except != Some(k) :: roles[k].imageHash != Some(h)
  {
    var owners := set k | k in roles && roles[k].imageHash == Some(h) && except != Some(k);
    if owners == {} then
      assert forall k | k in roles && except != Some(k) :: roles[k].imageHash != Some(h) by {
        forall k | k in roles && except != Some(k) ensures roles[k].imageHash != Some(h) {
          assert k !in owners;
        }
      }
      None
    else Some(Least(owners))
  }

  /** `Role.findOne` by `image_url` with `id` excluded found a row. */
  predicate UrlUsedByOther(roles: map<RoleId, Role>, url: string, id: RoleId) {
    exists other | other in roles :: other != id && roles[other].imageUrl == Some(url)
  }

  /** JavaScript truthiness of a nullable string column: neither null nor empty. */
  predicate IsSet(v: Option<string>) {
    v.Some? && v.value != ""
  }

  /** The folder file an image URL names, when that file is present. */
  predicate StoredAt(files: Folder, url: string, n: string) {
    FileOfUrl(url) == Some(n) && Has(files, n)
  }

  /**
   * The reference-aware delete shared by the update and delete handlers: the file behind `url` is
   * unlinked when the URL is set, the file exists, and no role other than `id` has that URL.
   */
  function ReleaseImage(files: Folder, roles: map<RoleId, Role>, id: RoleId, url: Option<string>): (r: Folder)
    ensures IsSet(url) && !UrlUsedByOther(roles, url.value, id) && FileOfUrl(url.value).Some?
            && Has(files, FileOfUrl(url.value).value)
            ==> !Has(r, FileOfUrl(url.value).value)
    ensures !IsSet(url) || UrlUsedByOther(roles, url.value, id) ==> r == files
    ensures forall m | !(IsSet(url) && FileOfUrl(url.value) == Some(m)) :: Lookup(r, m) == Lookup(files, m)
  {
    if IsSet(url) && !UrlUsedByOther(roles, url.value, id) && FileOfUrl(url.value).Some?
       && Has(files, FileOfUrl(url.value).value)
    then
      var n := FileOfUrl(url.value).value;
      UnlinkFolder(files, n);
      UnlinkLookupAll(files, n);
      Unlink(files, n)
    else files
  }

  lemma {:induction false} UnlinkLookupAll(dir: seq<StoredFile>, n: string)
    ensures Lookup(Unlink(dir, n), n).None?
    ensures forall m | m != n :: Lookup(Unlink(dir, n), m) == Lookup(dir, m)
  {
    forall m ensures Lookup(Unlink(dir, n), m) == if m == n then None else Lookup(dir, m) {
      UnlinkLookup(dir, n, m);
    }
  }

  /** Unlinking the file just written, if the request wrote one and it is still there. */
  function DiscardWritten(files: Folder, written: Option<string>): (r: Folder)
    ensures written.None? ==> r == files
    ensures written.Some? ==> !Has(r, written.value)
    ensures forall m | written != Some(m) :: Lookup(r, m) == Lookup(files, m)
  {
    if written.Some? && Has(files, written.value) then
      UnlinkFolder(files, written.value);
      UnlinkLookupAll(files, written.value);
      Unlink(files, written.value)
    else files
  }

  /** The precondition on the generated name: a valid stem, and no file of the folder has the resulting name. */
  predicate FreshFor(st: Store, io: Io, upload: Option<Upload>) {
    upload.Some? ==> ValidStem(io.stem) && !Has(st.files, NewFileName(io.stem, upload.value.originalName))
  }

  /** Where an image ends up: a folder file, and whether this request wrote it. */
  datatype Placement = Placement(files: Folder, name: string, wrote: bool)

  /**
   * Where an accepted, non-duplicate upload ends up: the first folder file with the same content,
   * or else a new file under the generated name.
   */
  function PlaceImage(files: Folder, hash: Hasher, u: Upload, io: Io): (p: Placement)
    requires ValidStem(io.stem) && !Has(files, NewFileName(io.stem, u.originalName))
    ensures Has(p.files, p.name) && hash(Lookup(p.files, p.name).value) == hash(u.content)
    ensures !p.wrote ==> p.files == files && FolderMatch(files, hash, hash(u.content), io.scanFails) == Some(p.name)
    ensures p.wrote ==>
      && FolderMatch(files, hash, hash(u.content), io.scanFails).None?
      && p.name == NewFileName(io.stem, u.originalName)
      && Extname(p.name) == Extname(u.originalName)
      && p.files == Write(files, p.name, u.content)
  {
    match FolderMatch(files, hash, hash(u.content), io.scanFails)
    case Some(n) => Placement(files, n, false)
    case None =>
      var n := NewFileName(io.stem, u.originalName);
      NewFileNameKeepsExtension(io.stem, u.originalName);
      Placement(Write(files, n, u.content), n, true)
  }

  // ---------------------------------------------------------------------------------------------
  // POST /
  // ---------------------------------------------------------------------------------------------

  /** `Role.create`; when it throws, the file this request wrote is removed again. */
  function CommitCreate(st: Store, user: UserId, f: RoleFields, url: Option<string>, h: Option<string>,
                        written: Option<string>, io: Io): (out: (Store, Response))
    requires io.newId !in st.roles
    ensures out.1 == ServerError || out.1 == Created(io.newId)
    ensures out.1.ServerError? ==> out.0 == Store(st.roles, DiscardWritten(st.files, written))
    ensures out.1.Created? ==>
      && NewRole(f, url, h, user).Success? && !io.dbFails
      && out.0 == Store(st.roles[io.newId := NewRole(f, url, h, user).value], st.files)
  {
    match NewRole(f, url, h, user)
    case Success(r) =>
      if io.dbFails then (Store(st.roles, DiscardWritten(st.files, written)), ServerError)
      else (Store(st.roles[io.newId := r], st.files), Created(io.newId))
    case Failure(_) => (Store(st.roles, DiscardWritten(st.files, written)), ServerError)
  }

  /**
   * The image part of POST `/` for an upload that passed the filter: refuse an image some role
   * already has, otherwise place the file and create the row, rolling the write back on failure.
   */
  function CreateWithImage(st: Store, hash: Hasher, user: UserId, f: RoleFields, u: Upload, io: Io)
    : (out: (Store, Response))
    requires io.newId !in st.roles
    requires ValidStem(io.stem) && !Has(st.files, NewFileName(io.stem, u.originalName))
    ensures out.1 == ServerError || out.1 == Created(io.newId) || out.1.DuplicateImage?
    ensures !out.1.Created? ==> out.0 == st
    // a query or the write throwing before the row is created leaves nothing behind
    ensures io.earlyFails ==> out == (st, ServerError)
    ensures out.1.DuplicateImage? <==>
      !io.earlyFails && exists k | k in st.roles :: st.roles[k].imageHash == Some(hash(u.content))
    ensures out.1.DuplicateImage? ==>
      && out.1.ownerId in st.roles
      && st.roles[out.1.ownerId].imageHash == Some(hash(u.content))
      && out.1.ownerName == st.roles[out.1.ownerId].name
    ensures out.1.Created? ==>
      && io.newId in out.0.roles && out.0.roles == st.roles[io.newId := out.0.roles[io.newId]]
      && ValidRole(out.0.roles[io.newId])
      && out.0.roles[io.newId].createdBy == Some(user)
      && out.0.roles[io.newId].imageHash == Some(hash(u.content))
  {
    if io.earlyFails then (st, ServerError)
    else
      match HashOwner(st.roles, hash(u.content), None)
      case Some(owner) => (st, DuplicateImage(owner, st.roles[owner].name))
      case None => CreateAtPlacement(st, hash, user, f, u, io)
  }

  /** Placing a new image and creating its row; a failed create removes the file it wrote. */
  function CreateAtPlacement(st: Store, hash: Hasher, user: UserId, f: RoleFields, u: Upload, io: Io)
    : (out: (Store, Response))
    requires io.newId !in st.roles
    requires ValidStem(io.stem) && !Has(st.files, NewFileName(io.stem, u.originalName))
    ensures out.1 == ServerError || out.1 == Created(io.newId)
    ensures out.1.ServerError? ==> out.0 == st
    ensures out.1.Created? ==>
      && io.newId in out.0.roles && out.0.roles == st.roles[io.newId := out.0.roles[io.newId]]
      && ValidRole(out.0.roles[io.newId])
      && out.0.roles[io.newId].createdBy == Some(user)
      && out.0.roles[io.newId].imageHash == Some(hash(u.content))
  {
    var p := PlaceImage(st.files, hash, u, io);
    if p.wrote then
      UnlinkWritten(st.files, p.name, u.content);
      CommitCreate(st.(files := p.files), user, f, Some(UrlOf(p.name)), Some(hash(u.content)), Some(p.name), io)
    else
      CommitCreate(st, user, f, Some(UrlOf(p.name)), Some(hash(u.content)), None, io)
  }

  /** POST `/`: create a role, with duplicate detection on the uploaded image. */
  function CreateRole(st: Store, hash: Hasher, user: UserId, f: RoleFields, upload: Option<Upload>, io: Io)
    : (out: (Store, Response))
    requires io.newId !in st.roles
    requires FreshFor(st, io, upload)
    // errors leave the store exactly as it was: no role, no orphaned file
    ensures !out.1.Created? ==> out.0 == st
    ensures out.1.UploadRejected? <==> upload.Some? && CheckUpload(upload.value).Some?
    ensures out.1.UploadRejected? ==> out.1.reason == CheckUpload(upload.value).value
    // an image already recorded for a role is refused, naming that role
    ensures upload.Some? && CheckUpload(upload.value).None? && io.earlyFails ==> out == (st, ServerError)
    ensures out.1.DuplicateImage? <==>
      upload.Some? && CheckUpload(upload.value).None? && !io.earlyFails
      && exists k | k in st.roles :: st.roles[k].imageHash == Some(hash(upload.value.content))
    ensures out.1.DuplicateImage? ==>
      && out.1.ownerId in st.roles
      && st.roles[out.1.ownerId].imageHash == Some(hash(upload.value.content))
      && out.1.ownerName == st.roles[out.1.ownerId].name
    // success adds exactly the new row
    ensures out.1.Created? ==>
      && out.1.id == io.newId
      && io.newId in out.0.roles && out.0.roles == st.roles[io.newId := out.0.roles[io.newId]]
      && ValidRole(out.0.roles[io.newId])
      && out.0.roles[io.newId].createdBy == Some(user)
    // without an image the folder is untouched and the role has no image
    ensures upload.None? ==> out.0.files == st.files
    ensures upload.None? && out.1.Created? ==>
      out.0.roles[io.newId].imageUrl.None? && out.0.roles[io.newId].imageHash.None?
  {
    match upload
    case None => CommitCreate(st, user, f, None, None, None, io)
    case Some(u) =>
      match CheckUpload(u)
      case Some(e) => (st, UploadRejected(e))
      case None => CreateWithImage(st, hash, user, f, u, io)
  }

  // ---------------------------------------------------------------------------------------------
  // PUT /:id
  // ---------------------------------------------------------------------------------------------

  /** `role.update`; when it throws, only the file this request wrote is removed. */
  function CommitUpdate(st: Store, id: RoleId, f: RoleFields, url: Option<string>, h: Option<string>,
                        written: Option<string>, io: Io): (out: (Store, Response))
    requires id in st.roles
    ensures out.1 == ServerError || out.1 == Updated(id)
    ensures out.1.ServerError? ==> out.0 == Store(st.roles, DiscardWritten(st.files, written))
    ensures out.1.Updated? ==>
      && UpdatedRole(st.roles[id], f, url, h).Success? && !io.dbFails
      && out.0 == Store(st.roles[id := UpdatedRole(st.roles[id], f, url, h).value], st.files)
  {
    match UpdatedRole(st.roles[id], f, url, h)
    case Success(r) =>
      if io.dbFails then (Store(st.roles, DiscardWritten(st.files, written)), ServerError)
      else (Store(st.roles[id := r], st.files), Updated(id))
    case Failure(_) => (Store(st.roles, DiscardWritten(st.files, written)), ServerError)
  }

  /** The old image is released only when the update moves the role to a different URL. */
  function ReleaseReplaced(files: Folder, roles: map<RoleId, Role>, id: RoleId, newUrl: string): Folder
    requires id in roles
  {
    var previous := roles[id].imageUrl;
    if IsSet(previous) && previous.value != newUrl then ReleaseImage(files, roles, id, previous) else files
  }

  /**
   * The image part of PUT `/:id` for an upload that passed the filter: refuse an image another role
   * has, otherwise place the file, release the old one, and update the row; on failure only the
   * file this request wrote is removed.
   */
  function UpdateWithImage(st: Store, hash: Hasher, id: RoleId, f: RoleFields, u: Upload, io: Io)
    : (out: (Store, Response))
    requires id in st.roles
    requires ValidStem(io.stem) && !Has(st.files, NewFileName(io.stem, u.originalName))
    ensures out.1 == ServerError || out.1 == Updated(id) || out.1.DuplicateImage?
    ensures out.1.DuplicateImage? <==>
      exists k | k in st.roles && k != id :: st.roles[k].imageHash == Some(hash(u.content))
    ensures out.1.DuplicateImage? ==>
      && out.0 == st
      && out.1.ownerId in st.roles && out.1.ownerId != id
      && st.roles[out.1.ownerId].imageHash == Some(hash(u.content))
      && out.1.ownerName == st.roles[out.1.ownerId].name
    ensures !out.1.Updated? ==> out.0.roles == st.roles
    ensures out.1.Updated? ==>
      && id in out.0.roles && out.0.roles == st.roles[id := out.0.roles[id]]
      && ValidRole(out.0.roles[id])
      && out.0.roles[id].imageHash == Some(hash(u.content))
  {
    var h := hash(u.content);
    match HashOwner(st.roles, h, Some(id))
    case Some(owner) => (st, DuplicateImage(owner, st.roles[owner].name))
    case None =>
      var p := PlaceImage(st.files, hash, u, io);
      var released := ReleaseReplaced(p.files, st.roles, id, UrlOf(p.name));
      CommitUpdate(st.(files := released), id, f, Some(UrlOf(p.name)), Some(h), if p.wrote then Some(p.name) else None, io)
  }

  /**
   * PUT `/:id`: update a role; with an image, the duplicate check skips the role itself and the
   * old file is released. The upload filter runs before the role is looked up. Every call that can
   * throw before the release either writes nothing or has its write removed by the handler's
   * cleanup, so all of them end as one outcome: a server error with the store unchanged.
   */
  function UpdateRole(st: Store, hash: Hasher, id: RoleId, f: RoleFields, upload: Option<Upload>, io: Io)
    : (out: (Store, Response))
    requires FreshFor(st, io, upload)
    ensures out.1.UploadRejected? <==> upload.Some? && CheckUpload(upload.value).Some?
    // `findByPk` or a later query or write throwing before any file is released: nothing changes
    ensures io.earlyFails && !out.1.UploadRejected? ==> out == (st, ServerError)
    ensures out.1.NotFound? <==> id !in st.roles && !out.1.UploadRejected? && !io.earlyFails
    ensures out.1.UploadRejected? || out.1.NotFound? || out.1.DuplicateImage? ==> out.0 == st
    ensures out.1.DuplicateImage? <==>
      upload.Some? && CheckUpload(upload.value).None? && !io.earlyFails && id in st.roles
      && exists k | k in st.roles && k != id :: st.roles[k].imageHash == Some(hash(upload.value.content))
    ensures out.1.DuplicateImage? ==>
      && out.1.ownerId in st.roles && out.1.ownerId != id
      && st.roles[out.1.ownerId].imageHash == Some(hash(upload.value.content))
      && out.1.ownerName == st.roles[out.1.ownerId].name
    // the role table changes only at `id`, and only on success
    ensures out.1.Updated? ==>
      && out.1.id == id
      && id in out.0.roles && out.0.roles == st.roles[id := out.0.roles[id]]
      && ValidRole(out.0.roles[id])
    ensures !out.1.Updated? ==> out.0.roles == st.roles
    ensures upload.None? ==> out.0.files == st.files
    ensures upload.None? && out.1.Updated? ==>
      out.0.roles[id].imageUrl == st.roles[id].imageUrl && out.0.roles[id].imageHash == st.roles[id].imageHash
  {
    if upload.Some? && CheckUpload(upload.value).Some? then (st, UploadRejected(CheckUpload(upload.value).value))
    else if io.earlyFails then (st, ServerError)
    else if id !in st.roles then (st, NotFound)
    else
      match upload
      case None => CommitUpdate(st, id, f, st.roles[id].imageUrl, st.roles[id].imageHash, None, io)
      case Some(u) => UpdateWithImage(st, hash, id, f, u, io)
  }

  // ---------------------------------------------------------------------------------------------
  // DELETE /:id
  // ---------------------------------------------------------------------------------------------

  /** DELETE `/:id`: the role is destroyed; its image file goes only if no other role has the same URL. */
  function DeleteRole(st: Store, id: RoleId): (out: (Store, Response))
    ensures out.1 == Deleted || out.1 == NotFound
    ensures out.1.NotFound? <==> id !in st.roles
    ensures out.1.NotFound? ==> out.0 == st
    ensures out.1.Deleted? ==> out.0.roles == st.roles - {id}
    // the role's own file goes exactly when it is present and no other role has the URL
    ensures out.1.Deleted? ==> forall m | st.roles[id].imageUrl == Some(UrlOf(m)) ::
      Has(out.0.files, m) <==> Has(st.files, m) && UrlUsedByOther(st.roles, UrlOf(m), id)
    // every other file is untouched
    ensures out.1.Deleted? ==> forall m | st.roles[id].imageUrl != Some(UrlOf(m)) ::
      Lookup(out.0.files, m) == Lookup(st.files, m)
  {
    if id !in st.roles then (st, NotFound)
    else (Store(st.roles - {id}, ReleaseImage(st.files, st.roles, id, st.roles[id].imageUrl)), Deleted)
  }
}
