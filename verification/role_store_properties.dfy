/**
 * Properties of the role-image store across requests: the invariants the handlers keep, what
 * happens to a role's old file, and the gap a failed update leaves.
 */
module RoleStoreProperties {
  import opened Wrappers
  import opened RoleModel
  import opened Uploads
  import opened RoleRoutes

  /**
   * A role's image columns agree with the folder: both null, or the URL names a present file whose
   * content has the recorded digest.
   */
  predicate ImageStored(files: Folder, hash: Hasher, r: Role) {
    match r.imageUrl
    case None => r.imageHash.None?
    case Some(url) =>
      && FileOfUrl(url).Some?
      && Has(files, FileOfUrl(url).value)
      && r.imageHash == Some(hash(Lookup(files, FileOfUrl(url).value).value))
  }

  /** No two roles record the same image digest. */
  predicate DistinctImageHashes(roles: map<RoleId, Role>) {
    forall a, b | a in roles && b in roles && a != b && roles[a].imageHash.Some? ::
      roles[a].imageHash != roles[b].imageHash
  }

  /** The store invariant: every role's image is stored, and image digests are not shared. */
  predicate Consistent(st: Store, hash: Hasher) {
    && (forall k | k in st.roles :: ImageStored(st.files, hash, st.roles[k]))
    && DistinctImageHashes(st.roles)
  }

  /** A role's image stays stored while the folder keeps its file. */
  lemma {:induction false} ImageStoredFrame(files: Folder, files': Folder, hash: Hasher, r: Role)
    requires ImageStored(files, hash, r)
    requires r.imageUrl.Some? ==> Lookup(files', FileOfUrl(r.imageUrl.value).value) == Lookup(files, FileOfUrl(r.imageUrl.value).value)
    ensures ImageStored(files', hash, r)
  {
  }

  /** Placing an image changes no existing file. */
  lemma {:induction false} PlaceImageFrame(files: Folder, hash: Hasher, u: Upload, io: Io, n: string)
    requires ValidStem(io.stem) && !Has(files, NewFileName(io.stem, u.originalName))
    requires Has(files, n)
    ensures Lookup(PlaceImage(files, hash, u, io).files, n) == Lookup(files, n)
  {
  }

  /** In a consistent store no two roles share an image URL, since the URL fixes the digest. */
  lemma {:induction false} NoSharedImageUrls(st: Store, hash: Hasher, a: RoleId, b: RoleId)
    requires Consistent(st, hash)
    requires a in st.roles && b in st.roles && a != b && st.roles[a].imageUrl.Some?
    ensures st.roles[a].imageUrl != st.roles[b].imageUrl
  {
    assert ImageStored(st.files, hash, st.roles[a]);
    assert ImageStored(st.files, hash, st.roles[b]);
  }

  // ---------------------------------------------------------------------------------------------
  // Create
  // ---------------------------------------------------------------------------------------------

  /**
   * A create whose image matches a folder file reuses the first such file: the role points at it,
   * records the digest, and the folder is unchanged whatever the outcome.
   */
  lemma {:induction false} CreateReusesFolderFile(st: Store, hash: Hasher, user: UserId, f: RoleFields, u: Upload, io: Io, n: string)
    requires io.newId !in st.roles && FreshFor(st, io, Some(u))
    requires CheckUpload(u).None?
    requires forall k | k in st.roles :: st.roles[k].imageHash != Some(hash(u.content))
    requires FolderMatch(st.files, hash, hash(u.content), io.scanFails) == Some(n)
    ensures var out := CreateRole(st, hash, user, f, Some(u), io);
      && out.0.files == st.files
      && (out.1.Created? ==>
            out.0.roles[io.newId].imageUrl == Some(UrlOf(n))
            && out.0.roles[io.newId].imageHash == Some(hash(u.content)))
  {
    CreateUnfolds(st, hash, user, f, u, io);
    assert PlaceImage(st.files, hash, u, io) == Placement(st.files, n, false);
  }

  /**
   * A create whose image matches no folder file (or whose scan fails) writes exactly one new file,
   * under the generated name with the original extension, and the role points at it.
   */
  lemma {:induction false} CreateWritesNewFile(st: Store, hash: Hasher, user: UserId, f: RoleFields, u: Upload, io: Io)
    requires io.newId !in st.roles && FreshFor(st, io, Some(u))
    requires CheckUpload(u).None?
    requires forall k | k in st.roles :: st.roles[k].imageHash != Some(hash(u.content))
    requires FolderMatch(st.files, hash, hash(u.content), io.scanFails).None?
    ensures var out := CreateRole(st, hash, user, f, Some(u), io);
      var n := NewFileName(io.stem, u.originalName);
      && Extname(n) == Extname(u.originalName)
      && (out.1.Created? ==>
            && out.0.files == Write(st.files, n, u.content)
            && out.0.roles[io.newId].imageUrl == Some(UrlOf(n))
            && out.0.roles[io.newId].imageHash == Some(hash(u.content)))
      && (!out.1.Created? ==> out.0.files == st.files)
  {
    var n := NewFileName(io.stem, u.originalName);
    NewFileNameKeepsExtension(io.stem, u.originalName);
    CreateUnfolds(st, hash, user, f, u, io);
    assert PlaceImage(st.files, hash, u, io) == Placement(Write(st.files, n, u.content), n, true);
    UnlinkWritten(st.files, n, u.content);
  }

  /**
   * With an upload that passes the filter and no role holding its digest, POST places the image and
   * commits, unless a call before the create throws.
   */
  lemma {:induction false} CreateUnfolds(st: Store, hash: Hasher, user: UserId, f: RoleFields, u: Upload, io: Io)
    requires io.newId !in st.roles && FreshFor(st, io, Some(u)) && CheckUpload(u).None?
    requires HashOwner(st.roles, hash(u.content), None).None?
    ensures var p := PlaceImage(st.files, hash, u, io);
      CreateRole(st, hash, user, f, Some(u), io)
        == if io.earlyFails then (st, ServerError)
           else CommitCreate(st.(files := p.files), user, f, Some(UrlOf(p.name)), Some(hash(u.content)),
                             if p.wrote then Some(p.name) else None, io)
  {
  }

  /** Placing an image keeps every existing role's image stored. */
  lemma {:induction false} PlaceImageKeepsImages(st: Store, hash: Hasher, u: Upload, io: Io)
    requires FreshFor(st, io, Some(u))
    requires forall k | k in st.roles :: ImageStored(st.files, hash, st.roles[k])
    ensures forall k | k in st.roles :: ImageStored(PlaceImage(st.files, hash, u, io).files, hash, st.roles[k])
  {
    var files' := PlaceImage(st.files, hash, u, io).files;
    forall k | k in st.roles ensures ImageStored(files', hash, st.roles[k]) {
      var rk := st.roles[k];
      if rk.imageUrl.Some? {
        PlaceImageFrame(st.files, hash, u, io, FileOfUrl(rk.imageUrl.value).value);
      }
      ImageStoredFrame(st.files, files', hash, rk);
    }
  }

  /** Every create keeps the store consistent. */
  lemma {:induction false} CreatePreservesConsistency(st: Store, hash: Hasher, user: UserId, f: RoleFields, upload: Option<Upload>, io: Io)
    requires io.newId !in st.roles && FreshFor(st, io, upload)
    requires Consistent(st, hash)
    ensures Consistent(CreateRole(st, hash, user, f, upload, io).0, hash)
  {
    if upload.Some? && CreateRole(st, hash, user, f, upload, io).1.Created? {
      CreateWithImagePreservesConsistency(st, hash, user, f, upload.value, io);
    }
  }

  /** The case of a create that stores an image. */
  lemma {:induction false} CreateWithImagePreservesConsistency(st: Store, hash: Hasher, user: UserId, f: RoleFields, u: Upload, io: Io)
    requires io.newId !in st.roles && FreshFor(st, io, Some(u))
    requires Consistent(st, hash)
    requires CreateRole(st, hash, user, f, Some(u), io).1.Created?
    ensures Consistent(CreateRole(st, hash, user, f, Some(u), io).0, hash)
  {
    var out := CreateRole(st, hash, user, f, Some(u), io);
    var h := hash(u.content);
    assert CheckUpload(u).None?;
    assert forall k | k in st.roles :: st.roles[k].imageHash != Some(h);
    CreateUnfolds(st, hash, user, f, u, io);
    var p := PlaceImage(st.files, hash, u, io);
    PlaceImageKeepsImages(st, hash, u, io);
    assert out.0.files == p.files;
    assert ImageStored(p.files, hash, out.0.roles[io.newId]);
    assert forall k | k in out.0.roles :: ImageStored(out.0.files, hash, out.0.roles[k]);
    assert DistinctImageHashes(out.0.roles);
  }

  /** With a working folder scan, a create never stores two files with the same content. */
  lemma {:induction false} CreateKeepsFolderDeduplicated(st: Store, hash: Hasher, user: UserId, f: RoleFields, upload: Option<Upload>, io: Io)
    requires io.newId !in st.roles && FreshFor(st, io, upload)
    requires !io.scanFails && UniqueDigests(st.files, hash)
    ensures UniqueDigests(CreateRole(st, hash, user, f, upload, io).0.files, hash)
  {
    if upload.Some? && CreateRole(st, hash, user, f, upload, io).1.Created? {
      CreateWithImageKeepsFolderDeduplicated(st, hash, user, f, upload.value, io);
    }
  }

  /** The case of a create that stores an image. */
  lemma {:induction false} CreateWithImageKeepsFolderDeduplicated(st: Store, hash: Hasher, user: UserId, f: RoleFields, u: Upload, io: Io)
    requires io.newId !in st.roles && FreshFor(st, io, Some(u))
    requires !io.scanFails && UniqueDigests(st.files, hash)
    requires CreateRole(st, hash, user, f, Some(u), io).1.Created?
    ensures UniqueDigests(CreateRole(st, hash, user, f, Some(u), io).0.files, hash)
  {
    assert CheckUpload(u).None?;
    assert HashOwner(st.roles, hash(u.content), None).None?;
    CreateUnfolds(st, hash, user, f, u, io);
    var p := PlaceImage(st.files, hash, u, io);
    assert CreateRole(st, hash, user, f, Some(u), io).0.files == p.files;
    if p.wrote {
      WriteUniqueDigests(st.files, hash, p.name, u.content);
    }
  }

  /**
   * Uploading the same bytes for a second role is refused, naming the first role: two roles
   * created through this handler never share an image.
   */
  lemma {:induction false} SameImageTwiceIsRejected(
    st: Store, hash: Hasher, user: UserId, f: RoleFields, u: Upload, io: Io,
    user2: UserId, f2: RoleFields, u2: Upload, io2: Io)
    requires io.newId !in st.roles && FreshFor(st, io, Some(u))
    requires CreateRole(st, hash, user, f, Some(u), io).1.Created?
    requires u2.content == u.content && CheckUpload(u2).None?
    requires io2.newId !in CreateRole(st, hash, user, f, Some(u), io).0.roles
    requires FreshFor(CreateRole(st, hash, user, f, Some(u), io).0, io2, Some(u2))
    ensures var st1 := CreateRole(st, hash, user, f, Some(u), io).0;
      CreateRole(st1, hash, user2, f2, Some(u2), io2).1
        == if io2.earlyFails then ServerError else DuplicateImage(io.newId, st1.roles[io.newId].name)
  {
    var st1 := CreateRole(st, hash, user, f, Some(u), io).0;
    var h := hash(u.content);
    CreateWritesOrReuses(st, hash, user, f, u, io);
    assert st1.roles[io.newId].imageHash == Some(h);
    var out2 := CreateRole(st1, hash, user2, f2, Some(u2), io2);
    assert !io2.earlyFails ==> out2.1.DuplicateImage?;
  }

  /** A successful create with an image records the upload's digest. */
  lemma {:induction false} CreateWritesOrReuses(st: Store, hash: Hasher, user: UserId, f: RoleFields, u: Upload, io: Io)
    requires io.newId !in st.roles && FreshFor(st, io, Some(u))
    requires CreateRole(st, hash, user, f, Some(u), io).1.Created?
    ensures CreateRole(st, hash, user, f, Some(u), io).0.roles[io.newId].imageHash == Some(hash(u.content))
  {
    assert CheckUpload(u).None?;
  }

  // ---------------------------------------------------------------------------------------------
  // Update
  // ---------------------------------------------------------------------------------------------

  /**
   * With an upload that passes the filter and no other role holding its digest, PUT places the
   * image, releases the old file and commits, unless a call before the release throws.
   */
  lemma {:induction false} UpdateUnfolds(st: Store, hash: Hasher, id: RoleId, f: RoleFields, u: Upload, io: Io)
    requires id in st.roles && FreshFor(st, io, Some(u)) && CheckUpload(u).None?
    requires HashOwner(st.roles, hash(u.content), Some(id)).None?
    ensures var p := PlaceImage(st.files, hash, u, io);
      UpdateRole(st, hash, id, f, Some(u), io)
        == if io.earlyFails then (st, ServerError)
           else CommitUpdate(st.(files := ReleaseReplaced(p.files, st.roles, id, UrlOf(p.name))), id, f,
                        Some(UrlOf(p.name)), Some(hash(u.content)), if p.wrote then Some(p.name) else None, io)
  {
  }

  /** The old file survives the release exactly when the role keeps the same file or another role still has the URL. */
  lemma {:induction false} ReleaseReplacedFate(files: Folder, roles: map<RoleId, Role>, id: RoleId, newName: string, m: string)
    requires id in roles && roles[id].imageUrl == Some(UrlOf(m)) && Has(files, m)
    ensures Has(ReleaseReplaced(files, roles, id, UrlOf(newName)), m) <==> newName == m || UrlUsedByOther(roles, UrlOf(m), id)
    ensures forall n | n != m :: Lookup(ReleaseReplaced(files, roles, id, UrlOf(newName)), n) == Lookup(files, n)
  {
    UrlOfInjective(m, newName);
    assert UrlOf(m) != "" by {
      assert |UploadUrlPrefix| <= |UrlOf(m)|;
    }
  }

  /**
   * The fate of a role's old image file on an update with a new image: unless a call before the
   * release throws, it is removed exactly when the new image is a different file and no other role
   * has the old URL, and this happens whether or not the row update then succeeds.
   */
  lemma {:induction false} UpdateOldFileFate(st: Store, hash: Hasher, id: RoleId, f: RoleFields, u: Upload, io: Io, m: string)
    requires id in st.roles && FreshFor(st, io, Some(u))
    requires CheckUpload(u).None?
    requires forall k | k in st.roles && k != id :: st.roles[k].imageHash != Some(hash(u.content))
    requires st.roles[id].imageUrl == Some(UrlOf(m)) && Has(st.files, m)
    ensures var out := UpdateRole(st, hash, id, f, Some(u), io);
      var p := PlaceImage(st.files, hash, u, io);
      && (out.1.Updated? || out.1.ServerError?)
      && (Has(out.0.files, m) <==> io.earlyFails || p.name == m || UrlUsedByOther(st.roles, UrlOf(m), id))
  {
    UpdateUnfolds(st, hash, id, f, u, io);
    if io.earlyFails {
      return;
    }
    var p := PlaceImage(st.files, hash, u, io);
    PlaceImageFrame(st.files, hash, u, io, m);
    var released := ReleaseReplaced(p.files, st.roles, id, UrlOf(p.name));
    ReleaseReplacedFate(p.files, st.roles, id, p.name, m);
    var written := if p.wrote then Some(p.name) else None;
    assert written != Some(m);
    var out := CommitUpdate(st.(files := released), id, f, Some(UrlOf(p.name)), Some(hash(u.content)), written, io);
    assert Lookup(out.0.files, m) == Lookup(released, m);
  }

  /**
   * Re-uploading a role's own image, in a consistent store whose folder holds each content once,
   * finds the role's own file: the URL stays, nothing is written and nothing is deleted.
   */
  lemma {:induction false} ReuploadOwnImageKeepsFile(st: Store, hash: Hasher, id: RoleId, f: RoleFields, u: Upload, io: Io)
    requires id in st.roles && FreshFor(st, io, Some(u))
    requires Consistent(st, hash) && UniqueDigests(st.files, hash) && !io.scanFails
    requires CheckUpload(u).None? && st.roles[id].imageHash == Some(hash(u.content))
    ensures var out := UpdateRole(st, hash, id, f, Some(u), io);
      && (out.1.Updated? || out.1.ServerError?)
      && out.0.files == st.files
      && (out.1.Updated? ==> out.0.roles[id].imageUrl == st.roles[id].imageUrl)
  {
    if io.earlyFails {
      return;
    }
    var out := UpdateRole(st, hash, id, f, Some(u), io);
    var h := hash(u.content);
    var role := st.roles[id];
    assert ImageStored(st.files, hash, role);
    var m := FileOfUrl(role.imageUrl.value).value;
    assert role.imageUrl == Some(UrlOf(m));
    forall k | k in st.roles && k != id ensures st.roles[k].imageHash != Some(h) {
    }
    assert HashOwner(st.roles, h, Some(id)).None?;
    UniqueDigestsMatch(st.files, hash, m);
    var p := PlaceImage(st.files, hash, u, io);
    assert p == Placement(st.files, m, false);
    assert ReleaseReplaced(p.files, st.roles, id, UrlOf(m)) == st.files;
    assert out == CommitUpdate(st, id, f, Some(UrlOf(m)), Some(h), None, io);
  }

  /** A successful update keeps the store consistent. */
  lemma {:induction false} UpdatePreservesConsistency(st: Store, hash: Hasher, id: RoleId, f: RoleFields, upload: Option<Upload>, io: Io)
    requires FreshFor(st, io, upload)
    requires Consistent(st, hash)
    requires UpdateRole(st, hash, id, f, upload, io).1.Updated?
    ensures Consistent(UpdateRole(st, hash, id, f, upload, io).0, hash)
  {
    var out := UpdateRole(st, hash, id, f, upload, io);
    assert id in st.roles;
    if upload.Some? {
      var u := upload.value;
      assert CheckUpload(u).None?;
      assert forall k | k in st.roles && k != id :: st.roles[k].imageHash != Some(hash(u.content));
      UpdateUnfolds(st, hash, id, f, u, io);
      var p := PlaceImage(st.files, hash, u, io);
      PlaceImageKeepsImages(st, hash, u, io);
      ReleaseKeepsOtherImages(p.files, st.roles, id, p.name, hash);
      assert out.0.roles[id].imageUrl == Some(UrlOf(p.name));
    }
  }

  /**
   * Releasing a role's old image keeps every other role's image: a role with the same URL
   * blocks the release, and a different URL names a different file.
   */
  lemma {:induction false} ReleaseKeepsOtherImages(files: Folder, roles: map<RoleId, Role>, id: RoleId, newName: string, hash: Hasher)
    requires id in roles && Has(files, newName)
    requires forall k | k in roles && k != id :: ImageStored(files, hash, roles[k])
    ensures forall k | k in roles && k != id :: ImageStored(ReleaseReplaced(files, roles, id, UrlOf(newName)), hash, roles[k])
    ensures Lookup(ReleaseReplaced(files, roles, id, UrlOf(newName)), newName) == Lookup(files, newName)
  {
    var released := ReleaseReplaced(files, roles, id, UrlOf(newName));
    var previous := roles[id].imageUrl;
    forall k | k in roles && k != id ensures ImageStored(released, hash, roles[k]) {
      var rk := roles[k];
      if rk.imageUrl.Some? && IsSet(previous) && FileOfUrl(previous.value) == FileOfUrl(rk.imageUrl.value) {
        assert previous.value == rk.imageUrl.value;
        assert UrlUsedByOther(roles, previous.value, id);
      }
      ImageStoredFrame(files, released, hash, rk);
    }
  }

  /** Releasing the old image keeps a folder's contents pairwise distinct. */
  lemma {:induction false} ReleaseReplacedUniqueDigests(files: Folder, roles: map<RoleId, Role>, id: RoleId, newUrl: string, hash: Hasher)
    requires id in roles && UniqueDigests(files, hash)
    ensures UniqueDigests(ReleaseReplaced(files, roles, id, newUrl), hash)
  {
    var previous := roles[id].imageUrl;
    if IsSet(previous) && previous.value != newUrl && !UrlUsedByOther(roles, previous.value, id)
       && FileOfUrl(previous.value).Some? && Has(files, FileOfUrl(previous.value).value) {
      UnlinkUniqueDigests(files, hash, FileOfUrl(previous.value).value);
    }
  }

  /** Rolling back the written file keeps a folder's contents pairwise distinct. */
  lemma {:induction false} DiscardWrittenUniqueDigests(files: Folder, written: Option<string>, hash: Hasher)
    requires UniqueDigests(files, hash)
    ensures UniqueDigests(DiscardWritten(files, written), hash)
  {
    if written.Some? && Has(files, written.value) {
      UnlinkUniqueDigests(files, hash, written.value);
    }
  }

  /** With a working folder scan, an update never stores two files with the same content. */
  lemma {:induction false} UpdateKeepsFolderDeduplicated(st: Store, hash: Hasher, id: RoleId, f: RoleFields, upload: Option<Upload>, io: Io)
    requires FreshFor(st, io, upload)
    requires !io.scanFails && UniqueDigests(st.files, hash)
    ensures UniqueDigests(UpdateRole(st, hash, id, f, upload, io).0.files, hash)
  {
    if upload.Some? && CheckUpload(upload.value).None? && id in st.roles
       && HashOwner(st.roles, hash(upload.value.content), Some(id)).None? {
      ReplacingImageKeepsFolderDeduplicated(st, hash, id, f, upload.value, io);
    } else if upload.Some? && CheckUpload(upload.value).None? && id in st.roles {
      var owner := HashOwner(st.roles, hash(upload.value.content), Some(id)).value;
      assert owner in st.roles && owner != id && st.roles[owner].imageHash == Some(hash(upload.value.content));
    }
  }

  /** The case of an update that places a new image. */
  lemma {:induction false} ReplacingImageKeepsFolderDeduplicated(st: Store, hash: Hasher, id: RoleId, f: RoleFields, u: Upload, io: Io)
    requires FreshFor(st, io, Some(u)) && CheckUpload(u).None? && id in st.roles
    requires HashOwner(st.roles, hash(u.content), Some(id)).None?
    requires !io.scanFails && UniqueDigests(st.files, hash)
    ensures UniqueDigests(UpdateRole(st, hash, id, f, Some(u), io).0.files, hash)
  {
    UpdateUnfolds(st, hash, id, f, u, io);
    var p := PlaceImage(st.files, hash, u, io);
    if p.wrote {
      WriteUniqueDigests(st.files, hash, p.name, u.content);
    }
    var released := ReleaseReplaced(p.files, st.roles, id, UrlOf(p.name));
    ReleaseReplacedUniqueDigests(p.files, st.roles, id, UrlOf(p.name), hash);
    DiscardWrittenUniqueDigests(released, if p.wrote then Some(p.name) else None, hash);
  }

  // A store with one role whose image is `old.png`, and a request replacing that image.

  function OnesDigest(): Digest { seq(64, _ => '1') }
  function TwosDigest(): Digest { seq(64, _ => '2') }

  /** A digest function that tells the two example contents apart. */
  function ExampleHash(b: Bytes): Digest {
    if b == [1] then OnesDigest() else TwosDigest()
  }

  const ExampleRole: Role := Role("Seer", None, Villager, 1, Some(UrlOf("old.png")), Some(OnesDigest()), false, None)
  const ExampleStore: Store := Store(map[1 := ExampleRole], [StoredFile("old.png", [1])])
  const ExampleUpload: Upload := Upload("new", "image/png", [2])
  const ExampleIo: Io := Io("s", 2, false, false, true)
  const ExampleFields: RoleFields := RoleFields(None, None, None, Some(1))

  /** The example store is consistent. */
  lemma ExampleStoreConsistent()
    ensures Consistent(ExampleStore, ExampleHash)
  {
    assert Lookup(ExampleStore.files, "old.png") == Some([1]);
    assert FileOfUrl(UrlOf("old.png")) == Some("old.png");
    assert ImageStored(ExampleStore.files, ExampleHash, ExampleRole);
    assert ExampleStore.roles.Keys == {1};
  }

  /** The example upload's name has no extension, so the generated name is the stem `s` alone. */
  lemma ExampleName()
    ensures NewFileName(ExampleIo.stem, ExampleUpload.originalName) == "s"
  {
    var n := "new";
    assert Basename(n) == n;
    assert LastIndexOf(n, '.').None?;
    assert Extname(n) == [];
  }

  /** The example folder holds `old.png` only, not `s`. */
  lemma ExampleFolderLacksNewName()
    ensures !Has(ExampleStore.files, "s")
  {
    assert "old.png" != "s" by {
      assert |"old.png"| != |"s"|;
    }
    var files := [StoredFile("old.png", [1])];
    assert ExampleStore.files == files;
    assert Lookup(files, "s").None?;
  }

  /** The example request's generated name is `s`, which the folder does not hold. */
  lemma ExampleNameFresh()
    ensures NewFileName(ExampleIo.stem, ExampleUpload.originalName) == "s"
    ensures FreshFor(ExampleStore, ExampleIo, Some(ExampleUpload))
  {
    ExampleName();
    ExampleFolderLacksNewName();
    assert ValidStem("s");
  }

  /** The example upload's digest belongs to no file of the example folder, so it is written as `s`. */
  lemma ExamplePlacement()
    ensures FreshFor(ExampleStore, ExampleIo, Some(ExampleUpload))
    ensures PlaceImage(ExampleStore.files, ExampleHash, ExampleUpload, ExampleIo).name == "s"
  {
    ExampleNameFresh();
    assert OnesDigest() != TwosDigest() by {
      assert OnesDigest()[0] != TwosDigest()[0];
    }
    assert FolderMatch(ExampleStore.files, ExampleHash, TwosDigest(), false).None? by {
      assert NoDigest(ExampleStore.files, ExampleHash, TwosDigest());
    }
  }

  /** Under the example request the update fails at the row write, after the old file was released. */
  lemma ExampleUpdateLosesFile()
    ensures FreshFor(ExampleStore, ExampleIo, Some(ExampleUpload))
    ensures var out := UpdateRole(ExampleStore, ExampleHash, 1, ExampleFields, Some(ExampleUpload), ExampleIo);
      out.1 == ServerError && !Has(out.0.files, "old.png")
  {
    ExamplePlacement();
    var st, u, io := ExampleStore, ExampleUpload, ExampleIo;
    assert CheckUpload(u).None?;
    assert !UrlUsedByOther(st.roles, UrlOf("old.png"), 1);
    assert "s" != "old.png" by {
      assert |"s"| != |"old.png"|;
    }
    UpdateOldFileFate(st, ExampleHash, 1, ExampleFields, u, io, "old.png");
  }

  /**
   * The known gap of the update handler: the old file is unlinked before the row is written, so an
   * update whose row write fails leaves the role pointing at a file that is gone. Here a role's only
   * image is replaced, the write fails, and the consistent store becomes inconsistent.
   */
  lemma FailedUpdateLosesOldImage()
    ensures Consistent(ExampleStore, ExampleHash) && FreshFor(ExampleStore, ExampleIo, Some(ExampleUpload))
    ensures var out := UpdateRole(ExampleStore, ExampleHash, 1, ExampleFields, Some(ExampleUpload), ExampleIo);
      && out.1 == ServerError
      && out.0.roles == ExampleStore.roles
      && !Consistent(out.0, ExampleHash)
  {
    ExampleStoreConsistent();
    ExampleUpdateLosesFile();
    var out := UpdateRole(ExampleStore, ExampleHash, 1, ExampleFields, Some(ExampleUpload), ExampleIo);
    assert out.0.roles[1] == ExampleRole;
    assert !ImageStored(out.0.files, ExampleHash, ExampleRole);
  }

  // ---------------------------------------------------------------------------------------------
  // Delete
  // ---------------------------------------------------------------------------------------------

  /** Every delete keeps the store consistent: no remaining role loses its file. */
  lemma {:induction false} DeletePreservesConsistency(st: Store, hash: Hasher, id: RoleId)
    requires Consistent(st, hash)
    ensures Consistent(DeleteRole(st, id).0, hash)
  {
    var out := DeleteRole(st, id);
    if id in st.roles {
      forall k | k in out.0.roles ensures ImageStored(out.0.files, hash, out.0.roles[k]) {
        var rk := st.roles[k];
        assert ImageStored(st.files, hash, rk);
        if rk.imageUrl.Some? {
          var n := FileOfUrl(rk.imageUrl.value).value;
          if st.roles[id].imageUrl == Some(UrlOf(n)) {
            assert UrlUsedByOther(st.roles, UrlOf(n), id);
          }
        }
        ImageStoredFrame(st.files, out.0.files, hash, rk);
      }
    }
  }

  /** A delete only ever unlinks, so it never leaves two folder files with the same digest. */
  lemma {:induction false} DeleteKeepsFolderDeduplicated(st: Store, hash: Hasher, id: RoleId)
    requires UniqueDigests(st.files, hash)
    ensures UniqueDigests(DeleteRole(st, id).0.files, hash)
  {
    if id in st.roles {
      var url := st.roles[id].imageUrl;
      if IsSet(url) && !UrlUsedByOther(st.roles, url.value, id) && FileOfUrl(url.value).Some?
         && Has(st.files, FileOfUrl(url.value).value) {
        UnlinkUniqueDigests(st.files, hash, FileOfUrl(url.value).value);
      }
    }
  }

  /** In a consistent store, deleting a role with an image always removes its file. */
  lemma {:induction false} DeleteInConsistentStoreRemovesFile(st: Store, hash: Hasher, id: RoleId, m: string)
    requires Consistent(st, hash)
    requires id in st.roles && st.roles[id].imageUrl == Some(UrlOf(m))
    ensures !Has(DeleteRole(st, id).0.files, m)
  {
    if UrlUsedByOther(st.roles, UrlOf(m), id) {
      var other :| other in st.roles && other != id && st.roles[other].imageUrl == Some(UrlOf(m));
      NoSharedImageUrls(st, hash, id, other);
    }
  }

  /**
   * Two roles sharing one image file: deleting the first keeps the file for the second, and
   * deleting the second, the last reference, removes it.
   */
  lemma {:induction false} DeleteSharedImage(st: Store, a: RoleId, b: RoleId, m: string)
    requires a in st.roles && b in st.roles && a != b
    requires st.roles[a].imageUrl == Some(UrlOf(m)) && st.roles[b].imageUrl == Some(UrlOf(m))
    requires Has(st.files, m)
    requires forall k | k in st.roles && k != a && k != b :: st.roles[k].imageUrl != Some(UrlOf(m))
    ensures Has(DeleteRole(st, a).0.files, m)
    ensures !Has(DeleteRole(DeleteRole(st, a).0, b).0.files, m)
  {
    assert UrlUsedByOther(st.roles, UrlOf(m), a);
    var st1 := DeleteRole(st, a).0;
    assert b in st1.roles && st1.roles[b].imageUrl == Some(UrlOf(m));
    assert !UrlUsedByOther(st1.roles, UrlOf(m), b);
  }
}
