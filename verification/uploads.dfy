/**
 * The upload side of the role-image store: bytes and their SHA-256 digests, the multipart upload
 * filter, generated file names, the URL a stored file is served at, and the upload folder itself.
 */
module Uploads {
  import opened Wrappers

  type Byte = b: int | 0 <= b < 256
  type Bytes = seq<Byte>

  predicate IsLowerHexDigit(c: char) {
    '0' <= c <= '9' || 'a' <= c <= 'f'
  }

  /** A hex-encoded SHA-256 digest: 64 lower-case hexadecimal characters. */
  predicate IsHexDigest(s: string) {
    |s| == 64 && forall i | 0 <= i < |s| :: IsLowerHexDigit(s[i])
  }

  type Digest = s: string | IsHexDigest(s) witness seq(64, _ => '0')

  /**
   * SHA-256 of a buffer, hex-encoded. The model never fixes the function: every operation takes it
   * as a parameter, and no property relies on it being collision-free.
   */
  type Hasher = Bytes -> Digest

  // ---------------------------------------------------------------------------------------------
  // The upload filter (runs before any handler logic)
  // ---------------------------------------------------------------------------------------------

  /** The `fileSize` limit: 5 MiB. */
  const MaxUploadBytes: nat := 5 * 1024 * 1024
  const AllowedMimeTypes: seq<string> := ["image/jpeg", "image/png", "image/webp"]

  /** One uploaded file held in memory: the client's file name, the declared MIME type and the bytes. */
  datatype Upload = Upload(originalName: string, mimeType: string, content: Bytes)

  datatype UploadError = UnsupportedType | FileTooLarge

  /**
   * The multipart filter: the MIME type is checked first, then the size; an upload of exactly
   * 5 MiB is accepted. `None` means the upload reaches the handler.
   */
  function CheckUpload(u: Upload): (r: Option<UploadError>)
    ensures r.None? <==> u.mimeType in AllowedMimeTypes && |u.content| <= MaxUploadBytes
    ensures u.mimeType !in AllowedMimeTypes ==> r == Some(UnsupportedType)
    ensures u.mimeType in AllowedMimeTypes && |u.content| > MaxUploadBytes ==> r == Some(FileTooLarge)
  {
    if u.mimeType !in AllowedMimeTypes then Some(UnsupportedType)
    else if |u.content| > MaxUploadBytes then Some(FileTooLarge)
    else None
  }

  // ---------------------------------------------------------------------------------------------
  // File extensions and generated names
  // ---------------------------------------------------------------------------------------------

  /** The position of the last `c` in `s`. */
  function LastIndexOf(s: string, c: char): (r: Option<nat>)
    ensures r.Some? ==> r.value < |s| && s[r.value] == c && forall j | r.value < j < |s| :: s[j] != c
    ensures r.None? ==> forall j | 0 <= j < |s| :: s[j] != c
  {
    if |s| == 0 then None
    else if s[|s| - 1] == c then Some(|s| - 1)
    else LastIndexOf(s[..|s| - 1], c)
  }

  /** `s` without its trailing slashes. */
  function TrimTrailingSlashes(s: string): (t: string)
    ensures t <= s
    ensures t == [] || t[|t| - 1] != '/'
    ensures (s == [] || s[|s| - 1] != '/') ==> t == s
  {
    if |s| > 0 && s[|s| - 1] == '/' then TrimTrailingSlashes(s[..|s| - 1]) else s
  }

  /** The last path component, after trailing slashes are dropped. */
  function Basename(s: string): (b: string)
    ensures forall j | 0 <= j < |b| :: b[j] != '/'
    ensures (forall j | 0 <= j < |s| :: s[j] != '/') ==> b == s
  {
    var t := TrimTrailingSlashes(s);
    match LastIndexOf(t, '/')
    case None => t
    case Some(i) => t[i + 1..]
  }

  /** The shape of an extension: empty, or a dot followed by characters that are neither dots nor slashes. */
  predicate IsExtension(e: string) {
    e == [] || (e[0] == '.' && forall i | 1 <= i < |e| :: e[i] != '.' && e[i] != '/')
  }

  /**
   * Node's `path.extname`: from the last dot of the base name to its end, except that a base name
   * with no dot, one whose only dot is its first character, and `..` have no extension.
   */
  function Extname(s: string): (e: string)
    ensures IsExtension(e)
  {
    var b := Basename(s);
    match LastIndexOf(b, '.')
    case None => []
    case Some(d) => if d == 0 || b == ".." then [] else b[d..]
  }

  /**
   * The `Date.now()` and `Math.random()` part of a generated name: non-empty, made of digits,
   * letters and one hyphen, so without dots or slashes.
   */
  predicate ValidStem(stem: string) {
    |stem| > 0 && forall i | 0 <= i < |stem| :: stem[i] != '.' && stem[i] != '/'
  }

  /** The name a new upload is written under: the generated stem plus the original extension. */
  function NewFileName(stem: string, originalName: string): string {
    stem + Extname(originalName)
  }

  /** A generated name keeps the uploaded file's extension and contains no slash. */
  lemma {:induction false} NewFileNameKeepsExtension(stem: string, originalName: string)
    requires ValidStem(stem)
    ensures Extname(NewFileName(stem, originalName)) == Extname(originalName)
    ensures '/' !in NewFileName(stem, originalName)
  {
    var e := Extname(originalName);
    var n := stem + e;
    StemExtensionShape(stem, e);
    assert Basename(n) == n;
    if e == [] {
      assert LastIndexOf(n, '.').None?;
    } else {
      assert LastIndexOf(n, '.') == Some(|stem|);
      assert n[0] == stem[0];
      assert n != "..";
      assert n[|stem|..] == e;
    }
  }

  /** The characters of a stem followed by an extension: no slash anywhere, and dots only where the extension starts. */
  lemma {:induction false} StemExtensionShape(stem: string, e: string)
    requires ValidStem(stem) && IsExtension(e)
    ensures forall i | 0 <= i < |stem + e| :: (stem + e)[i] != '/'
    ensures forall i | 0 <= i < |stem + e| && i != |stem| :: (stem + e)[i] != '.'
    ensures e != [] ==> (stem + e)[|stem|] == '.'
  {
    var n := stem + e;
    forall i | 0 <= i < |n|
      ensures n[i] != '/'
      ensures i != |stem| ==> n[i] != '.'
    {
      if i < |stem| {
        assert n[i] == stem[i];
      } else {
        assert n[i] == e[i - |stem|];
      }
    }
  }

  // ---------------------------------------------------------------------------------------------
  // URLs of stored files
  // ---------------------------------------------------------------------------------------------

  const UploadUrlPrefix: string := "/uploads/roles/"

  /** The file name a stored `image_url` points at, when it points into the upload folder. */
  function FileOfUrl(url: string): (r: Option<string>)
    ensures r.Some? ==> url == UploadUrlPrefix + r.value
    ensures r.None? ==> forall n :: url != UploadUrlPrefix + n
  {
    if UploadUrlPrefix <= url then Some(url[|UploadUrlPrefix|..]) else None
  }

  /** The `image_url` under which a stored file is served; its file is found again from it. */
  function UrlOf(name: string): (url: string)
    ensures FileOfUrl(url) == Some(name)
    ensures UploadUrlPrefix <= url
  {
    var url := UploadUrlPrefix + name;
    assert url[|UploadUrlPrefix|..] == name;
    url
  }

  /** Different files are served under different URLs. */
  lemma {:induction false} UrlOfInjective(a: string, b: string)
    ensures UrlOf(a) == UrlOf(b) ==> a == b
  {
    assert FileOfUrl(UrlOf(a)) == Some(a);
  }

  // ---------------------------------------------------------------------------------------------
  // The upload folder
  // ---------------------------------------------------------------------------------------------

  /** A regular file of the upload folder. */
  datatype StoredFile = StoredFile(name: string, content: Bytes)

  /** The content of the file called `n`, if there is one (the first such entry). */
  function Lookup(dir: seq<StoredFile>, n: string): (r: Option<Bytes>)
    ensures r.None? <==> forall i | 0 <= i < |dir| :: dir[i].name != n
  {
    if |dir| == 0 then None
    else if dir[0].name == n then Some(dir[0].content)
    else Lookup(dir[1..], n)
  }

  /** `fs.existsSync` for a file of the folder. */
  predicate Has(dir: seq<StoredFile>, n: string) {
    Lookup(dir, n).Some?
  }

  /** A directory lists each name once, and a file name holds no slash. */
  predicate IsFolder(dir: seq<StoredFile>) {
    && (forall i, j | 0 <= i < j < |dir| :: dir[i].name != dir[j].name)
    && (forall i | 0 <= i < |dir| :: '/' !in dir[i].name)
  }

  /** The upload folder, its files in the order they were written; the model scans them in that order. */
  type Folder = dir: seq<StoredFile> | IsFolder(dir) witness []

  /** In a folder, looking up an entry's name finds that entry's content. */
  lemma {:induction false} LookupEntry(dir: seq<StoredFile>, i: nat)
    requires IsFolder(dir) && i < |dir|
    ensures Lookup(dir, dir[i].name) == Some(dir[i].content)
  {
    if i > 0 {
      assert dir[0].name != dir[i].name;
      assert IsFolder(dir[1..]);
      assert dir[1..][i - 1] == dir[i];
      LookupEntry(dir[1..], i - 1);
    }
  }

  /** `fs.writeFileSync` under a name not yet in the folder: the file is added after every existing file. */
  function Write(dir: Folder, n: string, content: Bytes): (r: Folder)
    requires !Has(dir, n) && '/' !in n
    ensures |r| == |dir| + 1 && r[..|dir|] == dir
    ensures Lookup(r, n) == Some(content)
    ensures forall m | m != n :: Lookup(r, m) == Lookup(dir, m)
  {
    var r := dir + [StoredFile(n, content)];
    LookupAppend(dir, StoredFile(n, content));
    assert r[..|dir|] == dir;
    r
  }

  lemma {:induction false} LookupAppend(dir: seq<StoredFile>, f: StoredFile)
    ensures forall m | m != f.name :: Lookup(dir + [f], m) == Lookup(dir, m)
    ensures !Has(dir, f.name) ==> Lookup(dir + [f], f.name) == Some(f.content)
  {
    if |dir| > 0 {
      assert (dir + [f])[1..] == dir[1..] + [f];
      LookupAppend(dir[1..], f);
    }
  }

  /** `fs.unlinkSync`: the file called `n` leaves the folder; every other file stays, in order. */
  function Unlink(dir: seq<StoredFile>, n: string): (r: seq<StoredFile>)
    ensures forall k | 0 <= k < |r| :: r[k] in dir && r[k].name != n
    ensures forall f | f in dir && f.name != n :: f in r
    ensures !Has(dir, n) ==> r == dir
    ensures |r| <= |dir|
  {
    if |dir| == 0 then []
    else if dir[0].name == n then Unlink(dir[1..], n)
    else [dir[0]] + Unlink(dir[1..], n)
  }

  /** After an unlink, `n` is gone and every other name looks up as before. */
  lemma {:induction false} UnlinkLookup(dir: seq<StoredFile>, n: string, m: string)
    ensures Lookup(Unlink(dir, n), m) == if m == n then None else Lookup(dir, m)
  {
    if |dir| > 0 && dir[0].name != n {
      assert Unlink(dir, n)[1..] == Unlink(dir[1..], n);
      UnlinkLookup(dir[1..], n, m);
    } else if |dir| > 0 {
      UnlinkLookup(dir[1..], n, m);
    }
  }

  /** Unlinking keeps a folder a folder. */
  lemma {:induction false} UnlinkFolder(dir: seq<StoredFile>, n: string)
    requires IsFolder(dir)
    ensures IsFolder(Unlink(dir, n))
  {
    if |dir| > 0 {
      assert IsFolder(dir[1..]);
      UnlinkFolder(dir[1..], n);
      if dir[0].name != n {
        var rest := Unlink(dir[1..], n);
        UnlinkAvoidsName(dir[1..], n, dir[0].name);
        ConsFolder(dir[0], rest);
      }
    }
  }

  /** A name absent from a listing stays absent after an unlink. */
  lemma {:induction false} UnlinkAvoidsName(dir: seq<StoredFile>, n: string, x: string)
    requires forall i | 0 <= i < |dir| :: dir[i].name != x
    ensures forall k | 0 <= k < |Unlink(dir, n)| :: Unlink(dir, n)[k].name != x
  {
    var r := Unlink(dir, n);
    forall k | 0 <= k < |r| ensures r[k].name != x {
      assert r[k] in dir;
    }
  }

  /** Putting a file with a new, slash-free name in front of a folder gives a folder. */
  lemma {:induction false} ConsFolder(f: StoredFile, rest: seq<StoredFile>)
    requires IsFolder(rest) && '/' !in f.name
    requires forall k | 0 <= k < |rest| :: rest[k].name != f.name
    ensures IsFolder([f] + rest)
  {
    var r := [f] + rest;
    forall i, j | 0 <= i < j < |r| ensures r[i].name != r[j].name {
      if i == 0 {
        assert r[j] == rest[j - 1];
      } else {
        assert r[i] == rest[i - 1] && r[j] == rest[j - 1];
      }
    }
    forall i | 0 <= i < |r| ensures '/' !in r[i].name {
      if i > 0 {
        assert r[i] == rest[i - 1];
      }
    }
  }

  /** Removing a file that was just written restores the folder as it was. */
  lemma {:induction false} UnlinkWritten(dir: Folder, n: string, content: Bytes)
    requires !Has(dir, n) && '/' !in n
    ensures Unlink(Write(dir, n, content), n) == dir
  {
    UnlinkAppend(dir, StoredFile(n, content));
  }

  lemma {:induction false} UnlinkAppend(dir: seq<StoredFile>, f: StoredFile)
    requires !Has(dir, f.name)
    ensures Unlink(dir + [f], f.name) == dir
  {
    if |dir| == 0 {
      assert Unlink([f], f.name) == Unlink([], f.name);
    } else {
      assert (dir + [f])[1..] == dir[1..] + [f];
      UnlinkAppend(dir[1..], f);
    }
  }

  // ---------------------------------------------------------------------------------------------
  // Content matching
  // ---------------------------------------------------------------------------------------------

  /** No file of `dir` has content with digest `h`. */
  predicate NoDigest(dir: seq<StoredFile>, hash: Hasher, h: Digest) {
    forall j | 0 <= j < |dir| :: hash(dir[j].content) != h
  }

  /** The position of the first file, in folder order, whose content has digest `h`. */
  function FirstMatch(dir: seq<StoredFile>, hash: Hasher, h: Digest): (r: Option<nat>)
    ensures r.Some? ==> r.value < |dir| && hash(dir[r.value].content) == h
    ensures r.Some? ==> forall j | 0 <= j < r.value :: hash(dir[j].content) != h
    ensures r.None? <==> NoDigest(dir, hash, h)
  {
    FirstMatchFrom(dir, hash, h, 0)
  }

  function FirstMatchFrom(dir: seq<StoredFile>, hash: Hasher, h: Digest, i: nat): (r: Option<nat>)
    requires i <= |dir|
    requires forall j | 0 <= j < i :: hash(dir[j].content) != h
    ensures r.Some? ==> i <= r.value < |dir| && hash(dir[r.value].content) == h
    ensures r.Some? ==> forall j | 0 <= j < r.value :: hash(dir[j].content) != h
    ensures r.None? <==> NoDigest(dir, hash, h)
    decreases |dir| - i
  {
    if i == |dir| then None
    else if hash(dir[i].content) == h then Some(i)
    else FirstMatchFrom(dir, hash, h, i + 1)
  }

  /**
   * The folder scan: the name of the first file whose content has digest `h`. A scan that throws
   * (an unreadable directory or file) is reported as no match.
   */
  function FolderMatch(dir: Folder, hash: Hasher, h: Digest, scanFails: bool): (r: Option<string>)
    ensures r.Some? ==> !scanFails && Has(dir, r.value) && hash(Lookup(dir, r.value).value) == h
    ensures !scanFails && r.None? ==> NoDigest(dir, hash, h)
    ensures scanFails ==> r.None?
  {
    if scanFails then None
    else match FirstMatch(dir, hash, h)
      case None => None
      case Some(i) => LookupEntry(dir, i); Some(dir[i].name)
  }

  /** No two files of the folder have content with the same digest. */
  predicate UniqueDigests(dir: seq<StoredFile>, hash: Hasher) {
    forall i, j | 0 <= i < j < |dir| :: hash(dir[i].content) != hash(dir[j].content)
  }

  /** Unlinking a file keeps the digests of a folder distinct. */
  lemma {:induction false} UnlinkUniqueDigests(dir: seq<StoredFile>, hash: Hasher, n: string)
    requires UniqueDigests(dir, hash)
    ensures UniqueDigests(Unlink(dir, n), hash)
  {
    if |dir| > 0 {
      assert UniqueDigests(dir[1..], hash);
      UnlinkUniqueDigests(dir[1..], hash, n);
      if dir[0].name != n {
        var rest := Unlink(dir[1..], n);
        forall k | 0 <= k < |rest| ensures hash(rest[k].content) != hash(dir[0].content) {
          assert rest[k] in dir[1..];
        }
        ConsUniqueDigests(dir[0], rest, hash);
      }
    }
  }

  lemma {:induction false} ConsUniqueDigests(f: StoredFile, rest: seq<StoredFile>, hash: Hasher)
    requires UniqueDigests(rest, hash) && NoDigest(rest, hash, hash(f.content))
    ensures UniqueDigests([f] + rest, hash)
  {
    var r := [f] + rest;
    forall i, j | 0 <= i < j < |r| ensures hash(r[i].content) != hash(r[j].content) {
      if i == 0 {
        assert r[j] == rest[j - 1];
      } else {
        assert r[i] == rest[i - 1] && r[j] == rest[j - 1];
      }
    }
  }

  /** Writing a file whose digest no file has keeps the digests of a folder distinct. */
  lemma {:induction false} WriteUniqueDigests(dir: Folder, hash: Hasher, n: string, content: Bytes)
    requires !Has(dir, n) && '/' !in n
    requires UniqueDigests(dir, hash) && NoDigest(dir, hash, hash(content))
    ensures UniqueDigests(Write(dir, n, content), hash)
  {
    var r := Write(dir, n, content);
    forall i, j | 0 <= i < j < |r| ensures hash(r[i].content) != hash(r[j].content) {
      assert r[i] == dir[i];
      if j < |dir| {
        assert r[j] == dir[j];
      } else {
        assert r[j] == StoredFile(n, content);
      }
    }
  }

  /** In a folder whose digests are distinct, the scan finds the one file with that content. */
  lemma {:induction false} UniqueDigestsMatch(dir: Folder, hash: Hasher, n: string)
    requires UniqueDigests(dir, hash) && Has(dir, n)
    ensures FolderMatch(dir, hash, hash(Lookup(dir, n).value), false) == Some(n)
  {
    var i :| 0 <= i < |dir| && dir[i].name == n;
    LookupEntry(dir, i);
    var h := hash(dir[i].content);
    var k := FirstMatch(dir, hash, h);
    assert k == Some(i);
  }

  /** The scan as the handler runs it: file by file in folder order, stopping at the first match. */
  method CheckHashInUploadsFolder(dir: Folder, hash: Hasher, h: Digest, scanFails: bool)
    returns (found: Option<string>)
    ensures found == FolderMatch(dir, hash, h, scanFails)
    ensures found.Some? ==> exists i | 0 <= i < |dir| :: dir[i].name == found.value && hash(dir[i].content) == h
    ensures found.None? && !scanFails ==> forall i | 0 <= i < |dir| :: hash(dir[i].content) != h
  {
    if scanFails {
      return None;
    }
    var i := 0;
    while i < |dir|
      invariant 0 <= i <= |dir|
      invariant forall j | 0 <= j < i :: hash(dir[j].content) != h
    {
      if hash(dir[i].content) == h {
        return Some(dir[i].name);
      }
      i := i + 1;
    }
    return None;
  }
}
