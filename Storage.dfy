/**
 * Where an uploaded image is stored (lib/storage.ts): the sanitised file name and storage
 * key, the choice between the remote bucket and the local uploads directory, the refusal
 * to fall back to local disk in production, and the record handed back to the caller.
 *
 * The remote upload, `getPublicUrl`, `mkdir` and `writeFile` are foreign calls; their
 * outcomes arrive in a `StorageIo` value, and their effect on storage is kept in a
 * `StorageBackend` object.
 */
module Storage {
  import opened Wrappers
  import opened Js

  // ---------------------------------------------------------------------------
  // sanitizeFilename.

  /** The characters `[a-zA-Z0-9._-]` that sanitizeFilename keeps. */
  predicate AllowedChar(c: char) {
    ('a' <= c <= 'z') || ('A' <= c <= 'Z') || ('0' <= c <= '9') || c == '.' || c == '_' || c == '-'
  }

  predicate AllAllowed(s: string) {
    forall i :: 0 <= i < |s| ==> AllowedChar(s[i])
  }

  /**
   * What the regular expression makes of one character. It matches UTF-16 code units, so
   * a character beyond the Basic Multilingual Plane (two code units) becomes two underscores.
   */
  function SanitizeChar(c: char): string {
    if AllowedChar(c) then [c] else if c as int >= 0x10000 then "__" else "_"
  }

  /** `sanitizeFilename(name)`: every code unit outside `[a-zA-Z0-9._-]` replaced by `_`. */
  function SanitizeFilename(name: string): (r: string)
    ensures AllAllowed(r)
    ensures |r| == Utf16Length(name)
  {
    if name == [] then []
    else
      var head, tail := SanitizeChar(name[0]), SanitizeFilename(name[1..]);
      assert forall i :: |head| <= i < |head + tail| ==> (head + tail)[i] == tail[i - |head|];
      head + tail
  }

  /** A name made only of allowed characters comes back unchanged. */
  lemma {:induction false} SanitizeKeepsAllowed(name: string)
    requires AllAllowed(name)
    ensures SanitizeFilename(name) == name
  {
    if name != [] {
      SanitizeKeepsAllowed(name[1..]);
      assert [name[0]] + name[1..] == name;
    }
  }

  /** sanitizeFilename is idempotent. */
  lemma SanitizeIdempotent(name: string)
    ensures SanitizeFilename(SanitizeFilename(name)) == SanitizeFilename(name)
  {
    SanitizeKeepsAllowed(SanitizeFilename(name));
  }

  predicate InBasicPlane(s: string) {
    forall i :: 0 <= i < |s| ==> s[i] as int < 0x10000
  }

  /**
   * For a name within the Basic Multilingual Plane (one code unit per character) the map
   * is position by position: allowed characters stay, every other one becomes `_`.
   */
  lemma {:induction false} SanitizeByPosition(name: string)
    requires InBasicPlane(name)
    ensures |SanitizeFilename(name)| == |name|
    ensures forall i :: 0 <= i < |name| ==>
              SanitizeFilename(name)[i] == if AllowedChar(name[i]) then name[i] else '_'
  {
    if name != [] {
      SanitizeByPosition(name[1..]);
      var r := SanitizeFilename(name);
      assert r == SanitizeChar(name[0]) + SanitizeFilename(name[1..]);
      forall i | 0 <= i < |name|
        ensures r[i] == if AllowedChar(name[i]) then name[i] else '_'
      {
        if i > 0 {
          assert name[i] == name[1..][i - 1];
        }
      }
    }
  }

  /** The regular expression works code unit by code unit, so sanitising distributes over concatenation. */
  lemma {:induction false} SanitizeAppend(a: string, b: string)
    ensures SanitizeFilename(a + b) == SanitizeFilename(a) + SanitizeFilename(b)
  {
    if a == [] {
      assert a + b == b;
    } else {
      assert (a + b)[1..] == a[1..] + b;
      SanitizeAppend(a[1..], b);
    }
  }

  /**
   * For any name, the code unit where character i starts is that character when it is
   * allowed and `_` otherwise; a character beyond the Basic Multilingual Plane turns both
   * of its code units into `_`. Everything before and after keeps its place.
   */
  lemma SanitizeByCodeUnit(name: string, i: nat)
    requires i < |name|
    ensures var k := Utf16Length(name[..i]);
            k < |SanitizeFilename(name)|
            && SanitizeFilename(name)[k] == (if AllowedChar(name[i]) then name[i] else '_')
            && (name[i] as int >= 0x10000 ==> k + 1 < |SanitizeFilename(name)| && SanitizeFilename(name)[k + 1] == '_')
  {
    var pre, post := name[..i], name[i..];
    assert name == pre + post;
    SanitizeAppend(pre, post);
    assert post == [name[i]] + post[1..];
    assert SanitizeFilename(post) == SanitizeChar(name[i]) + SanitizeFilename(post[1..]);
  }

  /** Path separators lose their meaning. */
  lemma SanitizeExample()
    ensures SanitizeFilename("../x") == ".._x"
  {
  }

  // ---------------------------------------------------------------------------
  // getStorageConfig.

  datatype StorageConfig = StorageConfig(url: string, serviceRoleKey: string, bucket: string)

  const UrlVar: string := "NEXT_PUBLIC_SUPABASE_URL"
  const ServiceRoleKeyVar: string := "SUPABASE_SERVICE_ROLE_KEY"
  const BucketVar: string := "SUPABASE_STORAGE_BUCKET"

  /**
   * `getStorageConfig()`: the remote-storage settings, or none when any of the three
   * variables is unset or empty.
   */
  function GetStorageConfig(env: map<string, string>): (r: Option<StorageConfig>)
    ensures r.None? <==>
              !(TruthyString(EnvGet(env, UrlVar)) && TruthyString(EnvGet(env, ServiceRoleKeyVar))
                && TruthyString(EnvGet(env, BucketVar)))
    ensures r.Some? ==> r.value == StorageConfig(env[UrlVar], env[ServiceRoleKeyVar], env[BucketVar])
                        && r.value.url != "" && r.value.serviceRoleKey != "" && r.value.bucket != ""
  {
    var url, key, bucket := EnvGet(env, UrlVar), EnvGet(env, ServiceRoleKeyVar), EnvGet(env, BucketVar);
    if !TruthyString(url) || !TruthyString(key) || !TruthyString(bucket) then None
    else Some(StorageConfig(url.value, key.value, bucket.value))
  }

  /** `process.env.NODE_ENV === "production"`. */
  predicate IsProduction(env: map<string, string>) {
    EnvGet(env, "NODE_ENV") == Some("production")
  }

  // ---------------------------------------------------------------------------
  // Names, paths and the stored record.

  /** An uploaded `File`: its name, its declared MIME type (possibly empty) and its bytes. */
  datatype UploadedFile = UploadedFile(name: string, mimeType: string, bytes: seq<bv8>)

  datatype Folder = Completions | Attachments

  function FolderName(f: Folder): string {
    match f
    case Completions => "completions"
    case Attachments => "attachments"
  }

  /** What storeImage returns. */
  datatype StoredFile = StoredFile(path: string, originalFilename: string, mimeType: string, sizeBytes: nat)

  /** `${Date.now()}-${randomUUID()}-${sanitizeFilename(name)}`, clock and UUID passed in. */
  function StoredFilename(now: int, uuid: string, name: string): (f: string)
    ensures |f| == |IntToString(now)| + |uuid| + 2 + Utf16Length(name)
    ensures f[|f| - Utf16Length(name)..] == SanitizeFilename(name)
  {
    IntToString(now) + "-" + uuid + "-" + SanitizeFilename(name)
  }

  /** `${userId}/${folder}/${filename}`: the key inside the bucket. */
  function ObjectPath(userId: string, folder: Folder, filename: string): (p: string)
    ensures |p| == |userId| + |FolderName(folder)| + |filename| + 2
    ensures p[..|userId| + 1] == userId + "/"
    ensures p[|p| - |filename|..] == filename
  {
    var p := userId + "/" + FolderName(folder) + "/" + filename;
    assert p[..|userId| + 1] == userId + "/";
    assert p[|p| - |filename|..] == filename;
    p
  }

  /** The public path of a file written to the local uploads directory: no user or folder segment. */
  function LocalPath(filename: string): (p: string)
    ensures |p| == 9 + |filename|
    ensures p[..9] == "/uploads/" && p[9..] == filename
  {
    "/uploads/" + filename
  }

  const DefaultContentType: string := "application/octet-stream"

  /** `file.type || "application/octet-stream"`. */
  function ContentType(declared: string): (r: string)
    ensures r != ""
    ensures declared != "" ==> r == declared
    ensures declared == "" ==> r == DefaultContentType
  {
    if declared != "" then declared else DefaultContentType
  }

  const UploadFailedPrefix: string := "Storage upload failed: "
  const NotConfiguredMessage: string :=
    "Supabase Storage is not configured. Set SUPABASE_SERVICE_ROLE_KEY and SUPABASE_STORAGE_BUCKET."
  /** The storage service's reply to an upload onto an existing key when `upsert` is false. */
  const AlreadyExistsMessage: string := "The resource already exists"

  /**
   * The outcomes of the foreign calls: an error the remote upload reports, the URL
   * `getPublicUrl` gives, and an error `mkdir` or `writeFile` throws.
   */
  datatype StorageIo = StorageIo(uploadError: Option<string>, publicUrl: string, writeError: Option<string>)

  /**
   * The outcome of `storeImage`, where `taken` says whether the bucket already holds an
   * object under the key (the upload does not overwrite, so that is an error too).
   */
  function StoreResult(env: map<string, string>, taken: bool, file: UploadedFile, userId: string,
                       folder: Folder, now: int, uuid: string, io: StorageIo): (r: Result<StoredFile>)
    ensures GetStorageConfig(env).Some? && taken ==> r.Failure?
    ensures r.Success? && GetStorageConfig(env).Some? ==> io.uploadError.None?
    ensures r.Success? && GetStorageConfig(env).None? ==> !IsProduction(env) && io.writeError.None?
  {
    var filename := StoredFilename(now, uuid, file.name);
    var contentType := ContentType(file.mimeType);
    match GetStorageConfig(env)
    case Some(_) =>
      if io.uploadError.Some? then Failure(UploadFailedPrefix + io.uploadError.value)
      else if taken then Failure(UploadFailedPrefix + AlreadyExistsMessage)
      else Success(StoredFile(io.publicUrl, file.name, contentType, |file.bytes|))
    case None =>
      if IsProduction(env) then Failure(NotConfiguredMessage)
      else if io.writeError.Some? then Failure(io.writeError.value)
      else Success(StoredFile(LocalPath(filename), file.name, contentType, |file.bytes|))
  }

  /** Remote storage and the local uploads directory, as storeImage changes them. */
  class StorageBackend {
    /** Objects in the remote buckets, by bucket and object path. */
    var remote: map<(string, string), seq<bv8>>
    /** Files in the local uploads directory, by file name. */
    var local: map<string, seq<bv8>>

    constructor(remote: map<(string, string), seq<bv8>>, local: map<string, seq<bv8>>)
      ensures this.remote == remote && this.local == local
    {
      this.remote := remote;
      this.local := local;
    }

    /** Whether the bucket already holds the key storeImage would upload to. */
    function Taken(env: map<string, string>, userId: string, folder: Folder, filename: string): bool
      reads this
    {
      var config := GetStorageConfig(env);
      config.Some? && (config.value.bucket, ObjectPath(userId, folder, filename)) in remote
    }

    /**
     * `storeImage({ file, userId, folder })`. With a configuration it uploads to
     * `userId/folder/filename` without overwriting; without one it refuses in production
     * and otherwise writes the file to the local uploads directory.
     */
    method StoreImage(env: map<string, string>, file: UploadedFile, userId: string, folder: Folder,
                      now: int, uuid: string, io: StorageIo) returns (r: Result<StoredFile>)
      modifies this
      ensures r == StoreResult(env, old(Taken(env, userId, folder, StoredFilename(now, uuid, file.name))),
                               file, userId, folder, now, uuid, io)
      ensures var config := GetStorageConfig(env);
              remote == if config.Some? && r.Success?
                        then old(remote)[(config.value.bucket, ObjectPath(userId, folder, StoredFilename(now, uuid, file.name))) := file.bytes]
                        else old(remote)
      ensures local == if GetStorageConfig(env).None? && r.Success?
                       then old(local)[StoredFilename(now, uuid, file.name) := file.bytes] else old(local)
      ensures forall k :: k in old(remote) ==> k in remote && remote[k] == old(remote)[k]
    {
      var filename := StoredFilename(now, uuid, file.name);
      var contentType := ContentType(file.mimeType);
      var config := GetStorageConfig(env);
      if config.Some? {
        var key := (config.value.bucket, ObjectPath(userId, folder, filename));
        if io.uploadError.Some? {
          return Failure(UploadFailedPrefix + io.uploadError.value);
        }
        if key in remote {
          return Failure(UploadFailedPrefix + AlreadyExistsMessage);
        }
        remote := remote[key := file.bytes];
        return Success(StoredFile(io.publicUrl, file.name, contentType, |file.bytes|));
      }
      if IsProduction(env) {
        return Failure(NotConfiguredMessage);
      }
      if io.writeError.Some? {
        return Failure(io.writeError.value);
      }
      local := local[filename := file.bytes];
      r := Success(StoredFile(LocalPath(filename), file.name, contentType, |file.bytes|));
    }
  }

  // ---------------------------------------------------------------------------
  // What storeImage promises.

  /** A successful store reports the unsanitised name, the content type and the byte count. */
  lemma StoredRecord(env: map<string, string>, taken: bool, file: UploadedFile, userId: string,
                     folder: Folder, now: int, uuid: string, io: StorageIo)
    ensures var r := StoreResult(env, taken, file, userId, folder, now, uuid, io);
            r.Success? ==> r.value.originalFilename == file.name && r.value.sizeBytes == |file.bytes|
                           && r.value.mimeType == ContentType(file.mimeType)
  {
  }

  /**
   * Which backend answers: the remote path is the public URL; the local path is
   * `/uploads/` and the stored file name, with no user or folder segment.
   */
  lemma StoredPath(env: map<string, string>, taken: bool, file: UploadedFile, userId: string,
                   folder: Folder, now: int, uuid: string, io: StorageIo)
    ensures var r := StoreResult(env, taken, file, userId, folder, now, uuid, io);
            r.Success? ==> r.value.path == if GetStorageConfig(env).Some? then io.publicUrl
                                           else LocalPath(StoredFilename(now, uuid, file.name))
  {
  }

  /** Without a configuration in production storeImage fails, whatever the I/O would have done. */
  lemma ProductionRefusal(env: map<string, string>, taken: bool, file: UploadedFile, userId: string,
                          folder: Folder, now: int, uuid: string, io: StorageIo)
    requires GetStorageConfig(env).None? && IsProduction(env)
    ensures StoreResult(env, taken, file, userId, folder, now, uuid, io) == Failure(NotConfiguredMessage)
  {
  }

  /** A remote upload fails when the service reports an error or the key is already taken. */
  lemma RemoteFailure(env: map<string, string>, taken: bool, file: UploadedFile, userId: string,
                      folder: Folder, now: int, uuid: string, io: StorageIo)
    requires GetStorageConfig(env).Some?
    ensures StoreResult(env, taken, file, userId, folder, now, uuid, io).Failure?
            <==> io.uploadError.Some? || taken
  {
  }

  /** A UUID without slashes gives a stored file name without slashes, whatever the original name. */
  lemma StoredFilenameHasNoSlash(now: int, uuid: string, name: string)
    requires '/' !in uuid
    ensures '/' !in StoredFilename(now, uuid, name)
  {
    assert '/' !in IntToString(now);
    assert '/' !in SanitizeFilename(name);
  }

  /**
   * The stored file name is the clock reading, `-`, the UUID, `-` and the sanitised name,
   * in that order: two uploads of the same name differ in the timestamp or the UUID.
   */
  lemma StoredFilenameSegments(now: int, uuid: string, name: string)
    ensures var f, t := StoredFilename(now, uuid, name), IntToString(now);
            f[..|t|] == t && f[|t|] == '-'
            && f[|t| + 1..|t| + 1 + |uuid|] == uuid && f[|t| + 1 + |uuid|] == '-'
            && f[|t| + 2 + |uuid|..] == SanitizeFilename(name)
  {
  }

  /** The object path is the user id, the folder and the stored file name, in that order. */
  lemma ObjectPathSegments(userId: string, folder: Folder, filename: string)
    ensures var p := ObjectPath(userId, folder, filename);
            p[..|userId|] == userId && p[|userId|] == '/'
            && p[|userId| + 1..|p| - |filename| - 1] == FolderName(folder)
            && p[|p| - |filename| - 1] == '/' && p[|p| - |filename|..] == filename
  {
  }
}
