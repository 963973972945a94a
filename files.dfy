/**
 * The file-record handlers of controllers/FilesController.js over an
 * in-memory store: the `files` collection is a sequence of records in
 * insertion (natural) order, the upload folder a map from path to bytes, and
 * sessions are read from the shared Redis client.
 */
module Files {
  import opened Wrappers
  import opened JsText
  import opened Http
  import Redis

  type Bytes = seq<bv8>

  datatype Kind = Folder | File | Image

  /** The parent a record is filed under: the root (stored as `0`) or a folder's id. */
  datatype ParentRef = Root | InFolder(id: string)

  /** A document of the `files` collection. `localPath` is `null` for folders. */
  datatype FileRecord = FileRecord(
    id: string,
    userId: string,
    name: string,
    kind: Kind,
    isPublic: bool,
    parent: ParentRef,
    localPath: Option<string>)

  /** The `x-token` header and the JSON body of an upload. */
  datatype UploadRequest = UploadRequest(
    token: Option<string>,
    name: Option<string>,
    kind: Option<string>,
    parentId: Option<string>,
    isPublic: Option<bool>,
    data: Option<string>)

  /** What the handlers answer with on success: one record or a page of them. */
  datatype Listing = One(record: FileRecord) | Many(records: seq<FileRecord>)

  const PageSize: nat := 20
  const DefaultFolderPath: string := "/tmp/files_manager"

  /** The `type` field, when it is one of the three accepted names. */
  function KindOf(kind: Option<string>): Option<Kind> {
    if kind == Some("folder") then Some(Folder)
    else if kind == Some("file") then Some(File)
    else if kind == Some("image") then Some(Image)
    else None
  }

  /** `isPublic || false` */
  function PublicFlag(isPublic: Option<bool>): bool {
    isPublic == Some(true)
  }

  /** `parentId ? new ObjectId(parentId) : 0` */
  function ParentOf(parentId: Option<string>): ParentRef {
    if Truthy(parentId) then InFolder(parentId.value) else Root
  }

  /** `process.env.FOLDER_PATH || '/tmp/files_manager'` */
  function FolderPath(env: Option<string>): string {
    if Truthy(env) then env.value else DefaultFolderPath
  }

  /** `path.join(dir, name)`, without the normalisation of `.`, `..` and repeated slashes. */
  function JoinPath(dir: string, name: string): string {
    dir + "/" + name
  }

  /**
   * The checks an upload makes on its header and body before it touches any
   * store, in their order: token, name, type, data.
   */
  function RequestError(req: UploadRequest): (r: Option<Response<Listing>>)
    ensures !Truthy(req.token) ==> r == Some(Unauthorized())
    ensures Truthy(req.token) && !Truthy(req.name) ==> r == Some(BadRequest("Missing name"))
    ensures Truthy(req.token) && Truthy(req.name) && KindOf(req.kind).None? ==>
              r == Some(BadRequest("Missing type"))
    ensures Truthy(req.token) && Truthy(req.name) && KindOf(req.kind) == Some(Folder) ==> r == None
    ensures Truthy(req.token) && Truthy(req.name) && KindOf(req.kind) in {Some(File), Some(Image)} ==>
              r == (if Truthy(req.data) then None else Some(BadRequest("Missing data")))
  {
    if !Truthy(req.token) then Some(Unauthorized())
    else if !Truthy(req.name) then Some(BadRequest("Missing name"))
    else if KindOf(req.kind).None? then Some(BadRequest("Missing type"))
    else if KindOf(req.kind) != Some(Folder) && !Truthy(req.data) then Some(BadRequest("Missing data"))
    else None
  }

  predicate Selects(r: FileRecord, id: string, owner: Option<string>) {
    r.id == id && (owner.None? || r.userId == owner.value)
  }

  /**
   * `findOne({ _id: id })`, or `findOne({ _id: id, userId: owner })` when an
   * owner is given: the first such record in natural order.
   */
  function FindFile(records: seq<FileRecord>, id: string, owner: Option<string>): (r: Option<FileRecord>)
    ensures r.None? <==> forall k :: 0 <= k < |records| ==> !Selects(records[k], id, owner)
    ensures r.Some? ==> r.value in records && Selects(r.value, id, owner)
    decreases |records|
  {
    if |records| == 0 then None
    else if Selects(records[0], id, owner) then Some(records[0])
    else
      assert forall k :: 0 < k < |records| ==> records[k] == records[1..][k - 1];
      FindFile(records[1..], id, owner)
  }

  /** The record found is the first selected one: every record before it is not selected. */
  lemma {:induction false} FindFileIsFirst(records: seq<FileRecord>, id: string, owner: Option<string>)
    ensures FindFile(records, id, owner).Some? ==>
              exists k :: 0 <= k < |records| && records[k] == FindFile(records, id, owner).value
                          && forall j :: 0 <= j < k ==> !Selects(records[j], id, owner)
    decreases |records|
  {
    if |records| > 0 && !Selects(records[0], id, owner) && FindFile(records, id, owner).Some? {
      var tail := records[1..];
      FindFileIsFirst(tail, id, owner);
      var k :| 0 <= k < |tail| && tail[k] == FindFile(tail, id, owner).value
               && forall j :: 0 <= j < k ==> !Selects(tail[j], id, owner);
      assert records[k + 1] == tail[k];
      forall j | 0 <= j < k + 1
        ensures !Selects(records[j], id, owner)
      {
        if j > 0 {
          assert records[j] == tail[j - 1];
        }
      }
    } else if |records| > 0 && Selects(records[0], id, owner) {
      assert records[0] == FindFile(records, id, owner).value;
    }
  }

  /**
   * The parent check of an upload: with a `parentId`, the id must be an
   * ObjectId (else the handler fails with 500), name a record (else
   * "Parent not found") and that record must be a folder (else "Parent is
   * not a folder"). The parent may belong to any user.
   */
  function ParentError(parentId: Option<string>, records: seq<FileRecord>, isObjectId: string -> bool)
    : (r: Option<Response<Listing>>)
    ensures !Truthy(parentId) ==> r == None
    ensures Truthy(parentId) && !isObjectId(parentId.value) ==> r == Some(InternalError())
    ensures Truthy(parentId) && isObjectId(parentId.value) ==>
              (r == Some(BadRequest("Parent not found")) <==>
                 forall k :: 0 <= k < |records| ==> records[k].id != parentId.value)
    ensures r == Some(BadRequest("Parent is not a folder")) ==>
              exists k :: 0 <= k < |records| && records[k].id == parentId.value && records[k].kind != Folder
    ensures r == None && Truthy(parentId) ==>
              exists k :: 0 <= k < |records| && records[k].id == parentId.value && records[k].kind == Folder
    ensures r in {None, Some(InternalError()), Some(BadRequest("Parent not found")),
                  Some(BadRequest("Parent is not a folder"))}
    ensures r == Some(InternalError()) <==> Truthy(parentId) && !isObjectId(parentId.value)
    // `findOne` answers the first record with that id; when it is no folder, the upload is refused.
    ensures Truthy(parentId) && isObjectId(parentId.value) &&
            (exists k :: 0 <= k < |records| && records[k].id == parentId.value && records[k].kind != Folder
                         && forall j :: 0 <= j < k ==> records[j].id != parentId.value) ==>
              r == Some(BadRequest("Parent is not a folder"))
  {
    if !Truthy(parentId) then None
    else if !isObjectId(parentId.value) then Some(InternalError())
    else
      FindFileIsFirst(records, parentId.value, None);
      match FindFile(records, parentId.value, None)
      case None => Some(BadRequest("Parent not found"))
      case Some(parent) =>
        if parent.kind != Folder then Some(BadRequest("Parent is not a folder")) else None
  }

  /** No two records share an id. */
  predicate UniqueIds(records: seq<FileRecord>) {
    forall i, j :: 0 <= i < j < |records| ==> records[i].id != records[j].id
  }

  /**
   * What every upload keeps true of the store: ids are unique, exactly the
   * files and images have a `localPath`, each such path holds a blob, and a
   * record's parent folder was inserted before it (so the folders form a
   * forest under the root).
   */
  ghost predicate WellFormed(records: seq<FileRecord>, blobs: map<string, Bytes>) {
    && UniqueIds(records)
    && (forall i :: 0 <= i < |records| ==> (records[i].localPath.None? <==> records[i].kind == Folder))
    && (forall i :: 0 <= i < |records| && records[i].localPath.Some? ==> records[i].localPath.value in blobs)
    && (forall i :: 0 <= i < |records| && records[i].parent.InFolder? ==>
          exists j :: 0 <= j < i && records[j].id == records[i].parent.id && records[j].kind == Folder)
  }

  /** Writing a blob keeps every stored path backed. */
  lemma WellFormedAfterWrite(records: seq<FileRecord>, blobs: map<string, Bytes>, path: string, content: Bytes)
    requires WellFormed(records, blobs)
    ensures WellFormed(records, blobs[path := content])
  {
  }

  /**
   * Inserting a record with a fresh id, a path exactly when it is no folder,
   * its blob written, and a parent folder already stored keeps the store well
   * formed.
   */
  lemma WellFormedAfterInsert(records: seq<FileRecord>, blobs: map<string, Bytes>, rec: FileRecord)
    requires WellFormed(records, blobs)
    requires forall k :: 0 <= k < |records| ==> records[k].id != rec.id
    requires rec.localPath.None? <==> rec.kind == Folder
    requires rec.localPath.Some? ==> rec.localPath.value in blobs
    requires rec.parent.InFolder? ==>
               exists j :: 0 <= j < |records| && records[j].id == rec.parent.id && records[j].kind == Folder
    ensures WellFormed(records + [rec], blobs)
  {
    var s := records + [rec];
    forall i | 0 <= i < |s| && s[i].parent.InFolder?
      ensures exists j :: 0 <= j < i && s[j].id == s[i].parent.id && s[j].kind == Folder
    {
      if i < |records| {
        var j :| 0 <= j < i && records[j].id == records[i].parent.id && records[j].kind == Folder;
        assert s[j] == records[j];
      } else {
        var j :| 0 <= j < |records| && records[j].id == rec.parent.id && records[j].kind == Folder;
        assert s[j] == records[j];
      }
    }
  }

  /** No record of a well-formed store is its own parent. */
  lemma NotOwnParent(records: seq<FileRecord>, blobs: map<string, Bytes>, i: nat)
    requires WellFormed(records, blobs) && i < |records|
    ensures records[i].parent != InFolder(records[i].id)
  {
    if records[i].parent.InFolder? {
      var j :| 0 <= j < i && records[j].id == records[i].parent.id && records[j].kind == Folder;
      assert records[j].id != records[i].id;
    }
  }

  // ---------------------------------------------------------------------------
  // Listing
  // ---------------------------------------------------------------------------

  predicate InListing(r: FileRecord, user: string, parent: ParentRef) {
    r.userId == user && r.parent == parent
  }

  /** `find({ userId: user, parentId: parent })`: the matching records, in store order. */
  function Matching(records: seq<FileRecord>, user: string, parent: ParentRef): (m: seq<FileRecord>)
    ensures |m| <= |records|
    ensures forall x :: x in m <==> x in records && InListing(x, user, parent)
    ensures forall k :: 0 <= k < |m| ==> m[k] in records && InListing(m[k], user, parent)
    decreases |records|
  {
    if |records| == 0 then []
    else
      var rest := Matching(records[1..], user, parent);
      assert forall x :: x in records <==> x == records[0] || x in records[1..];
      if InListing(records[0], user, parent) then [records[0]] + rest else rest
  }

  /** Matching keeps store order: the matches of a prefix come first. */
  lemma {:induction false} MatchingAppend(a: seq<FileRecord>, b: seq<FileRecord>, user: string, parent: ParentRef)
    ensures Matching(a + b, user, parent) == Matching(a, user, parent) + Matching(b, user, parent)
    decreases |a|
  {
    if |a| > 0 {
      assert (a + b)[1..] == a[1..] + b;
      MatchingAppend(a[1..], b, user, parent);
    } else {
      assert a + b == b;
    }
  }

  /** An upload adds its record to the end of its own listing and to no other listing. */
  lemma MatchingAfterInsert(records: seq<FileRecord>, rec: FileRecord, user: string, parent: ParentRef)
    ensures Matching(records + [rec], user, parent)
              == Matching(records, user, parent) + (if InListing(rec, user, parent) then [rec] else [])
  {
    MatchingAppend(records, [rec], user, parent);
    assert [rec][1..] == [];
  }

  function Min(a: int, b: int): int {
    if a <= b then a else b
  }

  /** `.skip(skip).limit(limit)` for a positive limit (`limit(0)` means no limit). */
  function Window(s: seq<FileRecord>, skip: nat, limit: nat): (w: seq<FileRecord>)
    requires limit > 0
    ensures |w| == if skip >= |s| then 0 else Min(limit, |s| - skip)
    ensures forall k :: 0 <= k < |w| ==> w[k] == s[skip + k]
  {
    if skip >= |s| then [] else s[skip..Min(skip + limit, |s|)]
  }

  /**
   * One page of a listing: the matches from position `page * 20` on, at
   * most twenty of them; past the last match the page is empty.
   */
  function ListPage(records: seq<FileRecord>, user: string, parent: ParentRef, page: nat): (listed: seq<FileRecord>)
    ensures var matches := Matching(records, user, parent);
            var skip := page * PageSize;
            && |listed| == (if skip >= |matches| then 0 else Min(PageSize, |matches| - skip))
            && (forall k :: 0 <= k < |listed| ==> listed[k] == matches[skip + k])
    ensures forall k :: 0 <= k < |listed| ==> listed[k] in records && InListing(listed[k], user, parent)
  {
    Window(Matching(records, user, parent), page * PageSize, PageSize)
  }

  /** Every match is listed: match `j` is entry `j % 20` of page `j / 20`. */
  lemma PageOfMatch(records: seq<FileRecord>, user: string, parent: ParentRef, j: nat)
    requires j < |Matching(records, user, parent)|
    ensures var listed := ListPage(records, user, parent, j / PageSize);
            j % PageSize < |listed| && listed[j % PageSize] == Matching(records, user, parent)[j]
  {
    assert (j / PageSize) * PageSize + j % PageSize == j;
  }

  /** Filtering a store with unique ids keeps them unique. */
  lemma {:induction false} MatchingUniqueIds(records: seq<FileRecord>, user: string, parent: ParentRef)
    requires UniqueIds(records)
    ensures UniqueIds(Matching(records, user, parent))
    decreases |records|
  {
    if |records| > 0 {
      var tail := records[1..];
      assert UniqueIds(tail) by {
        forall i, j | 0 <= i < j < |tail|
          ensures tail[i].id != tail[j].id
        {
          assert tail[i] == records[i + 1] && tail[j] == records[j + 1];
        }
      }
      MatchingUniqueIds(tail, user, parent);
      var rest := Matching(tail, user, parent);
      forall x | x in rest
        ensures x.id != records[0].id
      {
        var j :| 0 <= j < |tail| && tail[j] == x;
        assert records[j + 1] == x;
      }
    }
  }

  /**
   * No record is listed on two pages: in a store with unique ids, entries of
   * distinct pages are distinct records.
   */
  lemma PagesDisjoint(records: seq<FileRecord>, user: string, parent: ParentRef, p: nat, q: nat, k: nat, l: nat)
    requires UniqueIds(records)
    requires p != q
    requires k < |ListPage(records, user, parent, p)| && l < |ListPage(records, user, parent, q)|
    ensures ListPage(records, user, parent, p)[k] != ListPage(records, user, parent, q)[l]
  {
    var matches := Matching(records, user, parent);
    if p < q {
      assert p * PageSize + PageSize <= q * PageSize;
    } else {
      assert q * PageSize + PageSize <= p * PageSize;
    }
    MatchingUniqueIds(records, user, parent);
    var a, b := p * PageSize + k, q * PageSize + l;
    assert matches[a].id != matches[b].id by {
      if a < b {
        assert 0 <= a < b < |matches|;
      } else {
        assert 0 <= b < a < |matches|;
      }
    }
  }

  /** `req.query.parentId || '0'` */
  function QueryParentId(parentId: Option<string>): (id: string)
    ensures id == "0" <==> !Truthy(parentId) || parentId.value == "0"
    ensures Truthy(parentId) ==> id == parentId.value
  {
    if Truthy(parentId) then parentId.value else "0"
  }

  /** `parentId === '0' ? 0 : new ObjectId(parentId)`: an absent, empty or `'0'` query means the root. */
  function ListingParent(parentId: Option<string>): (p: ParentRef)
    ensures p == Root <==> !Truthy(parentId) || parentId.value == "0"
    ensures p.InFolder? ==> p.id == parentId.value
  {
    var id := QueryParentId(parentId);
    if id == "0" then Root else InFolder(id)
  }

  /** `parseInt(req.query.page, 10) || 0`: `NaN` (and `0`) become `0`. */
  function PageNumber(page: Option<string>): (n: int)
    ensures page.None? ==> n == 0
    ensures page.Some? && ParseInt(page.value).None? ==> n == 0
    ensures page.Some? && ParseInt(page.value).Some? ==> n == ParseInt(page.value).value
    ensures n != 0 ==> page.Some? && ParseInt(page.value) == Some(n)
  {
    match page
    case None => 0
    case Some(s) =>
      match ParseInt(s)
      case None => 0
      case Some(n) => n
  }

  /** A page number written in decimal is read back; anything without leading digits is page 0. */
  lemma PageNumberOf(n: nat, s: string)
    ensures PageNumber(Some(Decimal(n))) == n
    ensures TrimStart(s) == [] || !(IsDigit(TrimStart(s)[0]) || TrimStart(s)[0] in {'-', '+'}) ==>
              PageNumber(Some(s)) == 0
    ensures Unsigned(s) == [] || !IsDigit(Unsigned(s)[0]) ==> PageNumber(Some(s)) == 0
  {
    ParseIntDecimal(n, "");
    assert Decimal(n) + "" == Decimal(n);
  }

  // ---------------------------------------------------------------------------
  // The controller
  // ---------------------------------------------------------------------------

  class FilesController {
    var records: seq<FileRecord>
    var blobs: map<string, Bytes>
    const redis: Redis.RedisClient
    /** `process.env.FOLDER_PATH` */
    const folderEnv: Option<string>
    /** `Buffer.from(data, 'base64')` */
    const decodeBase64: string -> Bytes
    /** Whether `new ObjectId(s)` accepts `s` rather than throwing. */
    const isObjectId: string -> bool

    ghost predicate Valid()
      reads this
    {
      WellFormed(records, blobs)
    }

    constructor (redis: Redis.RedisClient, folderEnv: Option<string>, decodeBase64: string -> Bytes,
                 isObjectId: string -> bool)
      ensures Valid() && records == [] && blobs == map[]
      ensures this.redis == redis && this.folderEnv == folderEnv
      ensures this.decodeBase64 == decodeBase64 && this.isObjectId == isObjectId
    {
      records := [];
      blobs := map[];
      this.redis := redis;
      this.folderEnv := folderEnv;
      this.decodeBase64 := decodeBase64;
      this.isObjectId := isObjectId;
    }

    /** Where an upload with this random UUID stores its payload. */
    function UploadPath(fileUuid: string): string {
      JoinPath(FolderPath(folderEnv), fileUuid)
    }

    /** An upload that passes every check up to the parent lookup. */
    ghost predicate Admitted(req: UploadRequest, records: seq<FileRecord>)
      reads redis
    {
      && RequestError(req).None?
      && Redis.ResolveToken(redis.entries, req.token.value).Some?
      && ParentError(req.parentId, records, isObjectId).None?
    }

    /**
     * `postUpload`. `fileUuid` is what `crypto.randomUUID()` returns and
     * `newId` the `_id` that `insertOne` assigns.
     */
    method PostUpload(req: UploadRequest, fileUuid: string, newId: string) returns (resp: Response<Listing>)
      requires Valid()
      requires forall k :: 0 <= k < |records| ==> records[k].id != newId
      modifies this
      ensures Valid()
      ensures resp.Reply?
      // The body checks come first: a bad body is reported even for an unknown token.
      ensures RequestError(req).Some? ==>
                resp == RequestError(req).value && records == old(records) && blobs == old(blobs)
      ensures RequestError(req).None? && Redis.ResolveToken(redis.entries, req.token.value).None? ==>
                resp == Unauthorized() && records == old(records) && blobs == old(blobs)
      ensures RequestError(req).None? && Redis.ResolveToken(redis.entries, req.token.value).Some?
              && ParentError(req.parentId, old(records), isObjectId).Some? ==>
                resp == ParentError(req.parentId, old(records), isObjectId).value
                && records == old(records) && blobs == old(blobs)
      // Past the checks, the payload of a file or image is written first.
      ensures Admitted(req, old(records)) ==>
                blobs == if KindOf(req.kind) == Some(Folder) then old(blobs)
                         else old(blobs)[UploadPath(fileUuid) := decodeBase64(req.data.value)]
      // A session value that is no ObjectId fails only after that write.
      ensures Admitted(req, old(records)) && !isObjectId(Redis.ResolveToken(redis.entries, req.token.value).value) ==>
                resp == InternalError() && records == old(records)
      ensures resp.status == 201 <==>
                Admitted(req, old(records)) && isObjectId(Redis.ResolveToken(redis.entries, req.token.value).value)
      ensures resp.status != 201 ==> records == old(records)
      // Success appends exactly one record, and the reply echoes it.
      ensures resp.status == 201 ==>
                && |records| == |old(records)| + 1
                && records[..|old(records)|] == old(records)
                && var rec := records[|old(records)|];
                   && resp == Reply(201, Payload(One(rec)))
                   && rec.id == newId
                   && Some(rec.userId) == Redis.ResolveToken(redis.entries, req.token.value)
                   && Some(rec.name) == req.name
                   && Some(rec.kind) == KindOf(req.kind)
                   && rec.isPublic == PublicFlag(req.isPublic)
                   && rec.parent == ParentOf(req.parentId)
                   && rec.localPath == (if rec.kind == Folder then None else Some(UploadPath(fileUuid)))
      // A path not yet in the folder is no other record's path.
      ensures resp.status == 201 && records[|old(records)|].kind != Folder && UploadPath(fileUuid) !in old(blobs) ==>
                forall k :: 0 <= k < |old(records)| ==> old(records)[k].localPath != Some(UploadPath(fileUuid))
    {
      var invalid := RequestError(req);
      if invalid.Some? {
        return invalid.value;
      }
      var userId := redis.Get(Redis.SessionKey(req.token.value));
      if !Truthy(userId) {
        return Unauthorized();
      }
      var parentInvalid := ParentError(req.parentId, records, isObjectId);
      if parentInvalid.Some? {
        return parentInvalid.value;
      }
      var kind := KindOf(req.kind).value;
      var localPath: Option<string> := None;
      if kind != Folder {
        localPath := Some(UploadPath(fileUuid));
        WellFormedAfterWrite(records, blobs, localPath.value, decodeBase64(req.data.value));
        blobs := blobs[localPath.value := decodeBase64(req.data.value)];
      }
      if !isObjectId(userId.value) {
        return InternalError();
      }
      var newFile := FileRecord(newId, userId.value, req.name.value, kind, PublicFlag(req.isPublic),
                                ParentOf(req.parentId), localPath);
      WellFormedAfterInsert(records, blobs, newFile);
      records := records + [newFile];
      resp := Reply(201, Payload(One(newFile)));
    }

    /**
     * `getShow`: the record with this id, only if the caller owns it; a
     * record of another user is "Not found", public or not.
     */
    function Show(token: Option<string>, fileId: string): (r: Response<Listing>)
      reads this, redis
      ensures r.Reply? && r.status in {200, 401, 404, 500}
      ensures r.status == 401 <==> !Truthy(token) || Redis.ResolveToken(redis.entries, token.value).None?
      ensures r.status == 500 <==>
                Truthy(token) && var user := Redis.ResolveToken(redis.entries, token.value);
                user.Some? && (!isObjectId(fileId) || !isObjectId(user.value))
      ensures r.status == 404 <==>
                Truthy(token) && var user := Redis.ResolveToken(redis.entries, token.value);
                user.Some? && isObjectId(fileId) && isObjectId(user.value)
                && forall k :: 0 <= k < |records| ==> !(records[k].id == fileId && records[k].userId == user.value)
      ensures r.status == 200 ==>
                Truthy(token) && r.body.Payload? && r.body.value.One?
                && var f := r.body.value.record;
                   f in records && f.id == fileId && Redis.ResolveToken(redis.entries, token.value) == Some(f.userId)
    {
      if !Truthy(token) then Unauthorized()
      else match Redis.ResolveToken(redis.entries, token.value)
        case None => Unauthorized()
        case Some(user) =>
          if !isObjectId(fileId) || !isObjectId(user) then InternalError()
          else match FindFile(records, fileId, Some(user))
            case None => NotFound()
            case Some(f) => Reply(200, Payload(One(f)))
    }

    /**
     * `getIndex`: the caller's records under the queried parent, twenty to a
     * page, in store order.
     */
    function Index(token: Option<string>, parentId: Option<string>, page: Option<string>): (r: Response<Listing>)
      reads this, redis
      ensures r.Reply? && r.status in {200, 401, 500}
      ensures r.status == 401 <==> !Truthy(token) || Redis.ResolveToken(redis.entries, token.value).None?
      ensures r.status == 500 <==>
                Truthy(token) && var user := Redis.ResolveToken(redis.entries, token.value);
                user.Some? && (!isObjectId(user.value)
                               || (QueryParentId(parentId) != "0" && !isObjectId(QueryParentId(parentId)))
                               || PageNumber(page) < 0)
      ensures r.status == 200 ==>
                Truthy(token) && Redis.ResolveToken(redis.entries, token.value).Some? && PageNumber(page) >= 0
                && r == Reply(200, Payload(Many(ListPage(records, Redis.ResolveToken(redis.entries, token.value).value,
                                                         ListingParent(parentId), PageNumber(page) as nat))))
    {
      if !Truthy(token) then Unauthorized()
      else match Redis.ResolveToken(redis.entries, token.value)
        case None => Unauthorized()
        case Some(user) =>
          var parentQuery := QueryParentId(parentId);
          var pageNumber := PageNumber(page);
          if !isObjectId(user) || (parentQuery != "0" && !isObjectId(parentQuery)) || pageNumber < 0 then
            InternalError()
          else
            Reply(200, Payload(Many(ListPage(records, user, ListingParent(parentId), pageNumber))))
    }
  }
}
