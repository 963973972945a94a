/**
 * A client of both controllers sharing one session store, showing what their
 * contracts let a caller conclude: the token a login returns opens the file
 * handlers, a folder uploaded with it can be shown and listed, and after
 * logout the same token is refused.
 */
module Scenario {
  import opened Wrappers
  import opened Http
  import Redis
  import Files
  import Auth

  method LoginUploadLogout(decodeText: string -> string, sha1: string -> string,
                           decodeBytes: string -> Files.Bytes, isObjectId: string -> bool,
                           payload: string, email: string, password: string,
                           userId: string, token: string, folderId: string)
    requires ' ' !in payload && ':' !in email && ':' !in password
    requires decodeText(payload) == email + ":" + password
    requires userId != "" && token != ""
    requires isObjectId(userId) && isObjectId(folderId)
  {
    var redis := new Redis.RedisClient();
    var user := Auth.User(userId, email, sha1(password));
    var auth := new Auth.AuthController([user], redis, decodeText, sha1);
    var files := new Files.FilesController(redis, None, decodeBytes, isObjectId);

    // Log in with `Authorization: Basic <payload>`.
    var header := "Basic " + payload;
    Auth.ParsesBasicCredentials(payload, "", decodeText, email, password, "");
    assert header + "" == header;
    assert auth.LoginUser(Some(header)) == Some(user);
    var login := auth.GetConnect(Some(header), token);
    assert login == Reply(200, Payload(Auth.TokenJson(token)));
    assert Redis.ResolveToken(redis.entries, token) == Some(userId);

    // Create a folder at the root.
    var folder := Files.UploadRequest(Some(token), Some("photos"), Some("folder"), None, None, None);
    assert Files.RequestError(folder) == None;
    var created := files.PostUpload(folder, "uuid", folderId);
    assert created.status == 201;
    var record := Files.FileRecord(folderId, userId, "photos", Files.Folder, false, Files.Root, None);
    assert files.records == [record];

    // It can be shown, and it is the first entry of the root listing.
    var shown := files.Show(Some(token), folderId);
    assert shown.status == 200;
    var listed := files.Index(Some(token), None, None);
    assert Files.Matching(files.records, userId, Files.Root) == [record];
    assert listed == Reply(200, Payload(Files.Many([record])));

    // After logout the token opens nothing.
    var logout := auth.GetDisconnect(Some(token));
    assert logout == Reply(204, NoBody);
    var refused := files.Show(Some(token), folderId);
    assert refused == Unauthorized();
  }
}
