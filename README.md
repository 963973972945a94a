# files_manager: file records and sessions

A model of the request handlers of a token-authenticated file storage
service (an Express application over MongoDB and Redis). Users log in with
HTTP Basic credentials (section 2 of RFC 7617) and receive a session token.
With that token in the `x-token` header they upload files, images and
folders, fetch one of their own records, and list their records under a
parent folder twenty to a page.

The stores are in-memory state:

- the `files` collection is a sequence of records in insertion (natural) order;
- the upload folder is a map from path to bytes;
- the Redis session store is a map from key to value and expiry, in one
  `RedisClient` object that both controllers share;
- the `users` collection is a sequence of users.

Each handler answers with a `Response`. It is either a status with a JSON
body (an `{ error }` message, a payload, or no body), or `NoReply`, meaning
the handler's promise rejects outside any `try` and Express sends nothing.

Modules:

- `Wrappers`: the `Option` type used for `undefined`/`null`.
- `Http`: responses and the error replies the handlers send.
- `JsText`: the JavaScript built-ins the handlers rely on. These are truthiness,
  `String.prototype.split` on one character, and `parseInt(s, 10)`.
- `Redis`: the session store with `get`, `set` and `del`, and the
  `auth_<token>` lookup.
- `Files`: `FilesController` with `postUpload` (a method that changes the
  record sequence and the blob map) and `getShow` and `getIndex` (functions
  that read the store). It also holds the validation, lookup and pagination
  functions these use.
- `Auth`: `AuthController` with `getConnect` and `getDisconnect` (methods that
  change the session store), and the parsing of the `Authorization` header.
- `Scenario`: a client of both controllers. It logs in, creates a folder,
  shows and lists it, then logs out. After logout the same token is refused.

Some operations of the handlers are parameters of the model rather than
definitions:

- base64 decoding (`Buffer.from(s, 'base64')`, section 4 of RFC 4648);
- the SHA-1 digest;
- whether `new ObjectId(s)` accepts `s`.

These are function-valued fields of the controllers. The fresh UUID
(`uuidv4()`, `crypto.randomUUID()`) and the `_id` that `insertOne` assigns
are method parameters.

Facts about the handlers that the model keeps:

- `postUpload` checks the token, name, type and data before it looks up the session.
- The error messages are "Missing name", "Missing type", "Missing data", "Parent not found" and "Parent is not a folder".
- A record at the root has parent `0`. In an upload, a `parentId` of `'0'` is passed to `new ObjectId`, which rejects it, so the answer is 500.
- The payload of a file or image is written before the session's user id is converted to an ObjectId. When that conversion fails, the payload stays in the folder with no record.
- The reply to a folder upload carries `localPath: null`.
- `postUpload` enqueues no thumbnail job.

## Model

| member | source | states |
|---|---|---|
| JsText.Split | controllers/AuthController.js:9 | `split` on one character: at least one piece, no piece contains the separator, and joining the pieces with it gives back the text |
| JsText.SplitNoSeparator | controllers/AuthController.js:14 | a text without the separator splits into itself alone |
| JsText.SplitAtFirst | controllers/AuthController.js:14 | the first piece is the text before the first separator, followed by the split of the remainder |
| JsText.SplitFirstTwo | controllers/AuthController.js:14 | the first two pieces are the texts before the first and second separators, whatever follows the second |
| JsText.SplitJoin | controllers/AuthController.js:14 | splitting a join of separator-free pieces gives those pieces back (split is the inverse of join) |
| JsText.FirstPieceIs | controllers/AuthController.js:9-11 | the first piece equals a word exactly when the text is that word or starts with the word and the separator |
| JsText.TrimStart | controllers/FilesController.js:125 | `parseInt` first skips white space: the result is a suffix, only white space was removed, and it does not start with white space |
| JsText.DigitPrefix | controllers/FilesController.js:125 | the digits `parseInt` reads: a prefix made only of digits and followed by no digit |
| JsText.ParseDigits | controllers/FilesController.js:125 | no number (`NaN`) exactly when no digit starts the text |
| JsText.ParseInt | controllers/FilesController.js:125 | `parseInt(s, 10)` is `NaN` exactly when no digit follows the leading white space and the optional sign; otherwise it is the value of those digits, negated exactly when the sign is `-` |
| JsText.Decimal | controllers/FilesController.js:125 | the decimal numeral of a number is non-empty and made only of digits |
| JsText.DecimalValue | controllers/FilesController.js:125 | the digits of the decimal numeral of `n` denote `n` |
| JsText.DigitPrefixOf | controllers/FilesController.js:125 | digits followed by a non-digit are read up to the non-digit |
| JsText.TrimStartSigned | controllers/FilesController.js:125 | a text that starts with a digit or a sign has no white space to skip |
| JsText.ParseDigitsOf | controllers/FilesController.js:125 | the digits at the front of a text are read as their value, whatever non-digit text follows |
| JsText.ParseDigitsDecimal | controllers/FilesController.js:125 | reading the digits of a decimal numeral gives back the number |
| JsText.ParseIntDecimal | controllers/FilesController.js:125 | `parseInt` reads back any number written in decimal, followed by any text that does not start with a digit |
| Redis.SessionKeyInjective | controllers/AuthController.js:22 | distinct tokens are stored under distinct `auth_` keys |
| Redis.ResolveToken | controllers/FilesController.js:30-35 | a token resolves to a user exactly when its `auth_` key is present with a non-empty value, and then to that value |
| Redis.ResolveAfterStore | controllers/AuthController.js:21-22 | after a session is stored, its token resolves to the stored user id (none if that id is empty), and every other token resolves as before |
| Redis.ResolveAfterDelete | controllers/AuthController.js:34 | after a session key is deleted, its token resolves to nothing and every other token resolves as before |
| Redis.RedisClient.constructor | utils/redis.js:4-10 | a new client holds no keys |
| Redis.RedisClient.Get | utils/redis.js:16-23 | the stored value exactly when the key is present, otherwise `null`; the store is unchanged |
| Redis.RedisClient.Set | utils/redis.js:25-37 | succeeds exactly when the duration is positive; on success the key maps to the value and duration, otherwise nothing changes |
| Redis.RedisClient.Del | utils/redis.js:39-46 | the key is removed and nothing else changes |
| Files.RequestError | controllers/FilesController.js:13-27 | the checks run in order, before any store is read: no token gives 401, then no name gives 400 "Missing name", then a type outside folder/file/image gives "Missing type", then a file or image without data gives "Missing data"; a folder needs no data |
| Files.FindFile | controllers/FilesController.js:109 | `findOne` finds nothing exactly when no record has that id (and that owner, when one is given); otherwise it finds a stored record that has them |
| Files.FindFileIsFirst | controllers/FilesController.js:109 | the record found is the first matching one in store order |
| Files.ParentError | controllers/FilesController.js:40-49 | no parentId passes; 500 exactly when the parentId is no ObjectId; "Parent not found" exactly when no record has that id; "Parent is not a folder" exactly when the first record with that id is not a folder (only then does a record with that id fail to be a folder); passing means a folder with that id exists; the parent's owner is not checked |
| Files.WellFormedAfterInsert | controllers/FilesController.js:66-75 | inserting a record with a fresh id, a path exactly when it is not a folder, its blob written and its parent folder already stored keeps the store well formed |
| Files.NotOwnParent | controllers/FilesController.js:66-75 | in a store built by uploads, no record is its own parent |
| Files.Matching | controllers/FilesController.js:139-145 | the listing query returns only stored records of the caller under the queried parent, and every such record |
| Files.MatchingAppend | controllers/FilesController.js:144-148 | the listing keeps store order: the matches among earlier records come first |
| Files.MatchingAfterInsert | controllers/FilesController.js:75 | an insert adds its record at the end of its own listing and to no other listing |
| Files.Window | controllers/FilesController.js:146-147 | `skip(n).limit(m)` for a positive `m`: at most `m` records, empty when `n` is past the end, entry `k` being entry `n + k` |
| Files.ListPage | controllers/FilesController.js:139-148 | page `p` holds the matches from position `20p` on, at most 20 and none past the end, each owned by the caller and under the queried parent |
| Files.PageOfMatch | controllers/FilesController.js:146-147 | every match is listed: match `j` is entry `j % 20` of page `j / 20` |
| Files.MatchingUniqueIds | controllers/FilesController.js:144-145 | the listing of a store whose ids are unique has unique ids |
| Files.PagesDisjoint | controllers/FilesController.js:144-148 | in a store with unique ids, no record is listed on two pages |
| Files.QueryParentId | controllers/FilesController.js:124 | the query parentId, defaulting to `'0'`: `'0'` exactly when the query parentId is absent, empty or `'0'`; otherwise the query value |
| Files.ListingParent | controllers/FilesController.js:124-141 | the listing is of the root exactly when the query parentId is absent, empty or `'0'`; otherwise it is of the folder with that id |
| Files.PageNumber | controllers/FilesController.js:125 | `parseInt(page, 10)`, defaulting to 0: an absent or unparsable page is 0; otherwise the page number is what `parseInt` reads |
| Files.PageNumberOf | controllers/FilesController.js:125 | a page written in decimal is that page; a page with no digit after its leading white space and optional sign (such as `-`, `+x`, `-abc`) is page 0 |
| Files.FilesController.constructor | controllers/FilesController.js:8 | the controller starts with no records and no blobs, over the given session store |
| Files.FilesController.PostUpload | controllers/FilesController.js:9-91 | each failed check gives its response and changes nothing; after the checks the payload of a file or image is written to its path before the user id is converted, so a user id that is no ObjectId gives 500 with the blob written and no record; 201 exactly when every check passes; then exactly one record is appended, with the session user, the name, the type, `isPublic` true only when given true, the parent or root, and a path only for files and images; the reply echoes that record; the store stays well formed |
| Files.FilesController.Show | controllers/FilesController.js:93-120 | 401 exactly when the token is missing or unknown; 500 exactly when the file id or the user id is no ObjectId; 404 exactly when the caller owns no record with that id, public or not; on 200 the record is stored, has that id and belongs to the caller |
| Files.FilesController.Index | controllers/FilesController.js:122-155 | 401 exactly when the token is missing or unknown; 500 exactly when the user id or a non-root parentId is no ObjectId, or the page is negative; otherwise 200 with the requested page of the caller's records under the parent |
| Auth.ParseCredentials | controllers/AuthController.js:8-14 | the header is refused exactly when its first space-separated word is not `Basic`; email and password come from splitting the decoded payload on `:` and contain no colon |
| Auth.ParsesBasicCredentials | controllers/AuthController.js:9-14 | `Basic <payload>` whose payload decodes to `email:password` yields that email and password; text after a second space or a second colon is dropped |
| Auth.BareBasicThrows | controllers/AuthController.js:9-13 | the bare word `Basic` has no payload to decode, and the handler throws |
| Auth.NoColonThrows | controllers/AuthController.js:9-16 | a header `Basic <payload>`, with any text after a second space, whose payload decodes without a colon leaves the password undefined, and hashing it throws |
| Auth.FindUser | controllers/AuthController.js:16-17 | no user is found exactly when no user has that email and that password hash; otherwise the user found is one that has both |
| Auth.AuthController.LoginUser | controllers/AuthController.js:13-19 | a login finds a user exactly when the header carries Basic credentials and some user has that email and the SHA-1 of that password; the user found is one of them |
| Auth.AuthController.constructor | controllers/AuthController.js:6 | the controller reads the given users and session store |
| Auth.AuthController.GetConnect | controllers/AuthController.js:7-25 | a non-Basic header gives 401; a header that makes the handler throw sends nothing; unknown credentials give 401; in each of these cases the sessions do not change; a login stores exactly `auth_<uuid>` with the user id and 86400 seconds, and replies 200 with that token; the new token then resolves to the user and no other token changes |
| Auth.AuthController.GetDisconnect | controllers/AuthController.js:27-36 | a missing or unknown token gives 401 and nothing changes; otherwise the key `auth_<token>` is deleted and the reply is 204; the token then resolves to nothing and no other token changes |

## Left out

- controllers/worker.js, the thumbnail worker, is not part of this model. It uses a job queue and an image library, which are foreign calls with background concurrency. As written it also cannot produce thumbnails: it names an undefined `File`, it throws unconditionally, and it calls an undefined `done`.
- server.js, controllers/AppController.js and utils/db.js are not part of this model. They start the server, check the connections and count documents.
- Session expiry is not modelled. The duration given to `set` is recorded and checked to be positive, but keys never expire.
- Errors from the Redis client, the MongoDB driver and the filesystem are not modelled. These are `reject(err)`, failed inserts, and `fs.mkdirSync`/`fs.writeFileSync` throwing. Such failures give 500 in the file handlers.
- The creation of the upload folder (`fs.existsSync`/`fs.mkdirSync`) is not modelled. The blob map is a flat map from path to bytes.
- Files.JoinPath: `path.join` is modelled as `dir + "/" + name`, without its normalisation of `.`, `..` and repeated slashes.
- Base64 decoding, SHA-1, UUID generation and the ObjectId parser are parameters. Their own correctness is not modelled.
- Files.FilesController.Show: ObjectIds are compared as the strings given. The driver treats hex strings that differ only in letter case as one id, and the model does not.
- Body fields that are JSON values other than strings are not modelled. A numeric `name` or a non-boolean `isPublic` are examples. `isPublic` is a boolean or absent.
- Request query values given as arrays are not modelled. Each query value is a string or absent.
- JsText.ParseInt: numbers are unbounded integers. Past 2^53 JavaScript's `parseInt` loses precision.
- JsText.ParseIntDecimal: only non-negative numbers are read back. For a minus sign followed by a numeral, no round trip is stated.
- Publishing, unpublishing and content download are not modelled. They are not present in the controllers.
- Files.ParentError: ObjectIds are compared as the strings given. The driver treats hex strings that differ only in letter case as one id, and it also accepts a 12-character string as the raw bytes of an id. An upload whose `parentId` spells an existing folder's id in another case is "Parent not found" in the model, where the driver finds the folder.
- Files.FilesController.Index: ObjectIds are compared as the strings given, as for `Files.ParentError`. A query `parentId` that differs only in letter case from a folder's id lists nothing in the model, where the driver lists that folder's children.
- Each handler is modelled as one atomic step. The handlers await between `get`, `findOne` and `insertOne`/`del`, so other requests can run in between. For example, two concurrent `getDisconnect` calls with one token can both answer 204, while the model answers 401 to the second.
