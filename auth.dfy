/**
 * The session handlers of controllers/AuthController.js: HTTP Basic login
 * (section 2 of RFC 7617) that stores `auth_<token>` in the shared Redis
 * client for 24 hours, and logout that deletes it.
 */
module Auth {
  import opened Wrappers
  import opened JsText
  import opened Http
  import Redis

  /** A document of the `users` collection; `password` holds the SHA-1 hex digest. */
  datatype User = User(id: string, email: string, password: string)

  /** The body of a successful login: `{ token }`. */
  datatype TokenJson = TokenJson(token: string)

  /** `24 * 60 * 60`: how long a session lives, in seconds. */
  const SessionSeconds: int := 24 * 60 * 60

  /**
   * What the `Authorization` header yields: a scheme other than `Basic`, a
   * header on which the handler throws outside any `try` (no credentials
   * part, or no colon in the decoded payload), or an email and a password.
   */
  datatype Credentials = NotBasic | Unhandled | Basic(email: string, password: string)

  /** The first space-separated word of the header is exactly `Basic`. */
  predicate HasBasicScheme(header: string) {
    header == "Basic" || (|header| >= 6 && header[..6] == "Basic ")
  }

  /**
   * `authHeader.split(' ')`, then the base64 payload decoded as UTF-8 and
   * split on `:`. The email is the text before the first colon, the password
   * the text between the first and the second.
   */
  function ParseCredentials(authorization: Option<string>, decode: string -> string): (c: Credentials)
    ensures c.NotBasic? <==> !HasBasicScheme(authorization.GetOr(""))
    ensures c.Basic? ==> ':' !in c.email && ':' !in c.password
  {
    var header := authorization.GetOr("");
    var words := Split(header, ' ');
    FirstPieceIs(header, ' ', "Basic");
    assert "Basic" + [' '] == "Basic ";
    if words[0] != "Basic" then NotBasic
    else if |words| < 2 then Unhandled
    else
      var fields := Split(decode(words[1]), ':');
      if |fields| < 2 then Unhandled else Basic(fields[0], fields[1])
  }

  /**
   * A header `Basic <payload>` whose payload decodes to
   * `email:password[:anything]` yields that email and password; text after a
   * second space or a second colon is dropped.
   */
  lemma ParsesBasicCredentials(payload: string, more: string, decode: string -> string,
                               email: string, password: string, rest: string)
    requires ' ' !in payload && (more == [] || more[0] == ' ')
    requires ':' !in email && ':' !in password && (rest == [] || rest[0] == ':')
    requires decode(payload) == email + ":" + password + rest
    ensures ParseCredentials(Some("Basic " + payload + more), decode) == Basic(email, password)
  {
    assert "Basic " + payload + more == "Basic" + [' '] + payload + more;
    SplitFirstTwo("Basic", payload, more, ' ');
    assert email + ":" + password + rest == email + [':'] + password + rest;
    SplitFirstTwo(email, password, rest, ':');
  }

  /** The bare word `Basic`, with no credentials after it, makes the handler throw. */
  lemma BareBasicThrows(decode: string -> string)
    ensures ParseCredentials(Some("Basic"), decode) == Unhandled
  {
    SplitNoSeparator("Basic", ' ');
  }

  /** A decoded payload without a colon has no password, and the handler throws. */
  lemma NoColonThrows(payload: string, more: string, decode: string -> string)
    requires ' ' !in payload && (more == [] || more[0] == ' ')
    requires ':' !in decode(payload)
    ensures ParseCredentials(Some("Basic " + payload + more), decode) == Unhandled
  {
    assert "Basic " + payload + more == "Basic" + [' '] + payload + more;
    SplitFirstTwo("Basic", payload, more, ' ');
    SplitNoSeparator(decode(payload), ':');
  }

  /** `findOne({ email, password })`: the first user with both. */
  function FindUser(users: seq<User>, email: string, password: string): (u: Option<User>)
    ensures u.None? <==> forall k :: 0 <= k < |users| ==> !(users[k].email == email && users[k].password == password)
    ensures u.Some? ==> u.value in users && u.value.email == email && u.value.password == password
    decreases |users|
  {
    if |users| == 0 then None
    else if users[0].email == email && users[0].password == password then Some(users[0])
    else
      assert forall k :: 0 < k < |users| ==> users[k] == users[1..][k - 1];
      FindUser(users[1..], email, password)
  }

  class AuthController {
    const users: seq<User>
    const redis: Redis.RedisClient
    /** `Buffer.from(token, 'base64').toString('utf8')` */
    const decodeBase64: string -> string
    /** The `sha1` package: the hex digest of a string. */
    const sha1: string -> string

    constructor (users: seq<User>, redis: Redis.RedisClient, decodeBase64: string -> string, sha1: string -> string)
      ensures this.users == users && this.redis == redis
      ensures this.decodeBase64 == decodeBase64 && this.sha1 == sha1
    {
      this.users := users;
      this.redis := redis;
      this.decodeBase64 := decodeBase64;
      this.sha1 := sha1;
    }

    /** The user a login with this header authenticates, if any. */
    function LoginUser(authorization: Option<string>): (u: Option<User>)
      ensures u.Some? ==>
                var c := ParseCredentials(authorization, decodeBase64);
                c.Basic? && u.value in users && u.value.email == c.email && u.value.password == sha1(c.password)
      ensures u.None? <==>
                var c := ParseCredentials(authorization, decodeBase64);
                !c.Basic? || forall k :: 0 <= k < |users| ==>
                               !(users[k].email == c.email && users[k].password == sha1(c.password))
    {
      match ParseCredentials(authorization, decodeBase64)
      case Basic(email, password) => FindUser(users, email, sha1(password))
      case _ => None
    }

    /**
     * `getConnect`. `uuid` is what `uuidv4()` returns. Only a successful login
     * changes the sessions, by exactly one entry.
     */
    method GetConnect(authorization: Option<string>, uuid: string) returns (resp: Response<TokenJson>)
      modifies redis
      ensures ParseCredentials(authorization, decodeBase64).NotBasic? ==>
                resp == Unauthorized() && redis.entries == old(redis.entries)
      ensures ParseCredentials(authorization, decodeBase64).Unhandled? ==>
                resp == NoReply && redis.entries == old(redis.entries)
      ensures ParseCredentials(authorization, decodeBase64).Basic? && LoginUser(authorization).None? ==>
                resp == Unauthorized() && redis.entries == old(redis.entries)
      ensures LoginUser(authorization).Some? ==>
                && resp == Reply(200, Payload(TokenJson(uuid)))
                && redis.entries == old(redis.entries)[Redis.SessionKey(uuid) :=
                                                         Redis.Entry(LoginUser(authorization).value.id, SessionSeconds)]
      // The new token now resolves to the user, and no other token changed.
      ensures LoginUser(authorization).Some? && LoginUser(authorization).value.id != "" ==>
                && Redis.ResolveToken(redis.entries, uuid) == Some(LoginUser(authorization).value.id)
                && forall t :: t != uuid ==> Redis.ResolveToken(redis.entries, t) == Redis.ResolveToken(old(redis.entries), t)
    {
      var credentials := ParseCredentials(authorization, decodeBase64);
      if credentials.NotBasic? {
        return Unauthorized();
      }
      if credentials.Unhandled? {
        return NoReply;
      }
      var user := FindUser(users, credentials.email, sha1(credentials.password));
      if user.None? {
        return Unauthorized();
      }
      ghost var before := redis.entries;
      var stored := redis.Set(Redis.SessionKey(uuid), user.value.id, SessionSeconds);
      assert stored;
      forall t | t != uuid
        ensures Redis.ResolveToken(redis.entries, t) == Redis.ResolveToken(before, t)
      {
        Redis.ResolveAfterStore(before, uuid, user.value.id, SessionSeconds, t);
      }
      Redis.ResolveAfterStore(before, uuid, user.value.id, SessionSeconds, uuid);
      resp := Reply(200, Payload(TokenJson(uuid)));
    }

    /** `getDisconnect`: ends the session of a valid token and nothing else. */
    method GetDisconnect(token: Option<string>) returns (resp: Response<TokenJson>)
      modifies redis
      ensures !Truthy(token) || Redis.ResolveToken(old(redis.entries), token.value).None? ==>
                resp == Unauthorized() && redis.entries == old(redis.entries)
      ensures Truthy(token) && Redis.ResolveToken(old(redis.entries), token.value).Some? ==>
                && resp == Reply(204, NoBody)
                && redis.entries == old(redis.entries) - {Redis.SessionKey(token.value)}
                && Redis.ResolveToken(redis.entries, token.value) == None
                && forall t :: t != token.value ==>
                     Redis.ResolveToken(redis.entries, t) == Redis.ResolveToken(old(redis.entries), t)
    {
      if !Truthy(token) {
        return Unauthorized();
      }
      var userId := redis.Get(Redis.SessionKey(token.value));
      if !Truthy(userId) {
        return Unauthorized();
      }
      ghost var before := redis.entries;
      redis.Del(Redis.SessionKey(token.value));
      forall t
        ensures t != token.value ==> Redis.ResolveToken(redis.entries, t) == Redis.ResolveToken(before, t)
        ensures Redis.ResolveToken(redis.entries, token.value) == None
      {
        Redis.ResolveAfterDelete(before, token.value, t);
      }
      resp := Reply(204, NoBody);
    }
  }
}
