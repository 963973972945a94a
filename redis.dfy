/**
 * The Redis session store (utils/redis.js) as an in-memory map from key to
 * value and expiry, and the `auth_<token>` lookup both controllers make.
 */
module Redis {
  import opened Wrappers

  /** A stored value and the expiry, in seconds, it was stored with. */
  datatype Entry = Entry(value: string, seconds: int)

  /** The key a session token is stored under. */
  function SessionKey(token: string): string {
    "auth_" + token
  }

  lemma SessionKeyInjective(a: string, b: string)
    requires SessionKey(a) == SessionKey(b)
    ensures a == b
  {
    assert a == SessionKey(a)[5..];
    assert b == SessionKey(b)[5..];
  }

  /**
   * The user a token stands for: the value under `auth_<token>`, unless it is
   * missing or empty (the handlers test `!userId`).
   */
  function ResolveToken(entries: map<string, Entry>, token: string): (user: Option<string>)
    ensures user.Some? <==> SessionKey(token) in entries && entries[SessionKey(token)].value != ""
    ensures user.Some? ==> user.value == entries[SessionKey(token)].value
  {
    var key := SessionKey(token);
    if key in entries && entries[key].value != "" then Some(entries[key].value) else None
  }

  /** Storing a session makes its token resolve to the user and leaves every other token as it was. */
  lemma ResolveAfterStore(entries: map<string, Entry>, token: string, user: string, seconds: int, other: string)
    ensures ResolveToken(entries[SessionKey(token) := Entry(user, seconds)], token)
              == if user == "" then None else Some(user)
    ensures other != token ==>
              ResolveToken(entries[SessionKey(token) := Entry(user, seconds)], other) == ResolveToken(entries, other)
  {
    if other != token && SessionKey(other) == SessionKey(token) {
      SessionKeyInjective(other, token);
    }
  }

  /** Deleting a session makes its token unresolvable and leaves every other token as it was. */
  lemma ResolveAfterDelete(entries: map<string, Entry>, token: string, other: string)
    ensures ResolveToken(entries - {SessionKey(token)}, token) == None
    ensures other != token ==>
              ResolveToken(entries - {SessionKey(token)}, other) == ResolveToken(entries, other)
  {
    if other != token && SessionKey(other) == SessionKey(token) {
      SessionKeyInjective(other, token);
    }
  }

  /** The shared client: `get`, `set` with an expiry, and `del`. Expiry is recorded, never enforced. */
  class RedisClient {
    var entries: map<string, Entry>

    constructor ()
      ensures entries == map[]
    {
      entries := map[];
    }

    /** `get(key)`: the stored value, `null` when there is none. */
    method Get(key: string) returns (reply: Option<string>)
      ensures reply.Some? <==> key in entries
      ensures reply.Some? ==> reply.value == entries[key].value
    {
      if key in entries {
        reply := Some(entries[key].value);
      } else {
        reply := None;
      }
    }

    /** `set(key, value, duration)`: rejects a duration that is not positive, otherwise stores. */
    method Set(key: string, value: string, duration: int) returns (ok: bool)
      modifies this
      ensures ok <==> duration > 0
      ensures entries == if ok then old(entries)[key := Entry(value, duration)] else old(entries)
    {
      if duration <= 0 {
        return false;
      }
      entries := entries[key := Entry(value, duration)];
      ok := true;
    }

    /** `del(key)`: removes the key, if present. */
    method Del(key: string)
      modifies this
      ensures entries == old(entries) - {key}
    {
      entries := entries - {key};
    }
  }
}
