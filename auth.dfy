/**
  The admin client's token state: what `auth.ts` keeps in `localStorage` and
  in the Authorization header of the shared HTTP client, and the route
  guard that decides who sees the admin pages.
 */
module Auth {
  import opened Wrappers

  /** The storage key `auth.ts` keeps the token under. */
  const TokenKey := "auth_token"

  /** The storage keys the route guard reads. */
  const GuardTokenKey := "token"
  const GuardUserKey := "user"

  /** A JavaScript string is truthy when it is not empty. */
  predicate HasToken(storage: map<string, string>, key: string) {
    key in storage && storage[key] != ""
  }

  /** What a login or register call yields: a failed call, or a payload with or without a token. */
  datatype AuthReply = Failed | Answered(token: Option<string>)

  class AuthStore {
    var storage: map<string, string>
    /** `api.defaults.headers.common["Authorization"]` */
    var authHeader: Option<string>

    /** The header carries the stored token exactly when one is stored. */
    predicate Synced()
      reads this
    {
      authHeader == (if HasToken(storage, TokenKey) then Some("Bearer " + storage[TokenKey]) else None)
    }

    /** A page load: whatever storage holds, and no header yet. */
    constructor (stored: map<string, string>)
      ensures storage == stored && authHeader.None?
    {
      storage := stored;
      authHeader := None;
    }

    /** `setAuthToken`: a non-empty token is stored and sent; anything else clears both. */
    method SetAuthToken(token: Option<string>)
      modifies this
      ensures token.Some? && token.value != "" ==>
        storage == old(storage)[TokenKey := token.value] && authHeader == Some("Bearer " + token.value)
      ensures token.None? || token.value == "" ==>
        storage == old(storage) - {TokenKey} && authHeader.None?
      ensures Synced()
    {
      if token.Some? && token.value != "" {
        storage := storage[TokenKey := token.value];
        authHeader := Some("Bearer " + token.value);
      } else {
        storage := storage - {TokenKey};
        authHeader := None;
      }
    }

    /** `initAuth`: a stored token is put on the header; storage is never changed. */
    method InitAuth()
      modifies this
      ensures storage == old(storage)
      ensures HasToken(storage, TokenKey) ==> authHeader == Some("Bearer " + storage[TokenKey])
      ensures !HasToken(storage, TokenKey) ==> authHeader == old(authHeader)
      ensures old(authHeader).None? || old(Synced()) ==> Synced()
    {
      if HasToken(storage, TokenKey) {
        authHeader := Some("Bearer " + storage[TokenKey]);
      }
    }

    /** `login`: the token state changes only when the call succeeds with a token in its payload. */
    method Login(reply: AuthReply)
      modifies this
      ensures reply.Answered? && reply.token.Some? && reply.token.value != "" ==>
        storage == old(storage)[TokenKey := reply.token.value] && authHeader == Some("Bearer " + reply.token.value)
      ensures !(reply.Answered? && reply.token.Some? && reply.token.value != "") ==>
        storage == old(storage) && authHeader == old(authHeader)
      ensures old(Synced()) ==> Synced()
    {
      if reply.Answered? && reply.token.Some? && reply.token.value != "" {
        SetAuthToken(reply.token);
      }
    }

    /** `register`: as `login`. */
    method Register(reply: AuthReply)
      modifies this
      ensures reply.Answered? && reply.token.Some? && reply.token.value != "" ==>
        storage == old(storage)[TokenKey := reply.token.value] && authHeader == Some("Bearer " + reply.token.value)
      ensures !(reply.Answered? && reply.token.Some? && reply.token.value != "") ==>
        storage == old(storage) && authHeader == old(authHeader)
      ensures old(Synced()) ==> Synced()
    {
      if reply.Answered? && reply.token.Some? && reply.token.value != "" {
        SetAuthToken(reply.token);
      }
    }

    /** `logout`: the local token is cleared whether or not the server call succeeded. */
    method Logout(callSucceeded: bool)
      modifies this
      ensures storage == old(storage) - {TokenKey} && authHeader.None?
      ensures !HasToken(storage, TokenKey) && Synced()
    {
      SetAuthToken(None);
    }

    /** `isAuthenticated`: a non-empty token is stored; in sync, exactly when the header is set. */
    method IsAuthenticated() returns (b: bool)
      ensures b <==> HasToken(storage, TokenKey)
      ensures Synced() ==> (b <==> authHeader.Some?)
    {
      b := HasToken(storage, TokenKey);
    }
  }

  // ---------------------------------------------------------------------
  // The admin route guard

  /** What `JSON.parse` makes of the stored user: an object (with or without a `user_type` string), null, another value, or an error. */
  datatype Parsed = JsonObject(userType: Option<string>) | JsonNull | JsonOther | Malformed

  datatype Outcome = Outlet | Redirect | Throws

  /** The stored user text, with `"{}"` standing in for a missing or empty entry. */
  function StoredUser(storage: map<string, string>, parse: string -> Parsed): (u: Parsed)
    ensures !HasToken(storage, GuardUserKey) ==> u == JsonObject(None)
    ensures HasToken(storage, GuardUserKey) ==> u == parse(storage[GuardUserKey])
  {
    if HasToken(storage, GuardUserKey) then parse(storage[GuardUserKey]) else JsonObject(None)
  }

  /**
    `ProtectedAdminRoute`: the user entry is parsed before the token is
    looked at, so unparsable text throws whatever the token; a stored null
    throws only when a token is present (the `||` stops before reading its
    field).  Otherwise the outlet renders exactly for a token and an admin.
   */
  function Guard(storage: map<string, string>, parse: string -> Parsed): (o: Outcome)
    ensures o == Outlet <==> HasToken(storage, GuardTokenKey) && StoredUser(storage, parse) == JsonObject(Some("admin"))
    ensures o == Throws <==>
      StoredUser(storage, parse) == Malformed || (HasToken(storage, GuardTokenKey) && StoredUser(storage, parse) == JsonNull)
    ensures !HasToken(storage, GuardTokenKey) && StoredUser(storage, parse) != Malformed ==> o == Redirect
  {
    var user := StoredUser(storage, parse);
    if user.Malformed? then Throws
    else if !HasToken(storage, GuardTokenKey) then Redirect
    else if user.JsonNull? then Throws
    else if user.JsonObject? && user.userType == Some("admin") then Outlet
    else Redirect
  }

  /**
    The guard reads "token" and "user", never the key `setAuthToken`
    writes: storing or removing the session token leaves its verdict as it
    was, so a login alone never opens the admin pages.
   */
  lemma TokenKeyIgnoredByGuard(storage: map<string, string>, parse: string -> Parsed, t: string)
    ensures Guard(storage[TokenKey := t], parse) == Guard(storage, parse)
    ensures Guard(storage - {TokenKey}, parse) == Guard(storage, parse)
  {
    assert HasToken(storage[TokenKey := t], GuardTokenKey) == HasToken(storage, GuardTokenKey);
    assert HasToken(storage[TokenKey := t], GuardUserKey) == HasToken(storage, GuardUserKey);
    assert HasToken(storage - {TokenKey}, GuardTokenKey) == HasToken(storage, GuardTokenKey);
    assert HasToken(storage - {TokenKey}, GuardUserKey) == HasToken(storage, GuardUserKey);
  }

  /** A login answered with a token changes nothing about the guard's verdict. */
  method LoginKeepsGuard(a: AuthStore, reply: AuthReply, parse: string -> Parsed)
    modifies a
    ensures Guard(a.storage, parse) == Guard(old(a.storage), parse)
  {
    a.Login(reply);
    if reply.Answered? && reply.token.Some? && reply.token.value != "" {
      TokenKeyIgnoredByGuard(old(a.storage), parse, reply.token.value);
    }
  }
}
