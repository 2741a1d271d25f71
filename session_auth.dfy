/**
 * Session authentication with an in-memory map (`SessionAuth`):
 * `create_session`, `user_id_for_session_id` and `destroy_session`.
 *
 * The map `user_id_by_session_id` is a class attribute, so every
 * `SessionAuth` object shares it; here it is a `SessionTable` object that
 * the `SessionAuth` objects are built over. As the code is written,
 * `create_session` files the new session id under the USER id, while the
 * lookup and the deletion use the SESSION id as the key; `CreateSession`
 * keeps that, and `LoginLogoutScenario` shows what follows from it.
 * `CreateSessionBySessionId` is the intended keying, and `SessionRoundTrip`
 * proves that login and logout then work on any table.
 */
module SessionAuthentication {
  import opened Wrappers

  /** A dynamically typed argument: None, a `str`, or a value of another type. */
  datatype Arg = Missing | Text(s: string) | OtherType

  /** What the model keeps of a request: the value of its session cookie, if any. */
  datatype Request = Request(sessionCookie: Option<string>)

  /** The map `user_id_by_session_id` shared by all `SessionAuth` objects. */
  class SessionTable {
    var entries: map<string, string>

    constructor ()
      ensures entries == map[]
    {
      entries := map[];
    }
  }

  class SessionAuth {
    const table: SessionTable

    constructor (table: SessionTable)
      ensures this.table == table
    {
      this.table := table;
    }

    /**
     * `create_session(user_id)`: None and no change unless `user_id` is a
     * string; otherwise the new session id is stored under the key
     * `user_id`, replacing only that entry, and returned.
     */
    method CreateSession(userId: Arg, sessionId: string) returns (r: Option<string>)
      modifies table
      ensures !userId.Text? ==> r == None && table.entries == old(table.entries)
      ensures userId.Text? ==> r == Some(sessionId) && table.entries == old(table.entries)[userId.s := sessionId]
    {
      if !userId.Text? {
        return None;
      }
      table.entries := table.entries[userId.s := sessionId];
      r := Some(sessionId);
    }

    /**
     * `create_session` as its map's name and its callers intend: the user
     * id is stored under the new session id, the key that
     * `user_id_for_session_id` and `destroy_session` look up.
     */
    method CreateSessionBySessionId(userId: Arg, sessionId: string) returns (r: Option<string>)
      modifies table
      ensures !userId.Text? ==> r == None && table.entries == old(table.entries)
      ensures userId.Text? ==> r == Some(sessionId) && table.entries == old(table.entries)[sessionId := userId.s]
    {
      if !userId.Text? {
        return None;
      }
      table.entries := table.entries[sessionId := userId.s];
      r := Some(sessionId);
    }

    /**
     * `user_id_for_session_id(session_id)`: None for None, the empty string
     * or a non-string; otherwise the value stored under that exact key, or
     * None when the key is absent.
     */
    method UserIdForSessionId(sessionId: Arg) returns (r: Option<string>)
      ensures !sessionId.Text? || sessionId.s == "" ==> r == None
      ensures sessionId.Text? && sessionId.s != "" ==>
                r == if sessionId.s in table.entries then Some(table.entries[sessionId.s]) else None
    {
      if !sessionId.Text? || sessionId.s == "" {
        return None;
      }
      if sessionId.s in table.entries {
        r := Some(table.entries[sessionId.s]);
      } else {
        r := None;
      }
    }

    /**
     * `destroy_session(request)`: False and no change without a request,
     * without a non-empty cookie, or when the lookup by the cookie gives
     * nothing or an empty string; otherwise the entry whose key is the
     * cookie value, and only it, is deleted, and the result is True.
     */
    method DestroySession(request: Option<Request>) returns (destroyed: bool)
      modifies table
      ensures destroyed <==>
                && request.Some? && request.value.sessionCookie.Some?
                && request.value.sessionCookie.value != ""
                && request.value.sessionCookie.value in old(table.entries)
                && old(table.entries)[request.value.sessionCookie.value] != ""
      ensures destroyed ==> table.entries == old(table.entries) - {request.value.sessionCookie.value}
      ensures !destroyed ==> table.entries == old(table.entries)
    {
      if request.None? {
        return false;
      }
      var cookie := request.value.sessionCookie;
      if cookie.None? || cookie.value == "" {
        return false;
      }
      var userId := UserIdForSessionId(Text(cookie.value));
      if userId.None? || userId.value == "" {
        return false;
      }
      table.entries := table.entries - {cookie.value};
      destroyed := true;
    }
  }

  /**
   * Logging in then out with the session id handed back in the cookie:
   * the session id is filed under the user id, so looking it up finds
   * nothing and logging out with it fails; the lookup by the user id is
   * the one that finds the session id.
   */
  method LoginLogoutScenario(userId: string, sessionId: string)
    returns (created: Option<string>, bySessionId: Option<string>, byUserId: Option<string>, loggedOut: bool)
    requires userId != "" && sessionId != userId
    ensures created == Some(sessionId)
    ensures bySessionId == None && byUserId == Some(sessionId)
    ensures !loggedOut
  {
    var table := new SessionTable();
    var auth := new SessionAuth(table);
    created := auth.CreateSession(Text(userId), sessionId);
    bySessionId := auth.UserIdForSessionId(Text(created.value));
    byUserId := auth.UserIdForSessionId(Text(userId));
    loggedOut := auth.DestroySession(Some(Request(created)));
  }

  /**
   * Two `SessionAuth` objects share one map: a session created through one
   * is seen, and can be destroyed, through the other; destroying it twice
   * fails the second time.
   */
  method SharedTableScenario(key: string, value: string)
    returns (seen: Option<string>, first: bool, second: bool)
    requires key != "" && value != ""
    ensures seen == Some(value)
    ensures first && !second
  {
    var table := new SessionTable();
    var a := new SessionAuth(table);
    var b := new SessionAuth(table);
    var created := a.CreateSession(Text(key), value);
    seen := b.UserIdForSessionId(Text(key));
    first := b.DestroySession(Some(Request(Some(key))));
    second := a.DestroySession(Some(Request(Some(key))));
  }

  /**
   * With the session filed under its own id, on any table: the cookie
   * holding the returned session id finds the user, logging out with it
   * succeeds and removes only that session, and afterwards it finds no one.
   */
  method SessionRoundTrip(auth: SessionAuth, userId: string, sessionId: string)
    returns (found: Option<string>, loggedOut: bool, after: Option<string>)
    requires userId != "" && sessionId != ""
    modifies auth.table
    ensures found == Some(userId) && loggedOut && after == None
    ensures auth.table.entries == old(auth.table.entries) - {sessionId}
  {
    var created := auth.CreateSessionBySessionId(Text(userId), sessionId);
    found := auth.UserIdForSessionId(Text(created.value));
    loggedOut := auth.DestroySession(Some(Request(created)));
    after := auth.UserIdForSessionId(Text(created.value));
  }
}
