/**
 * The session package: the "session" cookie that carries a user's name and session
 * key, and the verification, creation and clearing of sessions built on the helper
 * package's database operations.
 *
 * The secure-cookie codec is abstract: a value it sealed under a cookie name decodes,
 * under that name, to the map it sealed; any other value fails to decode.
 */
module Session {
  import opened Tables
  import opened Helper

  const CookieName := "session"
  const CookiePath := "/"
  const UserField := "u"
  const KeyField := "key"
  const SessionExpiredMessage := "Session expired, please login"

  /** A cookie value: one the codec sealed under a name, or anything else a client sends. */
  datatype CookieValue = Sealed(name: string, payload: map<string, string>) | Unsealed(raw: string)

  /** The part of an inbound request the session code reads: its "session" cookie, if any. */
  datatype Request = Request(sessionCookie: Option<CookieValue>)

  /** A cookie the server sets on the response. */
  datatype Cookie = Cookie(name: string, value: CookieValue, path: string)

  function Encode(name: string, payload: map<string, string>): CookieValue {
    Sealed(name, payload)
  }

  /** Decoding succeeds only on what Encode produced under the same name. */
  function Decode(name: string, value: CookieValue): (r: Option<map<string, string>>)
    ensures r.Some? ==> value == Encode(name, r.value)
  {
    if value.Sealed? && value.name == name then Some(value.payload) else None
  }

  /** Decoding inverts encoding under the same cookie name. */
  lemma DecodeEncode(name: string, payload: map<string, string>)
    ensures Decode(name, Encode(name, payload)) == Some(payload)
  {
  }

  /** Indexing a Go map: the zero value "" for a missing field. */
  function Field(m: map<string, string>, f: string): string {
    if f in m then m[f] else ""
  }

  /**
   * setCookieHandler: a cookie named "session" with path "/" whose sealed payload holds
   * the user under "u" and the session key under "key".
   */
  function SetCookieHandler(username: string, sessionKey: string): (c: Cookie)
    ensures c.name == CookieName && c.path == CookiePath
    ensures Decode(CookieName, c.value) == Some(map[UserField := username, KeyField := sessionKey])
  {
    Cookie(CookieName, Encode(CookieName, map[UserField := username, KeyField := sessionKey]), CookiePath)
  }

  /** ReadCookieHandler: the "u" and "key" fields of the decoded cookie, or ("", "") when decoding fails. */
  function ReadCookieHandler(value: CookieValue): (r: (string, string))
    ensures Decode(CookieName, value).None? ==> r == ("", "")
    ensures Decode(CookieName, value).Some? ==>
              var m := Decode(CookieName, value).value;
              r == (Field(m, UserField), Field(m, KeyField))
  {
    match Decode(CookieName, value)
    case Some(m) => (Field(m, UserField), Field(m, KeyField))
    case None => ("", "")
  }

  /** Reading the cookie that setCookieHandler wrote gives back the user and key it was written with. */
  lemma ReadCookieRoundTrip(username: string, sessionKey: string)
    ensures ReadCookieHandler(SetCookieHandler(username, sessionKey).value) == (username, sessionKey)
  {
    var m := map[UserField := username, KeyField := sessionKey];
    assert Field(m, UserField) == username;
    assert Field(m, KeyField) == sessionKey;
  }

  /**
   * VerifySession: no cookie means (false, "") and no table is touched; otherwise the
   * decoded user and key are checked with IsValidSessionKey, which may delete lazily,
   * and an invalid session gets the "Session expired" message.
   */
  method VerifySession(db: Database, req: Request, now: int) returns (valid: bool, message: string)
    modifies db`sessions
    ensures req.sessionCookie.None? ==> !valid && message == "" && db.sessions == old(db.sessions)
    ensures req.sessionCookie.Some? ==>
              var (u, k) := ReadCookieHandler(req.sessionCookie.value);
              && valid == HasValidSession(old(db.sessions), u, k, now)
              && message == (if valid then "" else SessionExpiredMessage)
              && db.sessions == AfterVerify(old(db.sessions), u, k, now)
  {
    if req.sessionCookie.Some? {
      var (username, key) := ReadCookieHandler(req.sessionCookie.value);
      var ok := db.IsValidSessionKey(username, key, now);
      if ok {
        return true, "";
      } else {
        return false, SessionExpiredMessage;
      }
    }
    return false, "";
  }

  /**
   * ClearSession: deletes the session rows with the cookie's key and marks the history
   * rows with that key "User logged out".
   */
  method ClearSession(db: Database, cookie: CookieValue, now: int)
    modifies db`sessions, db`history
    ensures var key := ReadCookieHandler(cookie).1;
            && db.sessions == WithoutKey(old(db.sessions), key)
            && db.history == MarkByKey(old(db.history), key, UserLoggedOut, now)
  {
    var (_, key) := ReadCookieHandler(cookie);
    db.DeleteSessionKey(key);
    db.UpdateSessionHistory(key, UserLoggedOut, false, now);
  }

  /**
   * SetSession: stores a session row under the fresh key (the bcrypt hash, supplied by
   * the caller), sets the cookie carrying it and appends an "Active user" history row.
   */
  method SetSession(db: Database, username: string, sessionKey: string, now: int) returns (cookie: Cookie)
    modifies db`sessions, db`history
    ensures db.sessions == old(db.sessions) + [SessionRow(username, sessionKey, now)]
    ensures db.history == old(db.history) + [HistoryRow(username, sessionKey, ActiveUser, now, None)]
    ensures cookie == SetCookieHandler(username, sessionKey)
    ensures ReadCookieHandler(cookie.value) == (username, sessionKey)
  {
    var key := db.CreateSession(username, sessionKey, now);
    cookie := SetCookieHandler(username, key);
    db.CreateSessionHistory(username, key, now);
    ReadCookieRoundTrip(username, sessionKey);
  }

  /**
   * A login is honoured: a request carrying the cookie SetSession set verifies as valid
   * for six hours after the login, the six-hour mark included.
   */
  lemma LoginThenVerify(rows: seq<SessionRow>, username: string, sessionKey: string, loginTime: int, now: int)
    requires now - loginTime <= ValidityWindow
    ensures var (u, k) := ReadCookieHandler(SetCookieHandler(username, sessionKey).value);
            HasValidSession(rows + [SessionRow(username, sessionKey, loginTime)], u, k, now)
  {
    ReadCookieRoundTrip(username, sessionKey);
    var r := rows + [SessionRow(username, sessionKey, loginTime)];
    assert IsValidFor(r[|rows|], username, sessionKey, now);
  }

  /** After ClearSession, the same cookie no longer verifies. */
  lemma LogoutThenVerify(rows: seq<SessionRow>, cookie: CookieValue, now: int)
    ensures var (u, k) := ReadCookieHandler(cookie);
            !HasValidSession(WithoutKey(rows, k), u, k, now)
  {
    var (u, k) := ReadCookieHandler(cookie);
    var r := WithoutKey(rows, k);
    forall i | 0 <= i < |r| ensures !IsValidFor(r[i], u, k, now) {
      assert r[i] in r;
    }
  }

  /**
   * A cookie the codec did not seal reads as ("", ""), and is valid only if the
   * session table holds a row for the empty user name with the empty key.
   */
  lemma ForgedCookieNotValid(rows: seq<SessionRow>, raw: string, now: int)
    requires forall i :: 0 <= i < |rows| ==> rows[i].sessionKey != ""
    ensures ReadCookieHandler(Unsealed(raw)) == ("", "")
    ensures !HasValidSession(rows, "", "", now)
  {
  }
}
