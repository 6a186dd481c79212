/**
 * The helper package's database operations. The SQLite database is an object whose
 * tables are sequences of rows in table order; each statement replaces the table it
 * changes, and each query is a scan over the rows it selects.
 */
module Helper {
  import opened CityHash
  import opened Decimal
  import opened Tables

  /**
   * The scan of `SELECT sessionkey, logintime FROM usersSession WHERE username = u`:
   * a row of u with key k inside the window makes the session valid, one outside it
   * asks for deletion, and sessionKey keeps the key of the last row of u scanned.
   */
  method ScanSessions(rows: seq<SessionRow>, u: string, k: string, now: int)
    returns (validSession: bool, deleteSession: bool, sessionKey: string)
    ensures validSession == HasValidSession(rows, u, k, now)
    ensures deleteSession == HasExpiredSession(rows, u, k, now)
    ensures sessionKey == LastKeyOf(rows, u)
  {
    validSession, deleteSession, sessionKey := false, false, "";
    var i := 0;
    while i < |rows|
      invariant 0 <= i <= |rows|
      invariant validSession == HasValidSession(rows[..i], u, k, now)
      invariant deleteSession == HasExpiredSession(rows[..i], u, k, now)
      invariant sessionKey == LastKeyOf(rows[..i], u)
    {
      var row := rows[i];
      assert rows[..i + 1][..i] == rows[..i];
      if row.username == u {
        sessionKey := row.sessionKey;
        if WithinWindow(row.loginTime, now) && k == sessionKey {
          validSession := true;
        } else if k == sessionKey {
          deleteSession := true;
        }
      }
      i := i + 1;
    }
    assert rows[..i] == rows;
  }

  /**
   * The scan of `SELECT lastshownkey FROM luckyTracker WHERE username = u`: whether u is
   * tracked, and the value of u's last row (0, the zero value, when u is not).
   */
  method ScanTracker(rows: seq<TrackerRow>, u: string) returns (found: bool, lastShownKey: int)
    ensures found <==> exists i :: 0 <= i < |rows| && rows[i].username == u
    ensures found ==> TrackedIndex(rows, u) == Some(lastShownKey)
    ensures !found ==> TrackedIndex(rows, u).None? && lastShownKey == 0
  {
    found, lastShownKey := false, 0;
    var i := 0;
    while i < |rows|
      invariant 0 <= i <= |rows|
      invariant found == TrackedIndex(rows[..i], u).Some?
      invariant found ==> TrackedIndex(rows[..i], u) == Some(lastShownKey)
      invariant !found ==> lastShownKey == 0
    {
      assert rows[..i + 1][..i] == rows[..i];
      if rows[i].username == u {
        lastShownKey := rows[i].lastShownKey;
        found := true;
      }
      i := i + 1;
    }
    assert rows[..i] == rows;
    TrackedIndexIsLast(rows, u);
  }

  /**
   * The scan of `SELECT key FROM city WHERE id = ?`: the key of the last row with that
   * index, or 0 (the zero value) when no row has it.
   */
  method ScanCityKey(cities: seq<CityRow>, id: int) returns (cityKey: int)
    ensures (forall i :: 0 <= i < |cities| ==> cities[i].id != id) ==> cityKey == 0
    ensures cityKey == CityKeyFor(cities, id)
  {
    cityKey := 0;
    var i := 0;
    while i < |cities|
      invariant 0 <= i <= |cities|
      invariant cityKey == CityKeyFor(cities[..i], id)
    {
      assert cities[..i + 1][..i] == cities[..i];
      if cities[i].id == id {
        cityKey := cities[i].key;
      }
      i := i + 1;
    }
    assert cities[..i] == cities;
    CityKeyForIsLast(cities, id);
  }

  /**
   * CityQuery's output loop over the rows the autocomplete query matched; the query's
   * LIMIT keeps the first QueryLimit of them.
   */
  method CityQuery(matches: seq<CityRow>) returns (output: string)
    ensures var n := if |matches| < QueryLimit then |matches| else QueryLimit;
            output == CityEntries(matches[..n])
    ensures output == "" <==> matches == []
    ensures output != "" ==> output[|output| - 1] == ','
  {
    output := "";
    var i := 0;
    while i < |matches| && i < QueryLimit
      invariant 0 <= i <= |matches| && i <= QueryLimit
      invariant output == CityEntries(matches[..i])
    {
      CityEntriesExtend(matches, i);
      output := output + CityEntry(matches[i]);
      i := i + 1;
    }
    CityEntriesShape(matches[..i]);
    assert matches[..i] == [] <==> matches == [];
  }

  /** The application's database. */
  class Database {
    var users: seq<UserRow>
    var sessions: seq<SessionRow>
    var history: seq<HistoryRow>
    var tracker: seq<TrackerRow>
    var cities: seq<CityRow>

    /** The lucky tracker holds one row per user, each with an index of the city table. */
    ghost predicate Valid()
      reads this`tracker
    {
      OneRowPerUser(tracker) && IndicesInTable(tracker)
    }

    /** A database with the given users and cities and empty session, history and tracker tables. */
    constructor (users: seq<UserRow>, cities: seq<CityRow>)
      ensures Valid()
      ensures this.users == users && this.cities == cities
      ensures sessions == [] && history == [] && tracker == []
    {
      this.users := users;
      this.cities := cities;
      sessions, history, tracker := [], [], [];
    }

    /** CheckUsernameExists: true exactly when some user row has the name. */
    method CheckUsernameExists(username: string) returns (usernameExists: bool)
      ensures usernameExists <==> exists i :: 0 <= i < |users| && users[i].username == username
    {
      var query := UserRowsFor(users, username);
      usernameExists := false;
      if query != [] {
        assert query[0] in query;
        usernameExists := true;
      } else if i :| 0 <= i < |users| && users[i].username == username {
        assert users[i] in query;
      }
    }

    /**
     * IsValidSessionKey: the verdict of the scan, then, if a matching row had expired,
     * the deletion of the key of the last row scanned.
     */
    method IsValidSessionKey(username: string, key: string, now: int) returns (validSession: bool)
      modifies this`sessions
      ensures validSession == HasValidSession(old(sessions), username, key, now)
      ensures sessions == AfterVerify(old(sessions), username, key, now)
    {
      var deleteSession, sessionKey;
      validSession, deleteSession, sessionKey := ScanSessions(sessions, username, key, now);
      if deleteSession {
        DeleteSessionKey(sessionKey);
      }
    }

    /** DeleteSessionKey: removes every session row with the key. */
    method DeleteSessionKey(key: string)
      modifies this`sessions
      ensures sessions == WithoutKey(old(sessions), key)
      ensures forall x :: x in sessions <==> x in old(sessions) && x.sessionKey != key
    {
      sessions := WithoutKey(sessions, key);
    }

    /** CreateSession: the key stands for the bcrypt hash; the row's login time is now. */
    method CreateSession(username: string, sessionKey: string, now: int) returns (key: string)
      modifies this`sessions
      ensures key == sessionKey
      ensures sessions == old(sessions) + [SessionRow(username, sessionKey, now)]
    {
      sessions := sessions + [SessionRow(username, sessionKey, now)];
      key := sessionKey;
    }

    /**
     * DeleteOldSessions: removes the sessions at least six whole hours old, then marks
     * the stale active history rows as cleaned up.
     */
    method DeleteOldSessions(now: int)
      modifies this`sessions, this`history
      ensures sessions == Swept(old(sessions), now)
      ensures forall x :: x in sessions <==> x in old(sessions) && now - x.loginTime < ValidityWindow
      ensures history == MarkStale(old(history), SessionCleanedUp, now)
    {
      sessions := Swept(sessions, now);
      SweepKeepsYoungRows(old(sessions), now);
      UpdateSessionHistory("", SessionCleanedUp, true, now);
    }

    /** CreateSessionHistory: appends an "Active user" row for the login. */
    method CreateSessionHistory(username: string, key: string, now: int)
      modifies this`history
      ensures history == old(history) + [HistoryRow(username, key, ActiveUser, now, None)]
    {
      history := history + [HistoryRow(username, key, ActiveUser, now, None)];
    }

    /**
     * UpdateSessionHistory: with oldSessions, the stale active rows get the status;
     * otherwise the rows with the key do.
     */
    method UpdateSessionHistory(key: string, status: string, oldSessions: bool, now: int)
      modifies this`history
      ensures oldSessions ==> history == MarkStale(old(history), status, now)
      ensures !oldSessions ==> history == MarkByKey(old(history), key, status, now)
    {
      if oldSessions {
        history := MarkStale(history, status, now);
      } else {
        history := MarkByKey(history, key, status, now);
      }
    }

    /**
     * GetRandomCity: a tracked user's index takes one double-hashing step, a new user
     * gets draw + 1 (draw being what rand.Intn(SeedRange) returned); the index is
     * stored and the key of the city with that index is returned as decimal text.
     */
    method GetRandomCity(username: string, draw: int) returns (cityKey: string)
      requires 0 <= draw < SeedRange
      modifies this`tracker
      ensures tracker == AfterDraw(old(tracker), username, draw + 1)
      ensures cityKey == Itoa(CityKeyFor(cities, NextIndex(old(tracker), username, draw + 1)))
      ensures TrackedIndex(tracker, username) == Some(NextIndex(old(tracker), username, draw + 1))
      ensures forall w :: w != username ==> TrackedIndex(tracker, w) == TrackedIndex(old(tracker), w)
      ensures old(Valid()) ==> Valid() && InTable(NextIndex(old(tracker), username, draw + 1))
    {
      var found, lastShownKey := ScanTracker(tracker, username);
      var r: int;
      if !found {
        r := draw + 1;
      } else {
        r := DoubleHashing(lastShownKey);
      }
      if !found {
        tracker := tracker + [TrackerRow(username, r)];
      } else {
        tracker := SetTracked(tracker, username, r);
      }
      var key := ScanCityKey(cities, r);
      cityKey := Itoa(key);

      DrawRecordsIndex(old(tracker), username, draw + 1);
      forall w | w != username
        ensures TrackedIndex(tracker, w) == TrackedIndex(old(tracker), w)
      {
        DrawLeavesOthers(old(tracker), username, w, draw + 1);
      }
      if old(Valid()) {
        DrawKeepsTrackerValid(old(tracker), username, draw + 1);
      }
    }
  }
}
