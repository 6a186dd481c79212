/**
 * The rows of the application's tables (users, usersSession, usersHistory,
 * luckyTracker, city) and the functions that say what each query and statement
 * does to a table, with the lemmas that state their properties.
 *
 * Times are whole seconds since an arbitrary epoch; `now` is the clock at the moment
 * a statement runs.
 */
module Tables {
  import opened CityHash
  import opened Decimal

  datatype Option<T> = None | Some(value: T)

  /** A registered user (the password and answer hashes are not modelled). */
  datatype UserRow = UserRow(username: string, fullname: string, secretQuestion: string)

  /** A usersSession row; loginTime is the time the row was inserted. */
  datatype SessionRow = SessionRow(username: string, sessionKey: string, loginTime: int)

  /** A usersHistory row; statusUpdatedAt is None until the status is first updated. */
  datatype HistoryRow = HistoryRow(
    username: string,
    sessionKey: string,
    status: string,
    loginTime: int,
    statusUpdatedAt: Option<int>)

  /** A luckyTracker row: the city index last shown to a user. */
  datatype TrackerRow = TrackerRow(username: string, lastShownKey: int)

  /** A city row: its index in the table, the weather service's key and its region label. */
  datatype CityRow = CityRow(id: int, key: int, region: string)

  const SecondsPerHour := 60 * 60
  const ValidityHours := 6
  /** A session is valid for six hours, in seconds. */
  const ValidityWindow := ValidityHours * SecondsPerHour

  const ActiveUser := "Active user"
  const UserLoggedOut := "User logged out"
  const SessionCleanedUp := "Session cleaned up"

  /** The autocomplete query returns at most this many rows. */
  const QueryLimit := 5

  // ---------------------------------------------------------------------------
  // users

  /** The rows a `WHERE username = u` query returns, in table order. */
  function UserRowsFor(users: seq<UserRow>, u: string): (r: seq<UserRow>)
    ensures forall x :: x in r <==> x in users && x.username == u
  {
    if users == [] then []
    else (if users[0].username == u then [users[0]] else []) + UserRowsFor(users[1..], u)
  }

  // ---------------------------------------------------------------------------
  // session validity and age

  /** time.Since(loginTime).Hours() <= 6, on whole seconds. */
  predicate WithinWindow(loginTime: int, now: int) {
    now - loginTime <= ValidityWindow
  }

  /** SQLite's integer division, which truncates toward zero. */
  function TruncDiv(a: int, b: int): int
    requires b > 0
  {
    if a >= 0 then a / b else -((-a) / b)
  }

  /** Division by 60 brackets a non-negative dividend and keeps a negative one at or below zero. */
  lemma TruncDivBy60(a: int)
    ensures a >= 0 ==> 0 <= TruncDiv(a, 60) * 60 <= a < TruncDiv(a, 60) * 60 + 60
    ensures a < 0 ==> TruncDiv(a, 60) <= 0
  {
  }

  /** ((now - logintime) / 60) / 60 as the cleanup statements compute it. */
  function HoursOld(loginTime: int, now: int): int {
    TruncDiv(TruncDiv(now - loginTime, 60), 60)
  }

  /** The cleanup statements' condition: at least six whole hours old. */
  predicate SweepDue(loginTime: int, now: int) {
    HoursOld(loginTime, now) >= ValidityHours
  }

  /** In seconds, the sweep's condition is an age of at least 21600 seconds. */
  lemma SweepDueIff(loginTime: int, now: int)
    ensures SweepDue(loginTime, now) <==> now - loginTime >= ValidityWindow
  {
    var d := now - loginTime;
    var m := TruncDiv(d, 60);
    TruncDivBy60(d);
    TruncDivBy60(m);
    if d >= 0 {
      var h := TruncDiv(m, 60);
      if h >= 6 {
        assert m >= 360;
      } else {
        assert m < 360;
      }
    }
  }

  /**
   * Verification and the sweep disagree exactly at the boundary: a session exactly six
   * hours old is still valid, yet the sweep removes it; at every other age exactly one
   * of the two holds.
   */
  lemma ValidAndSweptOnlyAtBoundary(loginTime: int, now: int)
    ensures WithinWindow(loginTime, now) && SweepDue(loginTime, now) <==> now - loginTime == ValidityWindow
    ensures WithinWindow(loginTime, now) || SweepDue(loginTime, now)
  {
    SweepDueIff(loginTime, now);
  }

  // ---------------------------------------------------------------------------
  // the scan of IsValidSessionKey

  /** A row of user u with key k that is still inside the validity window. */
  predicate IsValidFor(row: SessionRow, u: string, k: string, now: int) {
    row.username == u && row.sessionKey == k && WithinWindow(row.loginTime, now)
  }

  /** A row of user u with key k that is past the validity window. */
  predicate IsExpiredFor(row: SessionRow, u: string, k: string, now: int) {
    row.username == u && row.sessionKey == k && !WithinWindow(row.loginTime, now)
  }

  predicate HasValidSession(rows: seq<SessionRow>, u: string, k: string, now: int) {
    exists i :: 0 <= i < |rows| && IsValidFor(rows[i], u, k, now)
  }

  predicate HasExpiredSession(rows: seq<SessionRow>, u: string, k: string, now: int) {
    exists i :: 0 <= i < |rows| && IsExpiredFor(rows[i], u, k, now)
  }

  /** rows[i] is the last row of user u. */
  predicate IsLastSessionOf(rows: seq<SessionRow>, u: string, i: int) {
    0 <= i < |rows| && rows[i].username == u &&
    forall j :: i < j < |rows| ==> rows[j].username != u
  }

  /** The key of the last row of user u, or "" when u has no row. */
  function LastKeyOf(rows: seq<SessionRow>, u: string): string
    decreases |rows|
  {
    if rows == [] then ""
    else if rows[|rows| - 1].username == u then rows[|rows| - 1].sessionKey
    else LastKeyOf(rows[..|rows| - 1], u)
  }

  /** LastKeyOf is "" for a user without rows. */
  lemma {:induction false} LastKeyOfAbsent(rows: seq<SessionRow>, u: string)
    requires forall i :: 0 <= i < |rows| ==> rows[i].username != u
    ensures LastKeyOf(rows, u) == ""
    decreases |rows|
  {
    if rows != [] {
      var p := rows[..|rows| - 1];
      assert forall i :: 0 <= i < |p| ==> p[i] == rows[i];
      LastKeyOfAbsent(p, u);
    }
  }

  /** For a user with a row, LastKeyOf is the key of the user's last row. */
  lemma {:induction false} LastKeyOfIsLast(rows: seq<SessionRow>, u: string, j: int)
    requires 0 <= j < |rows| && rows[j].username == u
    ensures exists i :: IsLastSessionOf(rows, u, i) && rows[i].sessionKey == LastKeyOf(rows, u)
    decreases |rows|
  {
    var n := |rows|;
    if rows[n - 1].username == u {
      assert IsLastSessionOf(rows, u, n - 1);
    } else {
      var p := rows[..n - 1];
      assert p[j] == rows[j];
      LastKeyOfIsLast(p, u, j);
      var i :| IsLastSessionOf(p, u, i) && p[i].sessionKey == LastKeyOf(p, u);
      assert LastKeyOf(rows, u) == LastKeyOf(p, u);
      assert rows[i] == p[i];
      forall m | i < m < n ensures rows[m].username != u {
        if m < n - 1 {
          assert rows[m] == p[m];
        }
      }
      assert IsLastSessionOf(rows, u, i);
    }
  }

  // ---------------------------------------------------------------------------
  // deletion by key (DeleteSessionKey)

  /** `DELETE FROM usersSession WHERE sessionkey = k`: the other rows, in order. */
  function WithoutKey(rows: seq<SessionRow>, k: string): (r: seq<SessionRow>)
    ensures forall x :: x in r <==> x in rows && x.sessionKey != k
    ensures |r| <= |rows|
  {
    if rows == [] then []
    else (if rows[0].sessionKey == k then [] else [rows[0]]) + WithoutKey(rows[1..], k)
  }

  /** Deleting a key that no row has leaves the table as it was. */
  lemma {:induction false} WithoutAbsentKey(rows: seq<SessionRow>, k: string)
    requires forall i :: 0 <= i < |rows| ==> rows[i].sessionKey != k
    ensures WithoutKey(rows, k) == rows
  {
    if rows != [] {
      WithoutAbsentKey(rows[1..], k);
      assert [rows[0]] + rows[1..] == rows;
    }
  }

  /** Deleting the same key a second time changes nothing. */
  lemma DeleteKeyIdempotent(rows: seq<SessionRow>, k: string)
    ensures WithoutKey(WithoutKey(rows, k), k) == WithoutKey(rows, k)
  {
    var r := WithoutKey(rows, k);
    forall i | 0 <= i < |r| ensures r[i].sessionKey != k {
      assert r[i] in r;
    }
    WithoutAbsentKey(r, k);
  }

  // ---------------------------------------------------------------------------
  // lazy deletion on verification

  /**
   * The session table after IsValidSessionKey(u, k): when a row of u with key k has
   * expired, every row carrying the key of u's LAST row is deleted.
   */
  function AfterVerify(rows: seq<SessionRow>, u: string, k: string, now: int): seq<SessionRow> {
    if HasExpiredSession(rows, u, k, now) then WithoutKey(rows, LastKeyOf(rows, u)) else rows
  }

  /** Verification never adds rows, and changes the table only when a matching row has expired. */
  lemma VerifyOnlyDeletes(rows: seq<SessionRow>, u: string, k: string, now: int)
    ensures forall x :: x in AfterVerify(rows, u, k, now) ==> x in rows
    ensures AfterVerify(rows, u, k, now) != rows ==> HasExpiredSession(rows, u, k, now)
    ensures |AfterVerify(rows, u, k, now)| <= |rows|
  {
  }

  /** A token that failed verification fails again on the next verification. */
  lemma VerifyInvalidStaysInvalid(rows: seq<SessionRow>, u: string, k: string, now: int)
    requires !HasValidSession(rows, u, k, now)
    ensures !HasValidSession(AfterVerify(rows, u, k, now), u, k, now)
  {
    var r := AfterVerify(rows, u, k, now);
    forall i | 0 <= i < |r| ensures !IsValidFor(r[i], u, k, now) {
      assert r[i] in rows;
    }
  }

  /**
   * When the caller's expired row is also the user's last row, the lazy deletion removes
   * every row with the caller's key, and verifying again changes nothing further.
   */
  lemma LazyDeleteOfLastRow(rows: seq<SessionRow>, u: string, k: string, now: int)
    requires HasExpiredSession(rows, u, k, now)
    requires LastKeyOf(rows, u) == k
    ensures forall x :: x in AfterVerify(rows, u, k, now) ==> x.sessionKey != k
    ensures AfterVerify(AfterVerify(rows, u, k, now), u, k, now) == AfterVerify(rows, u, k, now)
  {
    var r := AfterVerify(rows, u, k, now);
    assert r == WithoutKey(rows, k);
    forall i | 0 <= i < |r| ensures !IsExpiredFor(r[i], u, k, now) {
      assert r[i] in r;
    }
  }

  /**
   * The lazy deletion uses the last scanned key, not the caller's: with an expired row
   * for key "k1" followed by a fresh login "k2" of the same user, verifying "k1" deletes
   * the fresh "k2" session and leaves the expired "k1" row in place.
   */
  lemma LazyDeleteHitsLastRow()
    ensures var rows := [SessionRow("ann", "k1", 0), SessionRow("ann", "k2", 30000)];
            && !HasValidSession(rows, "ann", "k1", 30000)
            && AfterVerify(rows, "ann", "k1", 30000) == [SessionRow("ann", "k1", 0)]
  {
    var rows := [SessionRow("ann", "k1", 0), SessionRow("ann", "k2", 30000)];
    assert IsExpiredFor(rows[0], "ann", "k1", 30000);
    assert LastKeyOf(rows, "ann") == "k2";
    assert rows[1..][1..] == [];
    assert WithoutKey(rows, "k2") == [rows[0]];
  }

  // ---------------------------------------------------------------------------
  // the periodic sweep (DeleteOldSessions)

  /** The rows the sweep's DELETE keeps, in order. */
  function Swept(rows: seq<SessionRow>, now: int): (r: seq<SessionRow>)
    ensures forall x :: x in r <==> x in rows && !SweepDue(x.loginTime, now)
    ensures |r| <= |rows|
  {
    if rows == [] then []
    else (if SweepDue(rows[0].loginTime, now) then [] else [rows[0]]) + Swept(rows[1..], now)
  }

  /** The sweep keeps exactly the rows younger than six hours. */
  lemma SweepKeepsYoungRows(rows: seq<SessionRow>, now: int)
    ensures forall x :: x in Swept(rows, now) <==> x in rows && now - x.loginTime < ValidityWindow
  {
    forall x | x in rows {
      SweepDueIff(x.loginTime, now);
    }
  }

  /** A second sweep at the same time removes nothing more. */
  lemma {:induction false} SweepIdempotent(rows: seq<SessionRow>, now: int)
    ensures Swept(Swept(rows, now), now) == Swept(rows, now)
  {
    if rows != [] {
      SweepIdempotent(rows[1..], now);
      var tail := Swept(rows[1..], now);
      if !SweepDue(rows[0].loginTime, now) {
        assert Swept(rows, now) == [rows[0]] + tail;
        assert ([rows[0]] + tail)[1..] == tail;
        assert Swept([rows[0]] + tail, now) == [rows[0]] + Swept(tail, now);
      } else {
        assert Swept(rows, now) == [] + tail == tail;
      }
    }
  }

  /** Sessions aged 2h, 5h and 7h: the sweep removes exactly the 7-hour one. */
  lemma SweepExample()
    ensures var now := 7 * SecondsPerHour;
            var rows := [SessionRow("a", "k2", now - 2 * SecondsPerHour),
                         SessionRow("b", "k5", now - 5 * SecondsPerHour),
                         SessionRow("c", "k7", 0)];
            Swept(rows, now) == rows[..2]
  {
    var now := 7 * SecondsPerHour;
    var rows := [SessionRow("a", "k2", now - 2 * SecondsPerHour),
                 SessionRow("b", "k5", now - 5 * SecondsPerHour),
                 SessionRow("c", "k7", 0)];
    SweepDueIff(rows[0].loginTime, now);
    SweepDueIff(rows[1].loginTime, now);
    SweepDueIff(rows[2].loginTime, now);
    assert rows[1..][1..][1..] == [];
    assert Swept(rows[1..][1..], now) == [];
  }

  // ---------------------------------------------------------------------------
  // session history (UpdateSessionHistory)

  /** Two history rows record the same login: only status and its timestamp may differ. */
  predicate SameLogin(a: HistoryRow, b: HistoryRow) {
    a.username == b.username && a.sessionKey == b.sessionKey && a.loginTime == b.loginTime
  }

  /** The row with a new status, stamped with the time of the update. */
  function WithStatus(h: HistoryRow, status: string, now: int): HistoryRow {
    h.(status := status, statusUpdatedAt := Some(now))
  }

  /** `UPDATE usersHistory SET status = ... WHERE sessionkey = k`. */
  function MarkByKey(hist: seq<HistoryRow>, k: string, status: string, now: int): (r: seq<HistoryRow>)
    ensures |r| == |hist|
    ensures forall i :: 0 <= i < |r| ==> SameLogin(r[i], hist[i])
    ensures forall i :: 0 <= i < |r| ==> (r[i].status == status && r[i].statusUpdatedAt == Some(now)) || r[i] == hist[i]
  {
    seq(|hist|, i requires 0 <= i < |hist| =>
      if hist[i].sessionKey == k then WithStatus(hist[i], status, now) else hist[i])
  }

  /** A history row that is still active although its login is six whole hours old. */
  predicate StaleActive(h: HistoryRow, now: int) {
    h.status == ActiveUser && SweepDue(h.loginTime, now)
  }

  /** `UPDATE usersHistory SET status = ... WHERE status = 'Active user' AND <six whole hours old>`. */
  function MarkStale(hist: seq<HistoryRow>, status: string, now: int): (r: seq<HistoryRow>)
    ensures |r| == |hist|
    ensures forall i :: 0 <= i < |r| ==> SameLogin(r[i], hist[i])
  {
    seq(|hist|, i requires 0 <= i < |hist| =>
      if StaleActive(hist[i], now) then WithStatus(hist[i], status, now) else hist[i])
  }

  /** Logout marks exactly the rows with the key; every other row is unchanged. */
  lemma MarkByKeyExactly(hist: seq<HistoryRow>, k: string, status: string, now: int)
    ensures forall i :: 0 <= i < |hist| && hist[i].sessionKey == k ==>
              MarkByKey(hist, k, status, now)[i].status == status
    ensures forall i :: 0 <= i < |hist| && hist[i].sessionKey != k ==>
              MarkByKey(hist, k, status, now)[i] == hist[i]
  {
  }

  /**
   * The cleanup marks only rows that are still active, leaves no stale active row
   * behind (for a status other than "Active user"), and marks every row it changes
   * with the new status.
   */
  lemma MarkStaleExactly(hist: seq<HistoryRow>, status: string, now: int)
    requires status != ActiveUser
    ensures forall i :: 0 <= i < |hist| && hist[i].status != ActiveUser ==>
              MarkStale(hist, status, now)[i] == hist[i]
    ensures forall i :: 0 <= i < |hist| ==> !StaleActive(MarkStale(hist, status, now)[i], now)
    ensures forall i :: 0 <= i < |hist| && MarkStale(hist, status, now)[i] != hist[i] ==>
              hist[i].status == ActiveUser && now - hist[i].loginTime >= ValidityWindow &&
              MarkStale(hist, status, now)[i].status == status
  {
    forall i | 0 <= i < |hist| {
      SweepDueIff(hist[i].loginTime, now);
    }
  }

  // ---------------------------------------------------------------------------
  // the lucky tracker (GetRandomCity)

  /** rows[i] is the last tracker row of user u. */
  predicate IsLastTrackerRowOf(rows: seq<TrackerRow>, u: string, i: int) {
    0 <= i < |rows| && rows[i].username == u &&
    forall j :: i < j < |rows| ==> rows[j].username != u
  }

  /** What the tracker query leaves in lastshownkey: the value of u's last row, if any. */
  function TrackedIndex(rows: seq<TrackerRow>, u: string): Option<int>
    decreases |rows|
  {
    if rows == [] then None
    else if rows[|rows| - 1].username == u then Some(rows[|rows| - 1].lastShownKey)
    else TrackedIndex(rows[..|rows| - 1], u)
  }

  /** The tracker query finds nothing exactly when u has no row, and otherwise the value of u's last row. */
  lemma {:induction false} TrackedIndexIsLast(rows: seq<TrackerRow>, u: string)
    ensures TrackedIndex(rows, u).None? <==> forall i :: 0 <= i < |rows| ==> rows[i].username != u
    ensures TrackedIndex(rows, u).Some? ==>
              exists i :: IsLastTrackerRowOf(rows, u, i) && rows[i].lastShownKey == TrackedIndex(rows, u).value
    decreases |rows|
  {
    if rows != [] {
      var n := |rows|;
      var p := rows[..n - 1];
      if rows[n - 1].username == u {
        assert IsLastTrackerRowOf(rows, u, n - 1);
      } else {
        TrackedIndexIsLast(p, u);
        if TrackedIndex(p, u).Some? {
          var i :| IsLastTrackerRowOf(p, u, i) && p[i].lastShownKey == TrackedIndex(p, u).value;
          assert IsLastTrackerRowOf(rows, u, i);
        } else {
          forall i | 0 <= i < n ensures rows[i].username != u {
            if i < n - 1 {
              assert p[i] == rows[i];
            }
          }
        }
      }
    }
  }

  /** `UPDATE luckyTracker SET lastshownkey = v WHERE username = u`. */
  function SetTracked(rows: seq<TrackerRow>, u: string, v: int): (r: seq<TrackerRow>)
    ensures |r| == |rows|
    ensures forall i :: 0 <= i < |r| ==> r[i].username == rows[i].username
  {
    seq(|rows|, i requires 0 <= i < |rows| =>
      if rows[i].username == u then TrackerRow(u, v) else rows[i])
  }

  /** Each user has at most one tracker row. */
  predicate OneRowPerUser(rows: seq<TrackerRow>) {
    forall i, j :: 0 <= i < j < |rows| ==> rows[i].username != rows[j].username
  }

  /** Every tracked index is an index of the city table. */
  predicate IndicesInTable(rows: seq<TrackerRow>) {
    forall i :: 0 <= i < |rows| ==> InTable(rows[i].lastShownKey)
  }

  /** The index a draw for u stores and shows: the next step for a tracked user, else the seed. */
  function NextIndex(rows: seq<TrackerRow>, u: string, seed: int): int {
    match TrackedIndex(rows, u)
    case Some(last) => DoubleHashing(last)
    case None => seed
  }

  /** The tracker after a draw for u: the update of a tracked user, else a new row. */
  function AfterDraw(rows: seq<TrackerRow>, u: string, seed: int): seq<TrackerRow> {
    if TrackedIndex(rows, u).Some? then SetTracked(rows, u, NextIndex(rows, u, seed))
    else rows + [TrackerRow(u, seed)]
  }

  /** A draw records the index it shows as u's tracked index. */
  lemma DrawRecordsIndex(rows: seq<TrackerRow>, u: string, seed: int)
    ensures TrackedIndex(AfterDraw(rows, u, seed), u) == Some(NextIndex(rows, u, seed))
  {
    var r := AfterDraw(rows, u, seed);
    var v := NextIndex(rows, u, seed);
    if TrackedIndex(rows, u).Some? {
      TrackedIndexIsLast(rows, u);
      var j :| IsLastTrackerRowOf(rows, u, j) && rows[j].lastShownKey == TrackedIndex(rows, u).value;
      assert r[j].username == u;
      TrackedIndexIsLast(r, u);
      var i :| IsLastTrackerRowOf(r, u, i) && r[i].lastShownKey == TrackedIndex(r, u).value;
      assert r[i] == TrackerRow(u, v);
    } else {
      assert r[|r| - 1] == TrackerRow(u, seed);
    }
  }

  /** A draw for u leaves every other user's tracked index as it was. */
  lemma {:induction false} DrawLeavesOthers(rows: seq<TrackerRow>, u: string, w: string, seed: int)
    requires w != u
    ensures TrackedIndex(AfterDraw(rows, u, seed), w) == TrackedIndex(rows, w)
  {
    if TrackedIndex(rows, u).Some? {
      SetTrackedLeavesOthers(rows, u, w, NextIndex(rows, u, seed));
    } else {
      var r := rows + [TrackerRow(u, seed)];
      assert r[..|r| - 1] == rows;
    }
  }

  lemma {:induction false} SetTrackedLeavesOthers(rows: seq<TrackerRow>, u: string, w: string, v: int)
    requires w != u
    ensures TrackedIndex(SetTracked(rows, u, v), w) == TrackedIndex(rows, w)
    decreases |rows|
  {
    if rows != [] {
      var n := |rows|;
      assert SetTracked(rows, u, v)[..n - 1] == SetTracked(rows[..n - 1], u, v);
      SetTrackedLeavesOthers(rows[..n - 1], u, w, v);
    }
  }

  /** A draw keeps one row per user and every tracked index inside the table. */
  lemma DrawKeepsTrackerValid(rows: seq<TrackerRow>, u: string, seed: int)
    requires OneRowPerUser(rows) && IndicesInTable(rows)
    requires InTable(seed)
    ensures InTable(NextIndex(rows, u, seed))
    ensures OneRowPerUser(AfterDraw(rows, u, seed)) && IndicesInTable(AfterDraw(rows, u, seed))
  {
    var r := AfterDraw(rows, u, seed);
    TrackedIndexIsLast(rows, u);
    if TrackedIndex(rows, u).Some? {
      var i :| IsLastTrackerRowOf(rows, u, i) && rows[i].lastShownKey == TrackedIndex(rows, u).value;
      assert InTable(rows[i].lastShownKey);
    } else {
      assert forall i :: 0 <= i < |rows| ==> r[i] == rows[i];
    }
  }

  /** The tracker after k draws for u. */
  function Draws(rows: seq<TrackerRow>, u: string, seed: int, k: nat): seq<TrackerRow> {
    if k == 0 then rows else AfterDraw(Draws(rows, u, seed, k - 1), u, seed)
  }

  /** The index shown by the k-th draw for u (k >= 1). */
  function DrawnIndex(rows: seq<TrackerRow>, u: string, seed: int, k: nat): int
    requires k >= 1
  {
    NextIndex(Draws(rows, u, seed, k - 1), u, seed)
  }

  /** For a user new to the feature, k draws leave the seed stepped k - 1 times as the tracked index. */
  lemma {:induction false} DrawsTrackIteration(rows: seq<TrackerRow>, u: string, seed: int, k: nat)
    requires TrackedIndex(rows, u).None?
    requires k >= 1
    ensures TrackedIndex(Draws(rows, u, seed, k), u) == Some(Iterate(k - 1, seed))
  {
    if k > 1 {
      DrawsTrackIteration(rows, u, seed, k - 1);
    }
    DrawRecordsIndex(Draws(rows, u, seed, k - 1), u, seed);
  }

  /** For a user new to the feature, the k-th draw shows the seed stepped k - 1 times. */
  lemma DrawsFollowIteration(rows: seq<TrackerRow>, u: string, seed: int, k: nat)
    requires TrackedIndex(rows, u).None?
    requires k >= 1
    ensures DrawnIndex(rows, u, seed, k) == Iterate(k - 1, seed)
  {
    if k > 1 {
      DrawsTrackIteration(rows, u, seed, k - 1);
    }
  }

  /** A user is never shown the same city index twice within any CityTableSize consecutive draws. */
  lemma {:induction false} NoRepeatedDraws(rows: seq<TrackerRow>, u: string, seed: int, i: nat, j: nat)
    requires TrackedIndex(rows, u).None?
    requires InTable(seed)
    requires 1 <= i < j < i + CityTableSize
    ensures DrawnIndex(rows, u, seed, i) != DrawnIndex(rows, u, seed, j)
  {
    DrawsFollowIteration(rows, u, seed, i);
    DrawsFollowIteration(rows, u, seed, j);
    NoRepeatWithinCycle(seed, i - 1, j - 1);
  }

  // ---------------------------------------------------------------------------
  // the city table

  /** rows[i] is the last city row with index id. */
  predicate IsLastCityRow(cities: seq<CityRow>, id: int, i: int) {
    0 <= i < |cities| && cities[i].id == id &&
    forall j :: i < j < |cities| ==> cities[j].id != id
  }

  /** What `SELECT key FROM city WHERE id = ?` leaves in cityKey: the last match, else 0. */
  function CityKeyFor(cities: seq<CityRow>, id: int): int
    decreases |cities|
  {
    if cities == [] then 0
    else if cities[|cities| - 1].id == id then cities[|cities| - 1].key
    else CityKeyFor(cities[..|cities| - 1], id)
  }

  /** The lookup yields 0 for an index no city row has, and otherwise the key of the last row with it. */
  lemma {:induction false} CityKeyForIsLast(cities: seq<CityRow>, id: int)
    ensures (forall i :: 0 <= i < |cities| ==> cities[i].id != id) ==> CityKeyFor(cities, id) == 0
    ensures (forall i :: 0 <= i < |cities| ==> cities[i].id != id) ||
              exists i :: IsLastCityRow(cities, id, i) && cities[i].key == CityKeyFor(cities, id)
    decreases |cities|
  {
    if cities != [] {
      var n := |cities|;
      var p := cities[..n - 1];
      if cities[n - 1].id == id {
        assert IsLastCityRow(cities, id, n - 1);
      } else {
        CityKeyForIsLast(p, id);
        if j :| 0 <= j < n && cities[j].id == id {
          assert p[j].id == id;
          var i :| IsLastCityRow(p, id, i) && p[i].key == CityKeyFor(p, id);
          assert IsLastCityRow(cities, id, i);
        }
      }
    }
  }

  // ---------------------------------------------------------------------------
  // the autocomplete output (CityQuery)

  /** The leading text of every autocomplete entry. */
  const EntryPrefix := "{\"value\":"

  /** One autocomplete entry: `{"value":<key>,"label":"<region>"},`. */
  function CityEntry(c: CityRow): string {
    EntryPrefix + Itoa(c.key) + ",\"label\":\"" + c.region + "\"},"
  }

  /**
   * An entry starts with the value field, whose digits read back as the city's key,
   * and ends with a comma.
   */
  lemma CityEntryShape(c: CityRow)
    ensures var e := CityEntry(c);
            && |e| > |EntryPrefix| + |Itoa(c.key)|
            && e[..|EntryPrefix|] == EntryPrefix
            && e[|e| - 1] == ','
            && var digits := e[|EntryPrefix|..|EntryPrefix| + |Itoa(c.key)|];
               IsDecimal(digits) && Atoi(digits) == c.key
  {
    var e := CityEntry(c);
    assert e[|EntryPrefix|..|EntryPrefix| + |Itoa(c.key)|] == Itoa(c.key);
    AtoiItoa(c.key);
  }

  /** The entries of the rows, in order. */
  function CityEntries(rows: seq<CityRow>): string {
    if rows == [] then "" else CityEntry(rows[0]) + CityEntries(rows[1..])
  }

  /** The output is empty exactly when there are no rows, and otherwise ends with a comma. */
  lemma {:induction false} CityEntriesShape(rows: seq<CityRow>)
    ensures CityEntries(rows) == "" <==> rows == []
    ensures rows != [] ==> CityEntries(rows)[|CityEntries(rows)| - 1] == ','
  {
    if rows != [] {
      CityEntryShape(rows[0]);
      CityEntriesShape(rows[1..]);
    }
  }

  /** The output of consecutive rows is the concatenation of their outputs. */
  lemma {:induction false} CityEntriesAppend(a: seq<CityRow>, b: seq<CityRow>)
    ensures CityEntries(a + b) == CityEntries(a) + CityEntries(b)
  {
    if a == [] {
      assert a + b == b;
    } else {
      assert (a + b)[1..] == a[1..] + b;
      CityEntriesAppend(a[1..], b);
    }
  }

  /** Writing one more row appends its entry to the output. */
  lemma CityEntriesExtend(rows: seq<CityRow>, i: int)
    requires 0 <= i < |rows|
    ensures CityEntries(rows[..i + 1]) == CityEntries(rows[..i]) + CityEntry(rows[i])
  {
    assert rows[..i + 1] == rows[..i] + [rows[i]];
    CityEntriesAppend(rows[..i], [rows[i]]);
    assert CityEntries([rows[i]]) == CityEntry(rows[i]) + CityEntries([]);
  }
}
