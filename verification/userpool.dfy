/**
 The credential pool (`hc_niam_users`): single-shot acquisition of the least
 used login, the polling retry that bounds it, release, and the pool's
 aggregate status. The table is a map from `user` to its row; every operation
 returns the new table instead of writing it.
 */
module UserPool {
  import opened Wrappers
  import opened Tables

  /** One row of `hc_niam_users`, keyed by its `user` column. */
  datatype UserRow = UserRow(
    password: string,
    niamIp: string,
    niamPort: string,
    currentSessions: int,
    maxSessions: int,
    /** `active_session_ids`, a JSON array; NULL reads as the empty array */
    activeSessionIds: seq<string>,
    loginStatus: string,
    isExpired: bool,
    /** `last_used_at`, as an opaque timestamp */
    lastUsedAt: int,
    totalUsageCount: int)

  type Pool = map<string, UserRow>

  /** What an acquisition hands back: the columns the SELECT read, before the UPDATE. */
  datatype User = User(
    username: string,
    password: string,
    niamIp: string,
    niamPort: string,
    currentSessions: int,
    maxSessions: int)

  /** The counts the pool status query reports. */
  datatype PoolStats = PoolStats(
    totalUsers: int,
    activeUsers: int,
    totalCapacity: int,
    usedCapacity: int,
    availableCapacity: int)

  datatype PoolError =
    | NoAvailableUsers  // the locked SELECT found no row; the transaction rolls back
    | Timeout           // no attempt succeeded before the wait budget ran out
    | NullAggregate     // SUM over an empty table is NULL and cannot be scanned into an int

  /** The polling loop's budget: five minutes of waiting, one attempt every two seconds. */
  const MaxWaitSeconds: nat := 300
  const CheckIntervalSeconds: nat := 2
  const MaxAttempts: nat := MaxWaitSeconds / CheckIntervalSeconds

  /* ---------------------------------------------------------------------
     Eligibility and order of the acquisition query
     --------------------------------------------------------------------- */

  /** The WHERE clause of the acquisition query. */
  predicate Eligible(row: UserRow) {
    row.loginStatus == "Yes" && !row.isExpired && row.currentSessions < row.maxSessions
  }

  /** `ORDER BY current_sessions ASC, last_used_at ASC`. */
  function UsageRank(row: UserRow): Rank {
    Rank(row.currentSessions, row.lastUsedAt)
  }

  function EligibleUsers(pool: Pool): set<string> {
    set u | u in pool && Eligible(pool[u])
  }

  predicate NoUserAvailable(pool: Pool) {
    forall u :: u in pool ==> !Eligible(pool[u])
  }

  /** `u` is a row the acquisition query may return: eligible, and no eligible row sorts before it. */
  ghost predicate LeastUsed(pool: Pool, u: string) {
    && u in pool
    && Eligible(pool[u])
    && forall v :: v in pool && Eligible(pool[v]) ==>
         pool[u].currentSessions < pool[v].currentSessions
         || (pool[u].currentSessions == pool[v].currentSessions && pool[u].lastUsedAt <= pool[v].lastUsedAt)
  }

  /**
   `after` is `before` with user `u` taken by session `sid` at time `now`:
   one more session, one more use, `sid` appended, `last_used_at` refreshed,
   and nothing else in the table changed.
   */
  ghost predicate AcquiredBy(before: Pool, after: Pool, u: string, sid: string, now: int) {
    && u in before
    && after.Keys == before.Keys
    && after[u].currentSessions == before[u].currentSessions + 1
    && after[u].totalUsageCount == before[u].totalUsageCount + 1
    && after[u].activeSessionIds == before[u].activeSessionIds + [sid]
    && after[u].lastUsedAt == now
    && after[u].password == before[u].password
    && after[u].niamIp == before[u].niamIp
    && after[u].niamPort == before[u].niamPort
    && after[u].maxSessions == before[u].maxSessions
    && after[u].loginStatus == before[u].loginStatus
    && after[u].isExpired == before[u].isExpired
    && forall v :: v in before && v != u ==> after[v] == before[v]
  }

  /** Every row keeps its session count within `[0, max_sessions]`. */
  ghost predicate SessionBounds(pool: Pool) {
    forall u :: u in pool ==> 0 <= pool[u].currentSessions <= pool[u].maxSessions
  }

  /* ---------------------------------------------------------------------
     Single-shot acquisition (tryAcquireUser)
     --------------------------------------------------------------------- */

  /** The columns the SELECT scans into the returned `User`. */
  function Snapshot(u: string, row: UserRow): User {
    User(u, row.password, row.niamIp, row.niamPort, row.currentSessions, row.maxSessions)
  }

  /** The UPDATE that commits an acquisition. */
  function TakeSession(pool: Pool, u: string, sid: string, now: int): Pool
    requires u in pool
  {
    var row := pool[u];
    pool[u := row.(
      currentSessions := row.currentSessions + 1,
      activeSessionIds := row.activeSessionIds + [sid],
      lastUsedAt := now,
      totalUsageCount := row.totalUsageCount + 1)]
  }

  /**
   One acquisition transaction: lock the least used eligible row, take a
   session on it and commit; with no eligible row, roll back.
   */
  method TryAcquire(pool: Pool, sid: string, now: int) returns (r: Result<User, PoolError>, pool': Pool)
    ensures r.Err? <==> NoUserAvailable(pool)
    ensures r.Err? ==> r.error == NoAvailableUsers && pool' == pool
    ensures r.Ok? ==> LeastUsed(pool, r.value.username)
    ensures r.Ok? ==> AcquiredBy(pool, pool', r.value.username, sid, now)
    ensures r.Ok? ==> r.value == Snapshot(r.value.username, pool[r.value.username])
    ensures r.Ok? ==> r.value.currentSessions == pool'[r.value.username].currentSessions - 1
  {
    var candidates := EligibleUsers(pool);
    if candidates == {} {
      assert forall u :: u in pool && Eligible(pool[u]) ==> u in candidates;
      return Err(NoAvailableUsers), pool;
    }
    var u := ArgMin(pool, candidates, UsageRank);
    return Ok(Snapshot(u, pool[u])), TakeSession(pool, u, sid, now);
  }

  /* ---------------------------------------------------------------------
     Polling acquisition (AcquireUser)
     --------------------------------------------------------------------- */

  /**
   One firing of the poll ticker: the table as the attempt finds it (other
   sessions may have released or taken logins since the last tick) and the
   store's clock.
   */
  datatype Tick = Tick(pool: Pool, now: int)

  /** A successful poll: the user handed out, the tick that got it, and the table after commit. */
  datatype Acquisition = Acquisition(user: User, tick: nat, pool: Pool)

  /**
   Tries one acquisition per tick until one succeeds; ticks after the first
   `MaxAttempts` fall after the timeout and are never tried.
   */
  method AcquireUser(sid: string, ticks: seq<Tick>) returns (r: Result<Acquisition, PoolError>)
    ensures r.Ok? ==> r.value.tick < |ticks| && r.value.tick < MaxAttempts
    ensures r.Ok? ==> forall j :: 0 <= j < r.value.tick ==> NoUserAvailable(ticks[j].pool)
    ensures r.Ok? ==>
      var t := ticks[r.value.tick];
      && LeastUsed(t.pool, r.value.user.username)
      && AcquiredBy(t.pool, r.value.pool, r.value.user.username, sid, t.now)
      && r.value.user == Snapshot(r.value.user.username, t.pool[r.value.user.username])
    ensures r.Err? ==> r.error == Timeout
    ensures r.Err? <==> forall j :: 0 <= j < Min(|ticks|, MaxAttempts) ==> NoUserAvailable(ticks[j].pool)
  {
    var i := 0;
    while i < |ticks| && i < MaxAttempts
      invariant i <= Min(|ticks|, MaxAttempts)
      invariant forall j :: 0 <= j < i ==> NoUserAvailable(ticks[j].pool)
    {
      var attempt, pool' := TryAcquire(ticks[i].pool, sid, ticks[i].now);
      if attempt.Ok? {
        return Ok(Acquisition(attempt.value, i, pool'));
      }
      i := i + 1;
    }
    return Err(Timeout);
  }

  /* ---------------------------------------------------------------------
     Release (ReleaseUser)
     --------------------------------------------------------------------- */

  /** `s` without its first occurrence of `x`. */
  function RemoveFirst(s: seq<string>, x: string): (r: seq<string>)
    requires x in s
    ensures |r| == |s| - 1
    ensures multiset(r) == multiset(s) - multiset{x}
  {
    assert s == [s[0]] + s[1..];
    if s[0] == x then s[1..]
    else
      var r := [s[0]] + RemoveFirst(s[1..], x);
      assert multiset(r) == multiset{s[0]} + multiset(RemoveFirst(s[1..], x));
      r
  }

  /**
   Gives back one session of `username`: the count drops by one but never
   below zero, whether or not `sid` held the login, and the first `sid` in
   the id list is dropped. An unknown user leaves the table as it was.
   */
  function Release(pool: Pool, username: string, sid: string): (pool': Pool)
    ensures pool'.Keys == pool.Keys
    ensures username !in pool ==> pool' == pool
    ensures forall v :: v in pool && v != username ==> pool'[v] == pool[v]
    ensures username in pool ==>
      var row, row' := pool[username], pool'[username];
      && row'.currentSessions == (if row.currentSessions - 1 > 0 then row.currentSessions - 1 else 0)
      && (sid in row.activeSessionIds ==> multiset(row'.activeSessionIds) == multiset(row.activeSessionIds) - multiset{sid})
      && row'.password == row.password
      && row'.niamIp == row.niamIp
      && row'.niamPort == row.niamPort
      && row'.maxSessions == row.maxSessions
      && row'.loginStatus == row.loginStatus
      && row'.isExpired == row.isExpired
      && row'.lastUsedAt == row.lastUsedAt
      && row'.totalUsageCount == row.totalUsageCount
  {
    if username !in pool then pool
    else
      var row := pool[username];
      var ids := if sid in row.activeSessionIds then RemoveFirst(row.activeSessionIds, sid) else row.activeSessionIds;
      var count := if row.currentSessions - 1 > 0 then row.currentSessions - 1 else 0;
      pool[username := row.(currentSessions := count, activeSessionIds := ids)]
  }

  /* ---------------------------------------------------------------------
     Pool status (GetPoolStatus)
     --------------------------------------------------------------------- */

  function MaxSessionsOf(row: UserRow): int { row.maxSessions }
  function CurrentSessionsOf(row: UserRow): int { row.currentSessions }

  function ActiveUsers(pool: Pool): set<string> {
    set u | u in pool && pool[u].loginStatus == "Yes"
  }

  ghost function TotalCapacity(pool: Pool): int { Sum(pool, MaxSessionsOf) }
  ghost function UsedCapacity(pool: Pool): int { Sum(pool, CurrentSessionsOf) }

  /**
   The aggregate query: every row counts towards the user total and both
   capacity sums, only logins with status 'Yes' count as active, and the free
   capacity is the difference of the sums. On an empty table the sums are NULL
   and the scan fails.
   */
  method PoolStatus(pool: Pool) returns (r: Result<PoolStats, PoolError>)
    ensures r.Err? <==> |pool| == 0
    ensures r.Err? ==> r.error == NullAggregate
    ensures r.Ok? ==> r.value.totalUsers == |pool|
    ensures r.Ok? ==> r.value.activeUsers == |ActiveUsers(pool)|
    ensures r.Ok? ==> r.value.totalCapacity == TotalCapacity(pool)
    ensures r.Ok? ==> r.value.usedCapacity == UsedCapacity(pool)
    ensures r.Ok? ==> r.value.availableCapacity == r.value.totalCapacity - r.value.usedCapacity
  {
    if |pool| == 0 {
      return Err(NullAggregate);
    }
    var total := ComputeSum(pool, MaxSessionsOf);
    var used := ComputeSum(pool, CurrentSessionsOf);
    return Ok(PoolStats(|pool|, |ActiveUsers(pool)|, total, used, total - used));
  }

  /* ---------------------------------------------------------------------
     Properties across operations
     --------------------------------------------------------------------- */

  /** An acquisition of an eligible row keeps every session count within its bounds. */
  lemma AcquirePreservesBounds(before: Pool, after: Pool, u: string, sid: string, now: int)
    requires SessionBounds(before)
    requires AcquiredBy(before, after, u, sid, now) && Eligible(before[u])
    ensures SessionBounds(after)
  {
  }

  /** A release keeps every session count within its bounds. */
  lemma ReleasePreservesBounds(pool: Pool, username: string, sid: string)
    requires SessionBounds(pool)
    ensures SessionBounds(Release(pool, username, sid))
  {
  }

  /** With every row within bounds, the sessions in use never exceed the pool's capacity. */
  lemma UsedWithinCapacity(pool: Pool)
    requires SessionBounds(pool)
    ensures 0 <= UsedCapacity(pool) <= TotalCapacity(pool)
  {
    SumLe(pool, CurrentSessionsOf, MaxSessionsOf);
    SumNonNegative(pool);
  }

  lemma {:induction false} SumNonNegative(pool: Pool)
    requires SessionBounds(pool)
    ensures Sum(pool, CurrentSessionsOf) >= 0
    decreases |pool|
  {
    if |pool| > 0 {
      var u := Pick(pool);
      assert (pool - {u}).Keys == pool.Keys - {u};
      SumNonNegative(pool - {u});
    }
  }

  /** An acquisition uses up exactly one unit of capacity and leaves the total capacity alone. */
  lemma AcquireUsesOneSlot(before: Pool, after: Pool, u: string, sid: string, now: int)
    requires AcquiredBy(before, after, u, sid, now)
    ensures UsedCapacity(after) == UsedCapacity(before) + 1
    ensures TotalCapacity(after) == TotalCapacity(before)
  {
    assert after == before[u := after[u]];
    SumUpdate(before, CurrentSessionsOf, u, after[u]);
    SumUpdate(before, MaxSessionsOf, u, after[u]);
  }

  /**
   Releasing the session just acquired restores the session count and the
   multiset of held session ids; the id list itself comes back exactly when
   `sid` did not already hold the login.
   */
  lemma AcquireThenRelease(before: Pool, after: Pool, u: string, sid: string, now: int)
    requires AcquiredBy(before, after, u, sid, now)
    requires before[u].currentSessions >= 0
    ensures
      var back := Release(after, u, sid);
      && back.Keys == before.Keys
      && back[u].currentSessions == before[u].currentSessions
      && multiset(back[u].activeSessionIds) == multiset(before[u].activeSessionIds)
      && (sid !in before[u].activeSessionIds ==> back[u].activeSessionIds == before[u].activeSessionIds)
      && forall v :: v in before && v != u ==> back[v] == before[v]
  {
    var ids := before[u].activeSessionIds;
    assert sid in after[u].activeSessionIds;
    if sid !in ids {
      RemoveAppended(ids, sid);
    }
  }

  /** Removing the first `x` from `s + [x]` gives back `s` when `s` holds no `x`. */
  lemma {:induction false} RemoveAppended(s: seq<string>, x: string)
    requires x !in s
    ensures RemoveFirst(s + [x], x) == s
  {
    if |s| > 0 {
      assert (s + [x])[1..] == s[1..] + [x];
      RemoveAppended(s[1..], x);
    }
  }

  /** A login with one slot: once a session holds it, a second attempt finds nothing. */
  lemma SingleSlotIsExclusive(before: Pool, after: Pool, u: string, sid: string, now: int)
    requires SessionBounds(before)
    requires before.Keys == {u} && before[u].maxSessions == 1
    requires AcquiredBy(before, after, u, sid, now) && Eligible(before[u])
    ensures NoUserAvailable(after)
    ensures Release(after, u, sid)[u].currentSessions == before[u].currentSessions
  {
  }

  /**
   Release is not idempotent: with two sessions on a login, releasing the
   same session twice takes the count down by two, because the decrement does
   not depend on the session id being present.
   */
  lemma ReleaseTwiceIsNotIdempotent()
    ensures
      var row := UserRow("pw", "10.0.0.1", "22", 2, 3, ["a", "b"], "Yes", false, 0, 2);
      var pool := map["u" := row];
      var once := Release(pool, "u", "a");
      var twice := Release(once, "u", "a");
      once["u"].currentSessions == 1 && twice["u"].currentSessions == 0
  {
  }
}
