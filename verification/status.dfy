/**
 The node status tracker (`hc_node_status` and `hc_live_updates`): the
 eight check states, the unchecked status overwrite, the terminal completion
 record with its counters, the active-check count and the append-only
 progress log.
 */
module StatusTracker {
  import opened Wrappers
  import opened Tables

  /** The check states, stored as their lower-case names. */
  datatype Status = Idle | Queued | Connecting | Running | Polling | Completed | Failed | Timeout {

    /** The string written to `current_status`. */
    function Label(): string {
      match this
      case Idle => "idle"
      case Queued => "queued"
      case Connecting => "connecting"
      case Running => "running"
      case Polling => "polling"
      case Completed => "completed"
      case Failed => "failed"
      case Timeout => "timeout"
    }

    /** The states the active-check count includes. */
    predicate InProgress() {
      Queued? || Connecting? || Running? || Polling?
    }
  }

  /** One row of `hc_node_status`, keyed by `neId`; timestamps are opaque integers. */
  datatype StatusRow = StatusRow(
    status: Status,
    sessionId: Option<string>,
    username: Option<string>,
    lastCheckStarted: Option<int>,
    lastCheckCompleted: Option<int>,
    lastCheckDuration: Option<int>,
    lastCheckResult: Option<string>,
    totalChecks: int,
    successfulChecks: int,
    consecutiveFailures: int,
    lastSuccessfulCheck: Option<int>,
    errorMessage: Option<string>,
    updatedAt: Option<int>)

  type StatusTable = map<string, StatusRow>

  /** One row of `hc_live_updates`. */
  datatype LiveUpdate = LiveUpdate(sessionId: string, neId: string, status: string, message: string, progress: int)

  datatype StatusError = NoStatusRow

  /* ---------------------------------------------------------------------
     Writes
     --------------------------------------------------------------------- */

  /**
   Overwrites the status, session and user of node `neId` whatever its
   previous status, with no check that the move is legal. `last_check_started`
   is stamped exactly when the new status is 'running'. An unknown node
   matches no row and nothing changes.
   */
  function UpdateStatus(t: StatusTable, neId: string, status: Status, sid: string, username: string, now: int): (t': StatusTable)
    ensures t'.Keys == t.Keys
    ensures neId !in t ==> t' == t
    ensures forall id :: id in t && id != neId ==> t'[id] == t[id]
    ensures neId in t ==>
      var row, row' := t[neId], t'[neId];
      && row'.status == status
      && row'.sessionId == Some(sid)
      && row'.username == Some(username)
      && (status == Running ==> row'.lastCheckStarted == Some(now))
      && (status != Running ==> row'.lastCheckStarted == row.lastCheckStarted)
      && row'.updatedAt == Some(now)
      && row'.lastCheckCompleted == row.lastCheckCompleted
      && row'.lastCheckDuration == row.lastCheckDuration
      && row'.lastCheckResult == row.lastCheckResult
      && row'.errorMessage == row.errorMessage
      && row'.totalChecks == row.totalChecks
      && row'.successfulChecks == row.successfulChecks
      && row'.consecutiveFailures == row.consecutiveFailures
      && row'.lastSuccessfulCheck == row.lastSuccessfulCheck
  {
    if neId !in t then t
    else
      var row := t[neId];
      t[neId := row.(
        status := status,
        sessionId := Some(sid),
        username := Some(username),
        lastCheckStarted := if status.Label() == "running" then Some(now) else row.lastCheckStarted,
        updatedAt := Some(now))]
  }

  /**
   The terminal write of a check. `completed`/"success" on success and
   `failed`/"failed" otherwise; both counters and the failure streak move,
   the last success is stamped only on success, the error text and duration
   are stored, and the session and user are cleared. The session id argument
   is not used.
   */
  function RecordCompletion(t: StatusTable, neId: string, sid: string, success: bool, duration: int, errorMsg: string, now: int): (t': StatusTable)
    ensures t'.Keys == t.Keys
    ensures neId !in t ==> t' == t
    ensures forall id :: id in t && id != neId ==> t'[id] == t[id]
    ensures neId in t ==>
      var row, row' := t[neId], t'[neId];
      && row'.status == (if success then Completed else Failed)
      && row'.lastCheckResult == Some(if success then "success" else "failed")
      && row'.lastCheckCompleted == Some(now)
      && row'.lastCheckDuration == Some(duration)
      && row'.totalChecks == row.totalChecks + 1
      && row'.successfulChecks == row.successfulChecks + (if success then 1 else 0)
      && row'.consecutiveFailures == (if success then 0 else row.consecutiveFailures + 1)
      && row'.lastSuccessfulCheck == (if success then Some(now) else row.lastSuccessfulCheck)
      && row'.errorMessage == Some(errorMsg)
      && row'.sessionId.None? && row'.username.None?
      && row'.lastCheckStarted == row.lastCheckStarted
      && row'.updatedAt == row.updatedAt
  {
    var status := if success then Completed else Failed;
    var result := if success then "success" else "failed";
    if neId !in t then t
    else
      var row := t[neId];
      t[neId := row.(
        status := status,
        lastCheckCompleted := Some(now),
        lastCheckDuration := Some(duration),
        lastCheckResult := Some(result),
        totalChecks := row.totalChecks + 1,
        successfulChecks := row.successfulChecks + (if success then 1 else 0),
        consecutiveFailures := if success then 0 else row.consecutiveFailures + 1,
        lastSuccessfulCheck := if success then Some(now) else row.lastSuccessfulCheck,
        errorMessage := Some(errorMsg),
        sessionId := None,
        username := None)]
  }

  /** Appends one progress event; the events already logged are left as they were. */
  function AddLiveUpdate(log: seq<LiveUpdate>, sid: string, neId: string, status: string, message: string, progress: int): (log': seq<LiveUpdate>)
    ensures |log'| == |log| + 1
    ensures log'[..|log|] == log
    ensures log'[|log|] == LiveUpdate(sid, neId, status, message, progress)
  {
    log + [LiveUpdate(sid, neId, status, message, progress)]
  }

  /* ---------------------------------------------------------------------
     Reads
     --------------------------------------------------------------------- */

  /** The status of one node; a node with no row is an error. */
  function GetNodeStatus(t: StatusTable, neId: string): (r: Result<Status, StatusError>)
    ensures r.Ok? <==> neId in t
    ensures r.Ok? ==> r.value == t[neId].status
  {
    if neId in t then Ok(t[neId].status) else Err(NoStatusRow)
  }

  function ActiveNodes(t: StatusTable): set<string> {
    set id | id in t && t[id].status.InProgress()
  }

  /** The number of nodes in a queued, connecting, running or polling state. */
  function GetActiveChecks(t: StatusTable): (n: nat)
    ensures n <= |t|
  {
    assert ActiveNodes(t) <= t.Keys;
    CardinalitySubset(ActiveNodes(t), t.Keys);
    |ActiveNodes(t)|
  }

  /** The events of one session, in insertion order: what a timeline view renders. */
  function Timeline(log: seq<LiveUpdate>, sid: string): seq<LiveUpdate> {
    if |log| == 0 then []
    else (if log[0].sessionId == sid then [log[0]] else []) + Timeline(log[1..], sid)
  }

  /* ---------------------------------------------------------------------
     Properties across operations
     --------------------------------------------------------------------- */

  /** After an overwrite the node reads back the status just written. */
  lemma UpdateThenGet(t: StatusTable, neId: string, status: Status, sid: string, username: string, now: int)
    requires neId in t
    ensures GetNodeStatus(UpdateStatus(t, neId, status, sid, username, now), neId) == Ok(status)
  {
  }

  /** A completion leaves the node `completed` or `failed`, never `idle` or `timeout`. */
  lemma CompletionIsTerminal(t: StatusTable, neId: string, sid: string, success: bool, duration: int, errorMsg: string, now: int)
    requires neId in t
    ensures
      var s := GetNodeStatus(RecordCompletion(t, neId, sid, success, duration, errorMsg, now), neId);
      && s.Ok? && (s.value == Completed || s.value == Failed)
      && s.value != Idle && s.value != Timeout
      && !s.value.InProgress()
  {
  }

  /** A failed check on a running node: status `failed`, result "failed", the error kept, the session cleared. */
  lemma FailedCompletionScenario(t: StatusTable, neId: string, sid: string, now: int)
    requires neId in t && t[neId].status == Running && t[neId].sessionId == Some(sid)
    ensures
      var row := RecordCompletion(t, neId, sid, false, 500, "conn refused", now)[neId];
      && row.status == Failed
      && row.lastCheckResult == Some("failed")
      && row.errorMessage == Some("conn refused")
      && row.lastCheckDuration == Some(500)
      && row.sessionId.None?
      && row.consecutiveFailures == t[neId].consecutiveFailures + 1
  {
  }

  /** The session id handed to a completion has no effect on the table. */
  lemma CompletionIgnoresSession(t: StatusTable, neId: string, sid1: string, sid2: string, success: bool, duration: int, errorMsg: string, now: int)
    ensures RecordCompletion(t, neId, sid1, success, duration, errorMsg, now)
         == RecordCompletion(t, neId, sid2, success, duration, errorMsg, now)
  {
  }

  /** Every row counts no more successes than checks, and neither count is negative. */
  ghost predicate CountersConsistent(t: StatusTable) {
    forall id :: id in t ==> 0 <= t[id].successfulChecks <= t[id].totalChecks && t[id].consecutiveFailures >= 0
  }

  lemma CompletionKeepsCounters(t: StatusTable, neId: string, sid: string, success: bool, duration: int, errorMsg: string, now: int)
    requires CountersConsistent(t)
    ensures CountersConsistent(RecordCompletion(t, neId, sid, success, duration, errorMsg, now))
  {
  }

  lemma UpdateKeepsCounters(t: StatusTable, neId: string, status: Status, sid: string, username: string, now: int)
    requires CountersConsistent(t)
    ensures CountersConsistent(UpdateStatus(t, neId, status, sid, username, now))
  {
  }

  /** Counting a set that differs from another only in one element. */
  lemma CountAfterChange(a: set<string>, b: set<string>, id: string)
    requires a - {id} == b - {id}
    ensures |b| == |a| - (if id in a then 1 else 0) + (if id in b then 1 else 0)
  {
    assert a == (a - {id}) + (if id in a then {id} else {});
    assert b == (b - {id}) + (if id in b then {id} else {});
  }

  /**
   An overwrite moves the active-check count by the change in the node's own
   membership of the in-progress states, and by nothing else.
   */
  lemma ActiveChecksAfterUpdate(t: StatusTable, neId: string, status: Status, sid: string, username: string, now: int)
    requires neId in t
    ensures GetActiveChecks(UpdateStatus(t, neId, status, sid, username, now))
         == GetActiveChecks(t) - (if t[neId].status.InProgress() then 1 else 0) + (if status.InProgress() then 1 else 0)
  {
    var t' := UpdateStatus(t, neId, status, sid, username, now);
    assert ActiveNodes(t) - {neId} == ActiveNodes(t') - {neId};
    CountAfterChange(ActiveNodes(t), ActiveNodes(t'), neId);
  }

  /** A completion takes the node out of the active count if it was in it. */
  lemma ActiveChecksAfterCompletion(t: StatusTable, neId: string, sid: string, success: bool, duration: int, errorMsg: string, now: int)
    requires neId in t
    ensures GetActiveChecks(RecordCompletion(t, neId, sid, success, duration, errorMsg, now))
         == GetActiveChecks(t) - (if t[neId].status.InProgress() then 1 else 0)
  {
    var t' := RecordCompletion(t, neId, sid, success, duration, errorMsg, now);
    assert ActiveNodes(t) - {neId} == ActiveNodes(t') - {neId};
    CountAfterChange(ActiveNodes(t), ActiveNodes(t'), neId);
  }

  /** Logging an event extends its own session's timeline by that event and no other session's. */
  lemma {:induction false} TimelineAfterAdd(log: seq<LiveUpdate>, sid: string, neId: string, status: string, message: string, progress: int, viewer: string)
    ensures Timeline(AddLiveUpdate(log, sid, neId, status, message, progress), viewer)
         == Timeline(log, viewer) + (if sid == viewer then [LiveUpdate(sid, neId, status, message, progress)] else [])
  {
    var e := LiveUpdate(sid, neId, status, message, progress);
    if |log| > 0 {
      assert (log + [e])[1..] == log[1..] + [e];
      TimelineAfterAdd(log[1..], sid, neId, status, message, progress, viewer);
    } else {
      assert Timeline([e][1..], viewer) == [];
    }
  }
}
