/**
 The inventory selector (`hc_nodes` joined with `hc_node_status`): which
 nodes are due for a check, in what order, how many, and the lookup of a
 single node. Node rows are keyed by `neId`; the status table is the one the
 status tracker maintains.
 */
module Inventory {
  import opened Wrappers
  import opened Tables
  import opened StatusTracker

  /** One row of `hc_nodes`, keyed by `neId`. */
  datatype NodeRow = NodeRow(
    ipAddress: string,
    hostname: string,
    site: string,
    circle: string,
    vendor: Option<string>,
    nodeType: Option<string>,
    loginStatus: string,
    healthCheckEnabled: bool,
    priority: int)

  type NodeTable = map<string, NodeRow>

  /** The columns every node query returns. */
  datatype Node = Node(neId: string, ipAddress: string, hostname: string, site: string, circle: string, vendor: string, nodeType: string)

  datatype InventoryError =
    | NoNodesAvailable  // the due-for-check query returned no row
    | NodeNotFound      // the lookup by id matched no row

  /** Substitutes for NULL columns. */
  const DefaultVendor := "unknown"
  const DefaultNodeType := "router"
  /** 2000-01-01 00:00:00 UTC in Unix seconds: where a never-completed check sorts. */
  const NeverCompleted := 946684800

  /** The selected columns of a node row, with NULL vendor and type replaced by their defaults. */
  function ToNode(neId: string, row: NodeRow): (n: Node)
    ensures n.neId == neId && n.ipAddress == row.ipAddress && n.hostname == row.hostname
    ensures n.site == row.site && n.circle == row.circle
    ensures row.vendor.None? ==> n.vendor == DefaultVendor
    ensures row.vendor.Some? ==> n.vendor == row.vendor.value
    ensures row.nodeType.None? ==> n.nodeType == DefaultNodeType
    ensures row.nodeType.Some? ==> n.nodeType == row.nodeType.value
  {
    Node(neId, row.ipAddress, row.hostname, row.site, row.circle, row.vendor.GetOr(DefaultVendor), row.nodeType.GetOr(DefaultNodeType))
  }

  /* ---------------------------------------------------------------------
     Filter and order of the due-for-check queries
     --------------------------------------------------------------------- */

  /**
   The join and WHERE clause shared by both list queries: a status row
   exists, the login status is 'Yes', health checks are enabled, and the
   node is idle.
   */
  predicate DueForCheck(nodes: NodeTable, statuses: StatusTable, id: string) {
    && id in nodes
    && id in statuses
    && nodes[id].loginStatus == "Yes"
    && nodes[id].healthCheckEnabled
    && statuses[id].status == Idle
  }

  function DueIds(nodes: NodeTable, statuses: StatusTable): set<string> {
    set id | id in nodes && DueForCheck(nodes, statuses, id)
  }

  function CircleIds(nodes: NodeTable, statuses: StatusTable, circle: string): set<string> {
    set id | id in nodes && DueForCheck(nodes, statuses, id) && nodes[id].circle == circle
  }

  function CompletedOrDefault(row: StatusRow): int {
    row.lastCheckCompleted.GetOr(NeverCompleted)
  }

  /**
   Node `a` may be listed before node `b`: its last completion (never
   completed counting as 2000-01-01) is earlier, or equally early with a
   priority at least as high.
   */
  ghost predicate ListedNoLater(nodes: NodeTable, statuses: StatusTable, a: string, b: string) {
    && a in nodes && a in statuses && b in nodes && b in statuses
    && (|| CompletedOrDefault(statuses[a]) < CompletedOrDefault(statuses[b])
        || (CompletedOrDefault(statuses[a]) == CompletedOrDefault(statuses[b]) && nodes[a].priority >= nodes[b].priority))
  }

  /** The inner join on `neId`. */
  function Joined(nodes: NodeTable, statuses: StatusTable): map<string, (NodeRow, StatusRow)> {
    map id | id in nodes && id in statuses :: (nodes[id], statuses[id])
  }

  /** `ORDER BY COALESCE(last_check_completed, '2000-01-01') ASC, priority DESC`. */
  function DueRank(joined: (NodeRow, StatusRow)): Rank {
    Rank(CompletedOrDefault(joined.1), -joined.0.priority)
  }

  /* ---------------------------------------------------------------------
     Queries
     --------------------------------------------------------------------- */

  /** The node with id `neId` if its login status is 'Yes', whatever its check flag or status. */
  function GetNodeByID(nodes: NodeTable, neId: string): (r: Result<Node, InventoryError>)
    ensures r.Ok? <==> neId in nodes && nodes[neId].loginStatus == "Yes"
    ensures r.Ok? ==> r.value == ToNode(neId, nodes[neId])
    ensures r.Err? ==> r.error == NodeNotFound
  {
    if neId in nodes && nodes[neId].loginStatus == "Yes" then Ok(ToNode(neId, nodes[neId]))
    else Err(NodeNotFound)
  }

  /**
   Up to `limit` due nodes, each once, earliest completion first and higher
   priority first among equals; no due node left out sorts strictly before
   one returned. An empty answer is an error.
   */
  method GetNodesToCheck(nodes: NodeTable, statuses: StatusTable, limit: nat) returns (r: Result<seq<Node>, InventoryError>)
    ensures r.Err? <==> limit == 0 || DueIds(nodes, statuses) == {}
    ensures r.Err? ==> r.error == NoNodesAvailable
    ensures r.Ok? ==> |r.value| == Min(limit, |DueIds(nodes, statuses)|)
    ensures r.Ok? ==> forall i :: 0 <= i < |r.value| ==>
      DueForCheck(nodes, statuses, r.value[i].neId) && r.value[i] == ToNode(r.value[i].neId, nodes[r.value[i].neId])
    ensures r.Ok? ==> forall i, j :: 0 <= i < j < |r.value| ==> r.value[i].neId != r.value[j].neId
    ensures r.Ok? ==> forall i, j :: 0 <= i < j < |r.value| ==> ListedNoLater(nodes, statuses, r.value[i].neId, r.value[j].neId)
    ensures r.Ok? ==> forall i, id :: 0 <= i < |r.value| && DueForCheck(nodes, statuses, id)
                        && (forall j :: 0 <= j < |r.value| ==> r.value[j].neId != id)
                        ==> ListedNoLater(nodes, statuses, r.value[i].neId, id)
    ensures r.Ok? ==> forall i :: 0 <= i < |r.value| ==> GetNodeByID(nodes, r.value[i].neId) == Ok(r.value[i])
  {
    var due := DueIds(nodes, statuses);
    var joined := Joined(nodes, statuses);
    var ids := SortedPrefix(joined, due, DueRank, limit);
    var ns := seq(|ids|, i requires 0 <= i < |ids| && ids[i] in nodes => ToNode(ids[i], nodes[ids[i]]));
    assert forall i :: 0 <= i < |ns| ==> ns[i].neId == ids[i];
    assert forall id :: id in nodes && DueForCheck(nodes, statuses, id) ==> id in due;
    if |ns| == 0 {
      return Err(NoNodesAvailable);
    }
    forall i, id | 0 <= i < |ns| && DueForCheck(nodes, statuses, id) && (forall j :: 0 <= j < |ns| ==> ns[j].neId != id)
      ensures ListedNoLater(nodes, statuses, ns[i].neId, id)
    {
      assert id !in ids;
    }
    return Ok(ns);
  }

  /**
   Up to `limit` due nodes of one circle, each once, in no particular order;
   an empty answer is not an error.
   */
  method GetNodesByCircle(nodes: NodeTable, statuses: StatusTable, circle: string, limit: nat) returns (ns: seq<Node>)
    ensures |ns| == Min(limit, |CircleIds(nodes, statuses, circle)|)
    ensures forall i :: 0 <= i < |ns| ==>
      && DueForCheck(nodes, statuses, ns[i].neId)
      && nodes[ns[i].neId].circle == circle
      && ns[i] == ToNode(ns[i].neId, nodes[ns[i].neId])
    ensures forall i, j :: 0 <= i < j < |ns| ==> ns[i].neId != ns[j].neId
  {
    var ids := TakeAny(CircleIds(nodes, statuses, circle), limit);
    ns := seq(|ids|, i requires 0 <= i < |ids| && ids[i] in nodes => ToNode(ids[i], nodes[ids[i]]));
  }

  /* ---------------------------------------------------------------------
     Properties across queries
     --------------------------------------------------------------------- */

  /**
   The lookup by id is looser than the due-for-check filter: every due node
   is found, and a node that is disabled or busy is still found when its
   login status is 'Yes'.
   */
  lemma LookupIgnoresCheckState(nodes: NodeTable, statuses: StatusTable, id: string)
    ensures DueForCheck(nodes, statuses, id) ==> GetNodeByID(nodes, id) == Ok(ToNode(id, nodes[id]))
    ensures id in nodes && nodes[id].loginStatus == "Yes" && !nodes[id].healthCheckEnabled ==>
      !DueForCheck(nodes, statuses, id) && GetNodeByID(nodes, id).Ok?
    ensures id in nodes && nodes[id].loginStatus == "Yes" && id in statuses && statuses[id].status.InProgress() ==>
      !DueForCheck(nodes, statuses, id) && GetNodeByID(nodes, id).Ok?
  {
  }

  /** The circle filter only narrows the due set. */
  lemma CircleNarrowsDue(nodes: NodeTable, statuses: StatusTable, circle: string)
    ensures CircleIds(nodes, statuses, circle) <= DueIds(nodes, statuses)
    ensures |CircleIds(nodes, statuses, circle)| <= |DueIds(nodes, statuses)|
  {
    CardinalitySubset(CircleIds(nodes, statuses, circle), DueIds(nodes, statuses));
  }

  /** A node whose check is running drops out of the due set; completing it does not bring it back. */
  lemma RunningOrFinishedNodesAreNotDue(nodes: NodeTable, statuses: StatusTable, id: string, sid: string, user: string, success: bool, duration: int, errorMsg: string, now: int)
    requires id in statuses
    ensures
      var running := UpdateStatus(statuses, id, Running, sid, user, now);
      && id !in DueIds(nodes, running)
      && id !in DueIds(nodes, RecordCompletion(running, id, sid, success, duration, errorMsg, now))
  {
  }
}
