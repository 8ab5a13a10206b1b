/**
 The proxy selector (`hc_mito_proxies`): the preferred active proxy, the
 failover list of all active proxies in priority order, and the attempt and
 failure counters kept per proxy.
 */
module ProxySelector {
  import opened Wrappers
  import opened Tables

  /** One row of `hc_mito_proxies`, keyed by `proxy_name`; timestamps are opaque integers. */
  datatype ProxyRow = ProxyRow(
    ip: string,
    port: int,
    user: string,
    priority: int,
    isPrimary: bool,
    isActive: bool,
    totalAttempts: int,
    failedAttempts: int,
    lastSuccess: Option<int>,
    lastFailure: Option<int>)

  type ProxyTable = map<string, ProxyRow>

  /** The columns a selection query returns. */
  datatype Proxy = Proxy(name: string, ip: string, port: int, user: string, priority: int, isPrimary: bool)

  datatype ProxyError = NoAvailableProxy

  function ToProxy(name: string, row: ProxyRow): Proxy {
    Proxy(name, row.ip, row.port, row.user, row.priority, row.isPrimary)
  }

  /** `ORDER BY priority ASC`. */
  function PriorityRank(row: ProxyRow): Rank {
    Rank(row.priority, 0)
  }

  function ActiveNames(t: ProxyTable): set<string> {
    set n | n in t && t[n].isActive
  }

  /** `proxy` is what the selection query may return: an active row with the lowest priority value. */
  ghost predicate Preferred(t: ProxyTable, proxy: Proxy) {
    && proxy.name in t
    && t[proxy.name].isActive
    && proxy == ToProxy(proxy.name, t[proxy.name])
    && forall n :: n in t && t[n].isActive ==> proxy.priority <= t[n].priority
  }

  /* ---------------------------------------------------------------------
     Selection
     --------------------------------------------------------------------- */

  /** The best active proxy; an error exactly when no proxy is active. */
  method GetProxy(t: ProxyTable) returns (r: Result<Proxy, ProxyError>)
    ensures r.Err? <==> (forall n :: n in t ==> !t[n].isActive)
    ensures r.Ok? ==> Preferred(t, r.value)
  {
    var active := ActiveNames(t);
    if active == {} {
      assert forall n :: n in t && t[n].isActive ==> n in active;
      return Err(NoAvailableProxy);
    }
    var n := ArgMin(t, active, PriorityRank);
    return Ok(ToProxy(n, t[n]));
  }

  /**
   Every active proxy exactly once, by non-decreasing priority; no active
   proxy gives the empty list, which is not an error.
   */
  method GetAllProxies(t: ProxyTable) returns (ps: seq<Proxy>)
    ensures forall i :: 0 <= i < |ps| ==> ps[i].name in t && t[ps[i].name].isActive && ps[i] == ToProxy(ps[i].name, t[ps[i].name])
    ensures forall n :: n in t && t[n].isActive ==> exists i :: 0 <= i < |ps| && ps[i].name == n
    ensures forall i, j :: 0 <= i < j < |ps| ==> ps[i].name != ps[j].name
    ensures forall i, j :: 0 <= i < j < |ps| ==> ps[i].priority <= ps[j].priority
    ensures |ps| == |ActiveNames(t)|
    ensures |ps| > 0 ==> Preferred(t, ps[0])
  {
    var active := ActiveNames(t);
    var names := SortedPrefix(t, active, PriorityRank, |active|);
    ps := seq(|names|, i requires 0 <= i < |names| => ToProxy(names[i], t[names[i]]));
    forall n | n in t && t[n].isActive
      ensures exists i :: 0 <= i < |ps| && ps[i].name == n
    {
      assert n in names;
      var i :| 0 <= i < |names| && names[i] == n;
      assert ps[i].name == n;
    }
    if |ps| > 0 {
      forall n | n in t && t[n].isActive
        ensures ps[0].priority <= t[n].priority
      {
        if n != names[0] {
          assert n in names;
          var i :| 0 <= i < |names| && names[i] == n;
          assert 0 < i;
        }
      }
    }
  }

  /* ---------------------------------------------------------------------
     Outcome counters
     --------------------------------------------------------------------- */

  /** A use that worked: one more attempt, the same failures, the success stamped. */
  function RecordSuccess(t: ProxyTable, name: string, now: int): (t': ProxyTable)
    ensures t'.Keys == t.Keys
    ensures name !in t ==> t' == t
    ensures forall n :: n in t && n != name ==> t'[n] == t[n]
    ensures name in t ==>
      && t'[name].totalAttempts == t[name].totalAttempts + 1
      && t'[name].failedAttempts == t[name].failedAttempts
      && t'[name].lastSuccess == Some(now)
      && t'[name].lastFailure == t[name].lastFailure
      && t'[name].isActive == t[name].isActive
      && ToProxy(name, t'[name]) == ToProxy(name, t[name])
  {
    if name !in t then t
    else t[name := t[name].(totalAttempts := t[name].totalAttempts + 1, lastSuccess := Some(now))]
  }

  /** A use that failed: one more attempt and one more failure, the failure stamped. */
  function RecordFailure(t: ProxyTable, name: string, now: int): (t': ProxyTable)
    ensures t'.Keys == t.Keys
    ensures name !in t ==> t' == t
    ensures forall n :: n in t && n != name ==> t'[n] == t[n]
    ensures name in t ==>
      && t'[name].totalAttempts == t[name].totalAttempts + 1
      && t'[name].failedAttempts == t[name].failedAttempts + 1
      && t'[name].lastFailure == Some(now)
      && t'[name].lastSuccess == t[name].lastSuccess
      && t'[name].isActive == t[name].isActive
      && ToProxy(name, t'[name]) == ToProxy(name, t[name])
  {
    if name !in t then t
    else
      var row := t[name];
      t[name := row.(totalAttempts := row.totalAttempts + 1, failedAttempts := row.failedAttempts + 1, lastFailure := Some(now))]
  }

  /* ---------------------------------------------------------------------
     Properties across operations
     --------------------------------------------------------------------- */

  /** What the selection queries can see: the active rows, as the queries return them. */
  function Selectable(t: ProxyTable): map<string, Proxy> {
    map n | n in t && t[n].isActive :: ToProxy(n, t[n])
  }

  /** Two tables that agree on every row's activity and returned columns select alike. */
  lemma SameSelection(t: ProxyTable, t': ProxyTable)
    requires t'.Keys == t.Keys
    requires forall n :: n in t ==> t'[n].isActive == t[n].isActive && ToProxy(n, t'[n]) == ToProxy(n, t[n])
    ensures Selectable(t') == Selectable(t)
    ensures forall p :: Preferred(t, p) <==> Preferred(t', p)
  {
    assert Selectable(t').Keys == Selectable(t).Keys;
  }

  /** Recording an outcome never changes which proxies are selectable or in what order. */
  lemma RecordingKeepsSelection(t: ProxyTable, name: string, now: int)
    ensures Selectable(RecordSuccess(t, name, now)) == Selectable(t)
    ensures Selectable(RecordFailure(t, name, now)) == Selectable(t)
    ensures forall p :: Preferred(t, p) <==> Preferred(RecordSuccess(t, name, now), p)
    ensures forall p :: Preferred(t, p) <==> Preferred(RecordFailure(t, name, now), p)
  {
    SameSelection(t, RecordSuccess(t, name, now));
    SameSelection(t, RecordFailure(t, name, now));
  }

  /** Every row counts no more failures than attempts, and no negative failures. */
  ghost predicate CountersConsistent(t: ProxyTable) {
    forall n :: n in t ==> 0 <= t[n].failedAttempts <= t[n].totalAttempts
  }

  /** Both recordings keep the counters consistent and never lower an attempt count. */
  lemma RecordingKeepsCounters(t: ProxyTable, name: string, now: int)
    requires CountersConsistent(t)
    ensures CountersConsistent(RecordSuccess(t, name, now))
    ensures CountersConsistent(RecordFailure(t, name, now))
    ensures forall n :: n in t ==> RecordSuccess(t, name, now)[n].totalAttempts >= t[n].totalAttempts
    ensures forall n :: n in t ==> RecordFailure(t, name, now)[n].totalAttempts >= t[n].totalAttempts
  {
  }

  /**
   Three active proxies with priorities 3, 1 and 2: the priority-1 proxy is
   preferred, and once it is deactivated the priority-2 proxy is.
   */
  lemma FailoverScenario()
    ensures
      var a := ProxyRow("10.0.0.1", 8080, "px", 3, false, true, 0, 0, None, None);
      var b := ProxyRow("10.0.0.2", 8080, "px", 1, true, true, 0, 0, None, None);
      var c := ProxyRow("10.0.0.3", 8080, "px", 2, false, true, 0, 0, None, None);
      var t := map["a" := a, "b" := b, "c" := c];
      var t' := t["b" := b.(isActive := false)];
      && Preferred(t, ToProxy("b", b))
      && (forall p :: Preferred(t, p) ==> p.name == "b")
      && Preferred(t', ToProxy("c", c))
      && (forall p :: Preferred(t', p) ==> p.name == "c")
  {
  }
}
