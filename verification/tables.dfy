/**
 Generic query building blocks over a table modelled as a finite map from
 primary key to row: aggregates (`SUM`), and the row choices made by
 `ORDER BY ... LIMIT` and by a bare `LIMIT`. Where SQL leaves the order of
 tied rows to the engine, the methods here choose with `:|`, so no contract
 can depend on how ties are broken.
 */
module Tables {

  /** A sort key compared lexicographically: `ORDER BY major ASC, minor ASC`. */
  datatype Rank = Rank(major: int, minor: int)

  predicate RankLe(a: Rank, b: Rank) {
    a.major < b.major || (a.major == b.major && a.minor <= b.minor)
  }

  function Min(a: nat, b: nat): nat {
    if a <= b then a else b
  }

  /** A subset is no larger than the set containing it. */
  lemma CardinalitySubset<T>(a: set<T>, b: set<T>)
    requires a <= b
    ensures |a| <= |b|
  {
    assert b == a + (b - a);
  }

  /* ---------------------------------------------------------------------
     SUM(f(row)) over a whole table
     --------------------------------------------------------------------- */

  ghost function Pick<K, V>(m: map<K, V>): (k: K)
    requires |m| > 0
    ensures k in m
  {
    var k :| k in m; k
  }

  /** The sum of `f` over every row of `m`; 0 for an empty table. */
  ghost function Sum<K, V>(m: map<K, V>, f: V -> int): int
    decreases |m|
  {
    if |m| == 0 then 0
    else
      var k := Pick(m);
      assert (m - {k}).Keys == m.Keys - {k};
      f(m[k]) + Sum(m - {k}, f)
  }

  /** The sum does not depend on which row is taken out first. */
  lemma {:induction false} SumRemove<K, V>(m: map<K, V>, f: V -> int, k: K)
    requires k in m
    ensures Sum(m, f) == f(m[k]) + Sum(m - {k}, f)
    decreases |m|
  {
    var j := Pick(m);
    assert (m - {j}).Keys == m.Keys - {j};
    if j != k {
      assert (m - {k}).Keys == m.Keys - {k};
      SumRemove(m - {j}, f, k);
      SumRemove(m - {k}, f, j);
      assert m - {j} - {k} == m - {k} - {j};
    }
  }

  /** Replacing one row changes the sum by the difference of that row's values. */
  lemma SumUpdate<K, V>(m: map<K, V>, f: V -> int, k: K, v: V)
    requires k in m
    ensures Sum(m[k := v], f) == Sum(m, f) - f(m[k]) + f(v)
  {
    SumRemove(m, f, k);
    SumRemove(m[k := v], f, k);
    assert m[k := v] - {k} == m - {k};
  }

  /** A row-wise bound lifts to the sums. */
  lemma {:induction false} SumLe<K, V>(m: map<K, V>, f: V -> int, g: V -> int)
    requires forall k :: k in m ==> f(m[k]) <= g(m[k])
    ensures Sum(m, f) <= Sum(m, g)
    decreases |m|
  {
    if |m| > 0 {
      var k := Pick(m);
      assert (m - {k}).Keys == m.Keys - {k};
      SumLe(m - {k}, f, g);
    }
  }

  /** Evaluates `SUM(f(row))` by visiting the rows in an unspecified order. */
  method ComputeSum<K, V>(m: map<K, V>, f: V -> int) returns (s: int)
    ensures s == Sum(m, f)
  {
    s := 0;
    var rest := m;
    while |rest| > 0
      invariant s + Sum(rest, f) == Sum(m, f)
      decreases |rest|
    {
      var k :| k in rest;
      SumRemove(rest, f, k);
      assert (rest - {k}).Keys == rest.Keys - {k};
      s := s + f(rest[k]);
      rest := rest - {k};
    }
  }

  /* ---------------------------------------------------------------------
     ORDER BY ... LIMIT n, and LIMIT n alone
     --------------------------------------------------------------------- */

  /** `ORDER BY rank LIMIT 1` over the rows whose keys are in `s`. */
  method ArgMin<K, V>(m: map<K, V>, s: set<K>, rank: V -> Rank) returns (k: K)
    requires s != {} && s <= m.Keys
    ensures k in s
    ensures forall j :: j in s ==> RankLe(rank(m[k]), rank(m[j]))
  {
    k :| k in s;
    var rest := s - {k};
    while rest != {}
      invariant rest <= s && k in s
      invariant forall j :: j in s && j !in rest ==> RankLe(rank(m[k]), rank(m[j]))
      decreases rest
    {
      var j :| j in rest;
      if !RankLe(rank(m[k]), rank(m[j])) {
        k := j;
      }
      rest := rest - {j};
    }
  }

  /**
   `ORDER BY rank LIMIT limit` over the rows whose keys are in `s`: the keys of
   the first `limit` rows in rank order, each row at most once, and no row left
   out ranks strictly before a row returned.
   */
  method SortedPrefix<K, V>(m: map<K, V>, s: set<K>, rank: V -> Rank, limit: nat) returns (ks: seq<K>)
    requires s <= m.Keys
    ensures |ks| == Min(limit, |s|)
    ensures forall i :: 0 <= i < |ks| ==> ks[i] in s
    ensures forall i, j :: 0 <= i < j < |ks| ==> ks[i] != ks[j]
    ensures forall i, j :: 0 <= i < j < |ks| ==> RankLe(rank(m[ks[i]]), rank(m[ks[j]]))
    ensures forall i, k :: 0 <= i < |ks| && k in s && k !in ks ==> RankLe(rank(m[ks[i]]), rank(m[k]))
    ensures |ks| == |s| ==> forall k :: k in s ==> k in ks
  {
    ks := [];
    var rest := s;
    while |ks| < limit && rest != {}
      invariant rest <= s
      invariant |ks| <= limit
      invariant |ks| + |rest| == |s|
      invariant forall i :: 0 <= i < |ks| ==> ks[i] in s && ks[i] !in rest
      invariant forall k :: k in s && k !in rest ==> k in ks
      invariant forall i, j :: 0 <= i < j < |ks| ==> ks[i] != ks[j]
      invariant forall i, j :: 0 <= i < j < |ks| ==> RankLe(rank(m[ks[i]]), rank(m[ks[j]]))
      invariant forall i, k :: 0 <= i < |ks| && k in rest ==> RankLe(rank(m[ks[i]]), rank(m[k]))
      decreases rest
    {
      var k := ArgMin(m, rest, rank);
      ks := ks + [k];
      rest := rest - {k};
    }
  }

  /** `LIMIT limit` with no `ORDER BY`: any `limit` distinct keys of `s`, in any order. */
  method TakeAny<K>(s: set<K>, limit: nat) returns (ks: seq<K>)
    ensures |ks| == Min(limit, |s|)
    ensures forall i :: 0 <= i < |ks| ==> ks[i] in s
    ensures forall i, j :: 0 <= i < j < |ks| ==> ks[i] != ks[j]
  {
    ks := [];
    var rest := s;
    while |ks| < limit && rest != {}
      invariant rest <= s
      invariant |ks| <= limit
      invariant |ks| + |rest| == |s|
      invariant forall i :: 0 <= i < |ks| ==> ks[i] in s && ks[i] !in rest
      invariant forall i, j :: 0 <= i < j < |ks| ==> ks[i] != ks[j]
      decreases rest
    {
      var k :| k in rest;
      ks := ks + [k];
      rest := rest - {k};
    }
  }
}
