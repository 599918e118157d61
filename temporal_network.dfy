/** The temporal contact network: one weighted undirected graph per timestep
    (`G[time]`), built from edge records with optional per-timestep weight
    normalization (`create_dynamic_network`), and the Jaccard similarity of
    edge sets (`calculate_jaccard`, `calculate_mean_temporal_jaccard`). */
module TemporalNetwork {
  import opened Utils

  /** An undirected edge as the sorted pair of its end nodes, the
      `tuple(sorted(edge))` of the Jaccard code: `(u, v)` and `(v, u)` name
      the same edge. */
  datatype Edge = Edge(lo: Node, hi: Node)

  function EdgeOf(u: Node, v: Node): (e: Edge)
    ensures StrLe(e.lo, e.hi)
    ensures {e.lo, e.hi} == {u, v}
  {
    StrLeConnex(u, v);
    if StrLe(u, v) then Edge(u, v) else Edge(v, u)
  }

  /** The ends of an edge name it: they decide `EdgeOf` whichever way round. */
  lemma EdgeOfSymmetric(u: Node, v: Node)
    ensures EdgeOf(u, v) == EdgeOf(v, u)
  {
    StrLeConnex(u, v);
    if StrLe(u, v) && StrLe(v, u) { StrLeAntisymmetric(u, v); }
  }

  /** One timestep's networkx graph: its nodes and the `weight` attribute of
      each edge. */
  datatype Graph = Graph(nodes: set<Node>, weight: map<Edge, real>)

  const EmptyGraph: Graph := Graph({}, map[])

  /** Every edge joins one or two nodes of the graph. */
  predicate WellFormed(g: Graph) {
    forall e :: e in g.weight ==> e.lo in g.nodes && e.hi in g.nodes && StrLe(e.lo, e.hi)
  }

  /** `G.add_edge(u, v)` followed by `G[u][v]["weight"] = w`: both ends become
      nodes and the edge's weight is overwritten. */
  function AddEdge(g: Graph, u: Node, v: Node, w: real): Graph {
    Graph(g.nodes + {u, v}, g.weight[EdgeOf(u, v) := w])
  }

  /** Adding an edge keeps a graph well formed. */
  lemma AddEdgeWellFormed(g: Graph, u: Node, v: Node, w: real)
    requires WellFormed(g)
    ensures WellFormed(AddEdge(g, u, v, w))
  {
    var e := EdgeOf(u, v);
    assert e.lo in {u, v} && e.hi in {u, v};
  }

  /** `G.degree(node) > 0` as line 225 intends it: some edge touches the
      node. A node the graph lacks touches none; `DegreeTestAsWritten` in
      the imputation module states what the test does for such a node. */
  predicate HasContact(g: Graph, n: Node) {
    exists e :: e in g.weight && (e.lo == n || e.hi == n)
  }

  /** `G`: timestep -> graph. */
  type Network = map<int, Graph>

  // ------------------------------------------------- create_dynamic_network

  /** One row of the edge table: node1, node2, weight, timestep. */
  datatype Record = Record(node1: Node, node2: Node, weight: real, time: int)

  /** The weight is a whole number. This stands for `int(row[2])` accepting
      the weight's text; the text itself is not modelled, so a text such as
      `2.0`, which `int` refuses, counts as whole here. */
  predicate Integral(x: real) {
    x.Floor as real == x
  }

  /** `sum(total_weight[t])`: the weights of the rows at timestep `t`. */
  function TotalAt(records: seq<Record>, t: int): real {
    if records == [] then 0.0
    else TotalAt(records[..|records| - 1], t) + (if records[|records| - 1].time == t then records[|records| - 1].weight else 0.0)
  }

  /** The weight the second pass writes for a row. */
  function RowWeight(r: Record, all: seq<Record>, normalize: bool): real
    requires normalize ==> TotalAt(all, r.time) != 0.0
  {
    if normalize then r.weight / TotalAt(all, r.time) else r.weight
  }

  /** Every row's timestep has a non-zero total. */
  predicate TotalsNonZero(records: seq<Record>, all: seq<Record>) {
    forall i :: 0 <= i < |records| ==> TotalAt(all, records[i].time) != 0.0
  }

  /** The graphs after the second pass has read `records` (a prefix of `all`). */
  function Build(records: seq<Record>, all: seq<Record>, normalize: bool): Network
    requires normalize ==> TotalsNonZero(records, all)
  {
    if records == [] then map[]
    else
      var net := Build(records[..|records| - 1], all, normalize);
      var r := records[|records| - 1];
      var g := if r.time in net then net[r.time] else EmptyGraph;
      net[r.time := AddEdge(g, r.node1, r.node2, RowWeight(r, all, normalize))]
  }

  /** `create_dynamic_network` over the rows of the edge table: with
      normalization a non-integer weight fails the first pass (`ValueError`)
      and a timestep whose weights sum to zero fails the division
      (`ZeroDivisionError`). */
  function DynamicNetwork(records: seq<Record>, normalize: bool): Result<Network> {
    if normalize && exists i :: 0 <= i < |records| && !Integral(records[i].weight) then Err(ValueError)
    else if normalize && !TotalsNonZero(records, records) then Err(ZeroDivisionError)
    else Ok(Build(records, records, normalize))
  }

  /** The two passes of `create_dynamic_network`: per-timestep totals, then
      one `add_edge` per row. */
  method CreateDynamicNetwork(records: seq<Record>, normalize: bool) returns (r: Result<Network>)
    ensures r == DynamicNetwork(records, normalize)
  {
    var totals: map<int, real> := map[];
    if normalize {
      var sums := TotalWeights(records);
      if sums.Err? {
        return Err(ValueError);
      }
      totals := sums.value;
    }
    r := AddRows(records, totals, normalize);
  }

  /** The first pass: the weights of each timestep's rows, failing on the
      first row whose weight is not an integer. */
  method TotalWeights(records: seq<Record>) returns (r: Result<map<int, real>>)
    ensures r.Err? <==> exists i :: 0 <= i < |records| && !Integral(records[i].weight)
    ensures r.Err? ==> r.failure == ValueError
    ensures r.Ok? ==> forall t :: t in r.value <==> exists j :: 0 <= j < |records| && records[j].time == t
    ensures r.Ok? ==> forall t :: t in r.value ==> r.value[t] == TotalAt(records, t)
  {
    var totals: map<int, real> := map[];
    for i := 0 to |records|
      invariant forall j :: 0 <= j < i ==> Integral(records[j].weight)
      invariant forall t :: t in totals <==> exists j :: 0 <= j < i && records[j].time == t
      invariant forall t :: t in totals ==> totals[t] == TotalAt(records[..i], t)
    {
      var row := records[i];
      if !Integral(row.weight) {
        return Err(ValueError);
      }
      assert records[..i + 1][..i] == records[..i];
      if row.time !in totals {
        TotalAbsent(records[..i], row.time);
        totals := totals[row.time := 0.0];
      }
      totals := totals[row.time := totals[row.time] + row.weight];
    }
    assert records[..|records|] == records;
    r := Ok(totals);
  }

  /** The second pass: one `add_edge` per row, dividing by the row's
      timestep total when normalizing. */
  method AddRows(records: seq<Record>, totals: map<int, real>, normalize: bool) returns (r: Result<Network>)
    requires normalize ==> forall j :: 0 <= j < |records| ==> records[j].time in totals
    requires normalize ==> forall t :: t in totals ==> totals[t] == TotalAt(records, t)
    ensures r == if normalize && !TotalsNonZero(records, records) then Err(ZeroDivisionError)
                 else Ok(Build(records, records, normalize))
  {
    var g: Network := map[];
    for i := 0 to |records|
      invariant normalize ==> TotalsNonZero(records[..i], records)
      invariant g == Build(records[..i], records, normalize)
    {
      var row := records[i];
      var wt := row.weight;
      if normalize {
        if totals[row.time] == 0.0 {
          return Err(ZeroDivisionError);
        }
        wt := wt / totals[row.time];
      }
      BuildStep(records, records, normalize, i);
      assert wt == RowWeight(row, records, normalize);
      var graph := if row.time in g then g[row.time] else EmptyGraph;
      g := g[row.time := AddEdge(graph, row.node1, row.node2, wt)];
    }
    assert records[..|records|] == records;
    r := Ok(g);
  }

  /** One more row: the prefix keeps its non-zero totals and its network
      gains that row's edge. */
  lemma BuildStep(records: seq<Record>, all: seq<Record>, normalize: bool, i: int)
    requires 0 <= i < |records|
    requires normalize ==> TotalsNonZero(records[..i], all) && TotalAt(all, records[i].time) != 0.0
    ensures normalize ==> TotalsNonZero(records[..i + 1], all)
    ensures var net, r := Build(records[..i], all, normalize), records[i];
      Build(records[..i + 1], all, normalize)
        == net[r.time := AddEdge(if r.time in net then net[r.time] else EmptyGraph, r.node1, r.node2, RowWeight(r, all, normalize))]
  {
    var post := records[..i + 1];
    assert post[..i] == records[..i] && post[i] == records[i];
    if normalize {
      forall j | 0 <= j < |post| ensures TotalAt(all, post[j].time) != 0.0 {
        if j < i { assert post[j] == records[..i][j]; }
      }
    }
  }

  /** A timestep no row has yet has total zero. */
  lemma {:induction false} TotalAbsent(records: seq<Record>, t: int)
    requires forall j :: 0 <= j < |records| ==> records[j].time != t
    ensures TotalAt(records, t) == 0.0
  {
    if records != [] { TotalAbsent(records[..|records| - 1], t); }
  }

  /** Every graph of a built network is well formed, its timesteps are the
      rows' timesteps, and its edges are the rows' node pairs. */
  lemma BuildShape(records: seq<Record>, all: seq<Record>, normalize: bool)
    requires normalize ==> TotalsNonZero(records, all)
    ensures forall t :: t in Build(records, all, normalize) <==> exists i :: 0 <= i < |records| && records[i].time == t
    ensures forall t :: t in Build(records, all, normalize) ==> WellFormed(Build(records, all, normalize)[t])
    ensures forall t, e :: t in Build(records, all, normalize) ==>
      (e in Build(records, all, normalize)[t].weight <==>
        exists i :: 0 <= i < |records| && records[i].time == t && e == EdgeOf(records[i].node1, records[i].node2))
  {
    BuildTimes(records, all, normalize);
    BuildWellFormed(records, all, normalize);
    forall t, e | t in Build(records, all, normalize)
      ensures e in Build(records, all, normalize)[t].weight <==>
        exists i :: 0 <= i < |records| && records[i].time == t && e == EdgeOf(records[i].node1, records[i].node2)
    {
      BuildEdge(records, all, normalize, t, e);
    }
  }

  lemma {:induction false} BuildTimes(records: seq<Record>, all: seq<Record>, normalize: bool)
    requires normalize ==> TotalsNonZero(records, all)
    ensures forall t :: t in Build(records, all, normalize) <==> exists i :: 0 <= i < |records| && records[i].time == t
  {
    if records != [] {
      var init, r := records[..|records| - 1], records[|records| - 1];
      if normalize { TotalsNonZeroInit(records, all); }
      BuildTimes(init, all, normalize);
      forall t ensures t in Build(records, all, normalize) <==> exists i :: 0 <= i < |records| && records[i].time == t {
        if t in Build(init, all, normalize) {
          var i :| 0 <= i < |init| && init[i].time == t;
          assert records[i] == init[i];
        }
        if exists i :: 0 <= i < |records| && records[i].time == t {
          var i :| 0 <= i < |records| && records[i].time == t;
          if i < |init| { assert init[i] == records[i]; }
        }
      }
    }
  }

  lemma {:induction false} BuildWellFormed(records: seq<Record>, all: seq<Record>, normalize: bool)
    requires normalize ==> TotalsNonZero(records, all)
    ensures forall t :: t in Build(records, all, normalize) ==> WellFormed(Build(records, all, normalize)[t])
  {
    if records != [] {
      var init := records[..|records| - 1];
      if normalize { TotalsNonZeroInit(records, all); }
      BuildWellFormed(init, all, normalize);
      var net, r := Build(init, all, normalize), records[|records| - 1];
      var g := if r.time in net then net[r.time] else EmptyGraph;
      AddEdgeWellFormed(g, r.node1, r.node2, RowWeight(r, all, normalize));
    }
  }

  /** Every node of every graph of `net` has an edge (degree above 0). */
  predicate NoIsolated(net: Network) {
    forall t, n :: t in net && n in net[t].nodes ==> HasContact(net[t], n)
  }

  /** `add_edge` is the only way a node enters a graph of the network, so
      every node has an edge. */
  lemma {:induction false} BuildNoIsolated(records: seq<Record>, all: seq<Record>, normalize: bool)
    requires normalize ==> TotalsNonZero(records, all)
    ensures NoIsolated(Build(records, all, normalize))
  {
    if records != [] {
      var init := records[..|records| - 1];
      if normalize { TotalsNonZeroInit(records, all); }
      BuildNoIsolated(init, all, normalize);
      var net, r := Build(init, all, normalize), records[|records| - 1];
      var g := if r.time in net then net[r.time] else EmptyGraph;
      var g' := AddEdge(g, r.node1, r.node2, RowWeight(r, all, normalize));
      forall n | n in g'.nodes ensures HasContact(g', n) {
        var e := EdgeOf(r.node1, r.node2);
        if n == r.node1 || n == r.node2 {
          assert e in g'.weight && (e.lo == n || e.hi == n);
        } else {
          assert HasContact(g, n);
          var f :| f in g.weight && (f.lo == n || f.hi == n);
          assert f in g'.weight;
        }
      }
    }
  }

  /** The network `create_dynamic_network` returns has no isolated node. */
  lemma DynamicNetworkNoIsolated(records: seq<Record>, normalize: bool)
    requires DynamicNetwork(records, normalize).Ok?
    ensures NoIsolated(DynamicNetwork(records, normalize).value)
  {
    BuildNoIsolated(records, records, normalize);
  }

  lemma TotalsNonZeroInit(records: seq<Record>, all: seq<Record>)
    requires records != [] && TotalsNonZero(records, all)
    ensures TotalsNonZero(records[..|records| - 1], all)
  {
    var init := records[..|records| - 1];
    forall j | 0 <= j < |init| ensures TotalAt(all, init[j].time) != 0.0 {
      assert init[j] == records[j];
    }
  }

  /** An edge is in a timestep's graph exactly when some row joins its ends at that timestep. */
  lemma {:induction false} BuildEdge(records: seq<Record>, all: seq<Record>, normalize: bool, t: int, e: Edge)
    requires normalize ==> TotalsNonZero(records, all)
    ensures (t in Build(records, all, normalize) && e in Build(records, all, normalize)[t].weight) <==>
      exists i :: 0 <= i < |records| && records[i].time == t && e == EdgeOf(records[i].node1, records[i].node2)
  {
    if records != [] {
      var init, r := records[..|records| - 1], records[|records| - 1];
      if normalize { TotalsNonZeroInit(records, all); }
      BuildEdge(init, all, normalize, t, e);
      var net := Build(init, all, normalize);
      var g := if r.time in net then net[r.time] else EmptyGraph;
      if t == r.time && e == EdgeOf(r.node1, r.node2) {
        assert records[|init|] == r;
      } else if t in net && e in net[t].weight {
        var i :| 0 <= i < |init| && init[i].time == t && e == EdgeOf(init[i].node1, init[i].node2);
        assert records[i] == init[i];
      } else {
        assert !(t in Build(records, all, normalize) && e in Build(records, all, normalize)[t].weight);
        forall i | 0 <= i < |records| && records[i].time == t
          ensures e != EdgeOf(records[i].node1, records[i].node2)
        {
          if i < |init| { assert init[i] == records[i]; }
        }
      }
    }
  }

  /** The weight of an edge is the one written for the last row with that
      node pair at that timestep (`add_edge` on an existing edge overwrites). */
  lemma {:induction false} BuildLastWins(records: seq<Record>, all: seq<Record>, normalize: bool, i: int)
    requires normalize ==> TotalsNonZero(records, all)
    requires 0 <= i < |records|
    requires forall j :: i < j < |records| && records[j].time == records[i].time ==>
               EdgeOf(records[j].node1, records[j].node2) != EdgeOf(records[i].node1, records[i].node2)
    ensures records[i].time in Build(records, all, normalize)
    ensures EdgeOf(records[i].node1, records[i].node2) in Build(records, all, normalize)[records[i].time].weight
    ensures Build(records, all, normalize)[records[i].time].weight[EdgeOf(records[i].node1, records[i].node2)]
              == RowWeight(records[i], all, normalize)
  {
    var init := records[..|records| - 1];
    if i < |records| - 1 {
      assert init[i] == records[i];
      BuildLastWins(init, all, normalize, i);
    }
  }

  /** With normalization and non-negative weights, every written weight is a
      share of its timestep's total: between 0 and 1. */
  lemma RowWeightShare(all: seq<Record>, i: int)
    requires 0 <= i < |all| && TotalAt(all, all[i].time) != 0.0
    requires forall j :: 0 <= j < |all| ==> all[j].weight >= 0.0
    ensures 0.0 <= RowWeight(all[i], all, true) <= 1.0
  {
    var t := all[i].time;
    TotalAtLeast(all, i);
    var w, tot := all[i].weight, TotalAt(all, t);
    DivUnit(w, tot);
  }

  /** One row's weight is at most its timestep's total when no weight is negative. */
  lemma {:induction false} TotalAtLeast(all: seq<Record>, i: int)
    requires 0 <= i < |all|
    requires forall j :: 0 <= j < |all| ==> all[j].weight >= 0.0
    ensures all[i].weight <= TotalAt(all, all[i].time)
  {
    var init := all[..|all| - 1];
    TotalNonNegative(init, all[i].time);
    if i < |all| - 1 {
      assert init[i] == all[i];
      TotalAtLeast(init, i);
    }
  }

  lemma {:induction false} TotalNonNegative(all: seq<Record>, t: int)
    requires forall j :: 0 <= j < |all| ==> all[j].weight >= 0.0
    ensures TotalAt(all, t) >= 0.0
  {
    if all != [] { TotalNonNegative(all[..|all| - 1], t); }
  }

  /** The weights written for the rows at one timestep, in row order. */
  function SharesAt(records: seq<Record>, all: seq<Record>, t: int): seq<real>
    requires TotalAt(all, t) != 0.0
  {
    if records == [] then []
    else
      var r := records[|records| - 1];
      SharesAt(records[..|records| - 1], all, t) + (if r.time == t then [r.weight / TotalAt(all, t)] else [])
  }

  /** The normalized weights of a timestep's rows are its weights divided by
      their sum, so they add up to 1. */
  lemma NormalizedSumOne(records: seq<Record>, t: int)
    requires TotalAt(records, t) != 0.0
    ensures SumReals(SharesAt(records, records, t)) == 1.0
  {
    SharesSum(records, records, t);
  }

  lemma {:induction false} SharesSum(records: seq<Record>, all: seq<Record>, t: int)
    requires TotalAt(all, t) != 0.0
    ensures SumReals(SharesAt(records, all, t)) == TotalAt(records, t) / TotalAt(all, t)
  {
    if records != [] {
      var init, r := records[..|records| - 1], records[|records| - 1];
      var d := TotalAt(all, t);
      SharesSum(init, all, t);
      var tail := if r.time == t then [r.weight / d] else [];
      SumRealsAppend(SharesAt(init, all, t), tail);
      var w := if r.time == t then r.weight else 0.0;
      assert SumReals(tail) == w / d;
      DivAdd(TotalAt(init, t), w, d);
    }
  }

  /** The weight of edge `e` in `g`; 0 for an edge `g` lacks. */
  function EdgeWeights(g: Graph): Edge -> real {
    e => if e in g.weight then g.weight[e] else 0.0
  }

  /** `es` lists every edge of `g` exactly once. */
  predicate ListsEdges(es: seq<Edge>, g: Graph) {
    && (forall i, j :: 0 <= i < j < |es| ==> es[i] != es[j])
    && (forall e :: e in es ==> e in g.weight)
    && (forall e :: e in g.weight ==> e in es)
  }

  /** The edges the rows at timestep `t` join, in row order. */
  function RowEdgesAt(records: seq<Record>, t: int): seq<Edge> {
    if records == [] then []
    else
      var r := records[|records| - 1];
      RowEdgesAt(records[..|records| - 1], t) + (if r.time == t then [EdgeOf(r.node1, r.node2)] else [])
  }

  /** No two rows at timestep `t` join the same pair of nodes, in either order. */
  predicate DistinctPairsAt(records: seq<Record>, t: int) {
    forall i, j :: 0 <= i < j < |records| && records[i].time == t && records[j].time == t ==>
      EdgeOf(records[i].node1, records[i].node2) != EdgeOf(records[j].node1, records[j].node2)
  }

  /** `es` lists the edges of `g` once each, and edge `es[i]` weighs `ws[i]`. */
  predicate Carries(es: seq<Edge>, ws: seq<real>, g: Graph) {
    && ListsEdges(es, g)
    && |es| == |ws|
    && forall i :: 0 <= i < |es| ==> es[i] in g.weight && g.weight[es[i]] == ws[i]
  }

  /** Adding an edge not yet listed extends the listing by that edge and its weight. */
  lemma AddFreshEdge(es: seq<Edge>, ws: seq<real>, g: Graph, u: Node, v: Node, w: real)
    requires Carries(es, ws, g) && EdgeOf(u, v) !in es
    ensures Carries(es + [EdgeOf(u, v)], ws + [w], AddEdge(g, u, v, w))
  {
    var e, es', ws', g' := EdgeOf(u, v), es + [EdgeOf(u, v)], ws + [w], AddEdge(g, u, v, w);
    forall i | 0 <= i < |es'| ensures es'[i] in g'.weight && g'.weight[es'[i]] == ws'[i] {
      if i < |es| {
        assert es'[i] == es[i] && es[i] != e;
      }
    }
  }

  /** With normalization, when the rows at `t` join distinct pairs, the graph
      at `t` has one edge per row, in row order, weighted by that row's share;
      with no row at `t` there is neither a graph nor an edge. */
  lemma {:induction false} NormalizedEdgesAt(records: seq<Record>, all: seq<Record>, t: int)
    requires TotalsNonZero(records, all) && TotalAt(all, t) != 0.0
    requires DistinctPairsAt(records, t)
    ensures var net, es := Build(records, all, true), RowEdgesAt(records, t);
      && (t in net ==> Carries(es, SharesAt(records, all, t), net[t]))
      && (t !in net ==> es == [] && SharesAt(records, all, t) == [])
  {
    if records != [] {
      var init, r := records[..|records| - 1], records[|records| - 1];
      TotalsNonZeroInit(records, all);
      assert DistinctPairsAt(init, t) by {
        forall i, j | 0 <= i < j < |init| && init[i].time == t && init[j].time == t
          ensures EdgeOf(init[i].node1, init[i].node2) != EdgeOf(init[j].node1, init[j].node2)
        {
          assert init[i] == records[i] && init[j] == records[j];
        }
      }
      NormalizedEdgesAt(init, all, t);
      var net0, es0, ws0 := Build(init, all, true), RowEdgesAt(init, t), SharesAt(init, all, t);
      var net, es, ws := Build(records, all, true), RowEdgesAt(records, t), SharesAt(records, all, t);
      if r.time == t {
        var e := EdgeOf(r.node1, r.node2);
        assert es == es0 + [e];
        assert ws == ws0 + [r.weight / TotalAt(all, t)];
        forall k | 0 <= k < |init| && init[k].time == t ensures EdgeOf(init[k].node1, init[k].node2) != e {
          assert init[k] == records[k];
        }
        RowEdgesFrom(init, t);
        var g0 := if t in net0 then net0[t] else EmptyGraph;
        assert Carries(es0, ws0, g0);
        assert net[t] == AddEdge(g0, r.node1, r.node2, RowWeight(r, all, true));
        AddFreshEdge(es0, ws0, g0, r.node1, r.node2, r.weight / TotalAt(all, t));
      } else {
        assert es == es0 + [];
        assert ws == ws0 + [];
        if t in net0 { assert t in net && net[t] == net0[t]; } else { assert t !in net; }
      }
    }
  }

  /** Every edge of `RowEdgesAt` comes from some row at `t`. */
  lemma {:induction false} RowEdgesFrom(records: seq<Record>, t: int)
    ensures forall e :: e in RowEdgesAt(records, t) ==>
      exists k :: 0 <= k < |records| && records[k].time == t && EdgeOf(records[k].node1, records[k].node2) == e
  {
    if records != [] {
      var init := records[..|records| - 1];
      RowEdgesFrom(init, t);
      forall k | 0 <= k < |init| ensures init[k] == records[k] { }
    }
  }

  /** With normalization, the edge weights of a timestep's graph sum to 1,
      in whatever order they are listed, provided no two rows of that
      timestep join the same pair of nodes. */
  lemma NormalizedGraphSumOne(records: seq<Record>, t: int, es: seq<Edge>)
    requires DynamicNetwork(records, true).Ok? && t in DynamicNetwork(records, true).value
    requires DistinctPairsAt(records, t)
    requires ListsEdges(es, DynamicNetwork(records, true).value[t])
    ensures SumOf(es, EdgeWeights(DynamicNetwork(records, true).value[t])) == 1.0
  {
    var net := Build(records, records, true);
    BuildTimes(records, records, true);
    var k :| 0 <= k < |records| && records[k].time == t;
    assert TotalAt(records, t) != 0.0;
    NormalizedEdgesAt(records, records, t);
    var rows := RowEdgesAt(records, t);
    var f := EdgeWeights(net[t]);
    SumOfValues(rows, f, SharesAt(records, records, t));
    NormalizedSumOne(records, t);
    DistinctListMultiset(rows, net[t].weight.Keys);
    DistinctListMultiset(es, net[t].weight.Keys);
    SumOfPermutation(es, rows, f);
  }

  /** Two rows joining one pair at one timestep: `total_weight` counts both
      weights but the graph keeps only the last, so the single edge weighs
      0.5 rather than 1. */
  lemma RepeatedPairHalves(records: seq<Record>)
    requires records == [Record("a", "b", 1.0, 0), Record("b", "a", 1.0, 0)]
    ensures DynamicNetwork(records, true).Ok?
    ensures DynamicNetwork(records, true).value[0].weight == map[EdgeOf("a", "b") := 0.5]
  {
    EdgeOfSymmetric("a", "b");
    var none: seq<Record> := [];
    assert records[..1][..0] == none && records[..|records| - 1] == records[..1];
    assert TotalAt(records[..1], 0) == 1.0;
    assert TotalAt(records, 0) == 2.0;
    assert Integral(1.0);
    assert TotalsNonZero(records, records);
    assert !exists i :: 0 <= i < |records| && !Integral(records[i].weight);
    var g1 := AddEdge(EmptyGraph, "a", "b", 0.5);
    assert Build(records[..1], records, true) == map[0 := g1];
    assert Build(records, records, true) == map[0 := AddEdge(g1, "b", "a", 0.5)];
  }

  lemma DivAdd(a: real, b: real, d: real)
    requires d != 0.0
    ensures a / d + b / d == (a + b) / d
  {
  }

  // ----------------------------------------------------------- Jaccard

  /** `w11 / (1. * total)`. */
  function Ratio(a: real, d: real): real
    requires d > 0.0
  {
    a / d
  }

  lemma RatioFacts(a: real, d: real)
    requires 0.0 < d && 0.0 <= a <= d
    ensures 0.0 <= Ratio(a, d) <= 1.0
    ensures Ratio(a, d) == 1.0 <==> a == d
    ensures Ratio(a, d) == 0.0 <==> a == 0.0
  {
  }

  /** `calculate_jaccard`: shared edges over the edges of either graph;
      `None` where the division by zero raises (both graphs edgeless). */
  function Jaccard(g1: Graph, g2: Graph): Option<real> {
    var e1, e2 := g1.weight.Keys, g2.weight.Keys;
    var w11, w10, w01 := |e1 * e2|, |e1 - e2|, |e2 - e1|;
    if w11 + w10 + w01 == 0 then None else Some(Ratio(w11 as real, (w11 + w10 + w01) as real))
  }

  /** What the three counts of `calculate_jaccard` say about two sets. */
  lemma Counts<T>(e1: set<T>, e2: set<T>)
    ensures |e1 * e2| == |e2 * e1|
    ensures |e1 * e2| + |e1 - e2| + |e2 - e1| == 0 <==> e1 == {} && e2 == {}
    ensures |e1 - e2| + |e2 - e1| == 0 <==> e1 == e2
    ensures |e1 * e2| == 0 <==> e1 !! e2
  {
    assert e1 * e2 == e2 * e1;
    if e1 != {} {
      var e :| e in e1;
      if e in e2 { assert e in e1 * e2; } else { assert e in e1 - e2; }
    } else if e2 != {} {
      var e :| e in e2;
      assert e in e2 - e1;
    }
    if |e1 - e2| + |e2 - e1| == 0 {
      forall e | e in e1 ensures e in e2 { assert e !in e1 - e2; }
      forall e | e in e2 ensures e in e1 { assert e !in e2 - e1; }
    }
    if e1 == e2 {
      assert e1 - e2 == {};
    }
    if e1 * e2 != {} {
      var e :| e in e1 * e2;
    } else {
      forall e | e in e1 ensures e !in e2 { assert e !in e1 * e2; }
    }
  }

  /** The ratio is undefined exactly when neither graph has an edge. */
  lemma JaccardDefined(g1: Graph, g2: Graph)
    ensures Jaccard(g1, g2).None? <==> g1.weight.Keys == {} && g2.weight.Keys == {}
  {
    Counts(g1.weight.Keys, g2.weight.Keys);
  }

  /** The ratio lies in [0, 1] and does not depend on the order of the graphs. */
  lemma JaccardBoundsSymmetric(g1: Graph, g2: Graph)
    ensures Jaccard(g1, g2).Some? ==> 0.0 <= Jaccard(g1, g2).value <= 1.0
    ensures Jaccard(g1, g2) == Jaccard(g2, g1)
  {
    var e1, e2 := g1.weight.Keys, g2.weight.Keys;
    Counts(e1, e2);
    var w11, w10, w01 := |e1 * e2|, |e1 - e2|, |e2 - e1|;
    if w11 + w10 + w01 > 0 {
      RatioFacts(w11 as real, (w11 + w10 + w01) as real);
    }
  }

  /** The ratio is 1 exactly for identical non-empty edge sets. */
  lemma JaccardOne(g1: Graph, g2: Graph)
    ensures Jaccard(g1, g2) == Some(1.0) <==> g1.weight.Keys == g2.weight.Keys != {}
  {
    var e1, e2 := g1.weight.Keys, g2.weight.Keys;
    Counts(e1, e2);
    var w11, w10, w01 := |e1 * e2|, |e1 - e2|, |e2 - e1|;
    if w11 + w10 + w01 > 0 {
      RatioFacts(w11 as real, (w11 + w10 + w01) as real);
    }
  }

  /** The ratio is 0 exactly when the graphs have edges but share none. */
  lemma JaccardZero(g1: Graph, g2: Graph)
    ensures Jaccard(g1, g2) == Some(0.0) <==>
      g1.weight.Keys !! g2.weight.Keys && (g1.weight.Keys != {} || g2.weight.Keys != {})
  {
    var e1, e2 := g1.weight.Keys, g2.weight.Keys;
    Counts(e1, e2);
    var w11, w10, w01 := |e1 * e2|, |e1 - e2|, |e2 - e1|;
    if w11 + w10 + w01 > 0 {
      RatioFacts(w11 as real, (w11 + w10 + w01) as real);
    }
  }

  // ------------------------------------------ calculate_mean_temporal_jaccard

  /** The ratios over `times`, failing like the loop does: a timestep missing
      from a network is a `KeyError`, two edgeless graphs a division by zero. */
  function RatiosOver(g1: Network, g2: Network, times: seq<int>): Result<seq<real>> {
    if times == [] then Ok([])
    else
      var rest := RatiosOver(g1, g2, times[..|times| - 1]);
      var t := times[|times| - 1];
      if rest.Err? then rest
      else if t !in g1 || t !in g2 then Err(KeyError)
      else match Jaccard(g1[t], g2[t])
        case None => Err(ZeroDivisionError)
        case Some(x) => Ok(rest.value + [x])
  }

  /** The timesteps of `g1` in the order the loop visits them. */
  function Times(g1: Network): seq<int> {
    IntLeTotal();
    SortedSet(g1.Keys, IntLe)
  }

  /** `np.mean` of the per-timestep ratios; the mean of no ratios is NaN. */
  function MeanJaccard(g1: Network, g2: Network): Result<real> {
    match RatiosOver(g1, g2, Times(g1))
    case Err(f) => Err(f)
    case Ok(rs) => if |rs| == 0 then Err(NotANumber) else Ok(SumReals(rs) / |rs| as real)
  }

  /** `calculate_mean_temporal_jaccard`: one ratio per timestep of `g1`, then
      their mean. */
  method MeanTemporalJaccard(g1: Network, g2: Network) returns (r: Result<real>)
    ensures r == MeanJaccard(g1, g2)
  {
    var ratios := CollectRatios(g1, g2, Times(g1));
    if ratios.Err? {
      return Err(ratios.failure);
    }
    var jlist := ratios.value;
    if |jlist| == 0 {
      return Err(NotANumber);
    }
    r := Ok(SumReals(jlist) / |jlist| as real);
  }

  /** The loop of `calculate_mean_temporal_jaccard` over `times`. */
  method CollectRatios(g1: Network, g2: Network, times: seq<int>) returns (r: Result<seq<real>>)
    ensures r == RatiosOver(g1, g2, times)
  {
    var jlist: seq<real> := [];
    for i := 0 to |times|
      invariant RatiosOver(g1, g2, times[..i]) == Ok(jlist)
    {
      var time1 := times[i];
      assert times[..i + 1][..i] == times[..i];
      if time1 !in g1 || time1 !in g2 {
        RatiosStayFailed(g1, g2, times, i + 1);
        return Err(KeyError);
      }
      var ratio := Jaccard(g1[time1], g2[time1]);
      if ratio.None? {
        RatiosStayFailed(g1, g2, times, i + 1);
        return Err(ZeroDivisionError);
      }
      jlist := jlist + [ratio.value];
    }
    assert times[..|times|] == times;
    r := Ok(jlist);
  }

  /** Once a prefix fails, every longer prefix fails the same way. */
  lemma {:induction false} RatiosStayFailed(g1: Network, g2: Network, times: seq<int>, n: int)
    requires 0 <= n <= |times| && RatiosOver(g1, g2, times[..n]).Err?
    ensures RatiosOver(g1, g2, times) == RatiosOver(g1, g2, times[..n])
    decreases |times| - n
  {
    if n < |times| {
      assert times[..n + 1][..n] == times[..n];
      RatiosStayFailed(g1, g2, times, n + 1);
    } else {
      assert times[..n] == times;
    }
  }

  /** The loop collects one ratio per timestep. */
  lemma {:induction false} RatiosLength(g1: Network, g2: Network, times: seq<int>)
    requires RatiosOver(g1, g2, times).Ok?
    ensures |RatiosOver(g1, g2, times).value| == |times|
  {
    if times != [] {
      RatiosLength(g1, g2, times[..|times| - 1]);
    }
  }

  /** The `i`-th ratio the loop collects is the Jaccard ratio of the `i`-th
      timestep's graphs. */
  lemma {:induction false} RatioAt(g1: Network, g2: Network, times: seq<int>, i: int)
    requires RatiosOver(g1, g2, times).Ok? && 0 <= i < |times|
    ensures |RatiosOver(g1, g2, times).value| == |times|
    ensures times[i] in g1 && times[i] in g2
    ensures Jaccard(g1[times[i]], g2[times[i]]) == Some(RatiosOver(g1, g2, times).value[i])
  {
    var init := times[..|times| - 1];
    RatiosLength(g1, g2, times);
    RatiosLength(g1, g2, init);
    if i < |init| {
      RatioAt(g1, g2, init, i);
      assert init[i] == times[i];
    }
  }

  /** The mean temporal Jaccard lies in [0, 1]. */
  lemma MeanJaccardBounds(g1: Network, g2: Network)
    requires MeanJaccard(g1, g2).Ok?
    ensures 0.0 <= MeanJaccard(g1, g2).value <= 1.0
  {
    var times := Times(g1);
    RatiosLength(g1, g2, times);
    var rs := RatiosOver(g1, g2, times).value;
    forall i | 0 <= i < |rs| ensures 0.0 <= rs[i] <= 1.0 {
      RatioAt(g1, g2, times, i);
      JaccardBoundsSymmetric(g1[times[i]], g2[times[i]]);
    }
    SumRealsNonNegative(rs);
    SumRealsAtMostLength(rs);
    DivUnit(SumReals(rs), |rs| as real);
  }

  /** When no timestep of `g1` shares an edge with `g2`, the mean is 0. */
  lemma MeanJaccardDisjoint(g1: Network, g2: Network)
    requires MeanJaccard(g1, g2).Ok?
    requires forall t :: t in g1 && t in g2 ==> g1[t].weight.Keys !! g2[t].weight.Keys
    ensures MeanJaccard(g1, g2).value == 0.0
  {
    var times := Times(g1);
    RatiosLength(g1, g2, times);
    var rs := RatiosOver(g1, g2, times).value;
    forall i | 0 <= i < |rs| ensures rs[i] == 0.0 {
      RatioAt(g1, g2, times, i);
      JaccardDefined(g1[times[i]], g2[times[i]]);
      JaccardZero(g1[times[i]], g2[times[i]]);
    }
    SumZero(rs);
    var n := |rs| as real;
    assert MeanJaccard(g1, g2).value == 0.0 / n;
  }

  /** One timestep whose graphs are both edgeless makes the loop raise. */
  lemma {:induction false} RatiosUndefined(g1: Network, g2: Network, times: seq<int>, t: int)
    requires t in times && t in g1 && t in g2 && Jaccard(g1[t], g2[t]).None?
    ensures RatiosOver(g1, g2, times).Err?
  {
    var init := times[..|times| - 1];
    LastSplit(times, t);
    if t in init {
      RatiosUndefined(g1, g2, init, t);
    }
  }

  /** The loop raises a `KeyError` or a division by zero, never NaN. */
  lemma {:induction false} RatiosFailure(g1: Network, g2: Network, times: seq<int>)
    requires RatiosOver(g1, g2, times).Err?
    ensures RatiosOver(g1, g2, times).failure != NotANumber
  {
    var init := times[..|times| - 1];
    if RatiosOver(g1, g2, init).Err? {
      RatiosFailure(g1, g2, init);
    }
  }

  /** The mean raises (not NaN) when some timestep of both networks has no
      edge in either, and it is NaN exactly when `g1` has no timestep. */
  lemma MeanJaccardUndefined(g1: Network, g2: Network)
    ensures (exists t :: t in g1 && t in g2 && Jaccard(g1[t], g2[t]).None?) ==>
      MeanJaccard(g1, g2).Err? && MeanJaccard(g1, g2).failure != NotANumber
    ensures MeanJaccard(g1, g2) == Err(NotANumber) <==> |g1| == 0
  {
    var times := Times(g1);
    if t :| t in g1 && t in g2 && Jaccard(g1[t], g2[t]).None? {
      RatiosUndefined(g1, g2, times, t);
      RatiosFailure(g1, g2, times);
    }
    if RatiosOver(g1, g2, times).Ok? {
      RatiosLength(g1, g2, times);
    } else {
      RatiosFailure(g1, g2, times);
    }
    assert |times| == |g1.Keys| == |g1|;
  }

  lemma {:induction false} SumZero(s: seq<real>)
    requires forall i :: 0 <= i < |s| ==> s[i] == 0.0
    ensures SumReals(s) == 0.0
  {
    if s != [] { SumZero(s[1..]); }
  }
}
