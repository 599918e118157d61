/** The null networks the empirical network is compared against:
    `randomize_network` moves every edge of each timestep onto a node pair
    that is no edge of the original, `permute_network` moves only a share of
    them, and `delete_edge_connections` drops the same number of edges from
    every timestep. The random choices are supplied: a `shuffle`d list is any
    reordering of the list, and the proposals of the rejection loops
    (`np.random.choice(nodes, 2, replace=False)`) are a finite sequence of
    node pairs; running out of proposals stands for a loop that would go on
    drawing. */
module NullNetworks {
  import opened Utils
  import opened TemporalNetwork

  /** A null model is built, needs more proposals than were supplied, or
      raises. */
  datatype Drawn<T> = Done(value: T) | Exhausted | Raised(failure: Failure)

  /** Every proposal is a pair of two different nodes of the graph, as
      `np.random.choice(nodes, 2, replace=False)` draws them. */
  predicate Proposals(nodes: set<Node>, draws: seq<(Node, Node)>) {
    forall i :: 0 <= i < |draws| ==> draws[i].0 in nodes && draws[i].1 in nodes && draws[i].0 != draws[i].1
  }

  // ------------------------------------------------------------ weight bags

  /** The multiset of the weights that `w` gives the edges `keys`. */
  ghost function BagOver(w: map<Edge, real>, keys: set<Edge>): multiset<real>
    requires keys <= w.Keys
    decreases |keys|
  {
    if keys == {} then multiset{}
    else
      var e :| e in keys;
      BagOver(w, keys - {e}) + multiset{w[e]}
  }

  /** The weights of all edges, each with its multiplicity. */
  ghost function WeightBag(w: map<Edge, real>): multiset<real> {
    BagOver(w, w.Keys)
  }

  /** Any edge can be taken out of the bag first. */
  lemma {:induction false} BagRemove(w: map<Edge, real>, keys: set<Edge>, k: Edge)
    requires keys <= w.Keys && k in keys
    ensures BagOver(w, keys) == BagOver(w, keys - {k}) + multiset{w[k]}
    decreases |keys|
  {
    var e :| e in keys && BagOver(w, keys) == BagOver(w, keys - {e}) + multiset{w[e]};
    if e != k {
      BagRemove(w, keys - {e}, k);
      BagRemove(w, keys - {k}, e);
      assert keys - {e} - {k} == keys - {k} - {e};
    }
  }

  /** The bag depends only on the weights of the edges it collects. */
  lemma {:induction false} BagAgree(w1: map<Edge, real>, w2: map<Edge, real>, keys: set<Edge>)
    requires keys <= w1.Keys && keys <= w2.Keys
    requires forall e :: e in keys ==> w1[e] == w2[e]
    ensures BagOver(w1, keys) == BagOver(w2, keys)
    decreases |keys|
  {
    if keys != {} {
      var e :| e in keys;
      BagRemove(w1, keys, e);
      BagRemove(w2, keys, e);
      BagAgree(w1, w2, keys - {e});
    }
  }

  /** A new edge adds exactly its weight to the bag. */
  lemma BagAdd(w: map<Edge, real>, e: Edge, x: real)
    requires e !in w
    ensures WeightBag(w[e := x]) == WeightBag(w) + multiset{x}
  {
    var w' := w[e := x];
    BagRemove(w', w'.Keys, e);
    assert w'.Keys - {e} == w.Keys;
    BagAgree(w', w, w.Keys);
  }

  /** The bag holds one weight per edge. */
  lemma {:induction false} BagSize(w: map<Edge, real>, keys: set<Edge>)
    requires keys <= w.Keys
    ensures |BagOver(w, keys)| == |keys|
    decreases |keys|
  {
    if keys != {} {
      var e :| e in keys;
      BagRemove(w, keys, e);
      BagSize(w, keys - {e});
    }
  }

  /** Collecting some edges and then the others collects them all. */
  lemma {:induction false} BagSplit(w: map<Edge, real>, keys: set<Edge>, part: set<Edge>)
    requires part <= keys <= w.Keys
    ensures BagOver(w, keys) == BagOver(w, part) + BagOver(w, keys - part)
    decreases |part|
  {
    if part == {} {
      assert keys - part == keys;
    } else {
      var e :| e in part;
      var rest := keys - part;
      assert (keys - {e}) - (part - {e}) == rest;
      BagRemove(w, keys, e);
      BagRemove(w, part, e);
      BagSplit(w, keys - {e}, part - {e});
      SplitStep(BagOver(w, keys), BagOver(w, keys - {e}), BagOver(w, part - {e}), BagOver(w, rest),
                BagOver(w, part), w[e]);
    }
  }

  lemma SplitStep(total: multiset<real>, a: multiset<real>, b: multiset<real>, c: multiset<real>,
                  pb: multiset<real>, x: real)
    requires total == a + multiset{x} && a == b + c && pb == b + multiset{x}
    ensures total == pb + c
  {
  }

  // ------------------------------------------------------ the rewiring loop

  /** The rejection loop shared by `randomize_network` (lines 103-111) and
      `permute_network` (lines 79-86): `need` more edges go, one proposal at a
      time, on node pairs that are neither an edge of the graph built so far
      nor in `avoid`; each accepted pair takes the weight popped from the end
      of `wts`. `np.random.choice` raises on fewer than two nodes, and
      popping an empty list raises. */
  function Rewire(g: Graph, avoid: set<Edge>, wts: seq<real>, need: int, draws: seq<(Node, Node)>): Drawn<Graph>
    decreases |draws|
  {
    if need <= 0 then Done(g)
    else if |g.nodes| < 2 then Raised(ValueError)
    else if draws == [] then Exhausted
    else
      var e := EdgeOf(draws[0].0, draws[0].1);
      if e in g.weight || e in avoid then Rewire(g, avoid, wts, need, draws[1..])
      else if wts == [] then Raised(IndexError)
      else Rewire(AddEdge(g, draws[0].0, draws[0].1, wts[|wts| - 1]), avoid, wts[..|wts| - 1], need - 1, draws[1..])
  }

  /** The loop written out: proposals are consumed in order, rejected ones
      too. */
  method RewireLoop(g0: Graph, avoid: set<Edge>, wts0: seq<real>, need0: int, draws: seq<(Node, Node)>)
    returns (r: Drawn<Graph>)
    ensures r == Rewire(g0, avoid, wts0, need0, draws)
  {
    var g, wts, need, i := g0, wts0, need0, 0;
    while need > 0
      invariant 0 <= i <= |draws|
      invariant Rewire(g, avoid, wts, need, draws[i..]) == Rewire(g0, avoid, wts0, need0, draws)
      decreases |draws| - i
    {
      if |g.nodes| < 2 {
        return Raised(ValueError);
      }
      if i == |draws| {
        return Exhausted;
      }
      var (u, v) := draws[i];
      assert draws[i..][0] == (u, v) && draws[i..][1..] == draws[i + 1..];
      var e := EdgeOf(u, v);
      if e !in g.weight && e !in avoid {
        if wts == [] {
          return Raised(IndexError);
        }
        g := AddEdge(g, u, v, wts[|wts| - 1]);
        wts := wts[..|wts| - 1];
        need := need - 1;
      }
      i := i + 1;
    }
    return Done(g);
  }

  /** A completed rewiring keeps the nodes and every edge already there with
      its weight, and none of the edges it adds is in `avoid`. */
  lemma {:induction false} RewireKeeps(g: Graph, avoid: set<Edge>, wts: seq<real>, need: int, draws: seq<(Node, Node)>)
    requires WellFormed(g) && Proposals(g.nodes, draws)
    requires Rewire(g, avoid, wts, need, draws).Done?
    ensures var r := Rewire(g, avoid, wts, need, draws).value;
      && r.nodes == g.nodes && WellFormed(r)
      && (forall e :: e in g.weight ==> e in r.weight && r.weight[e] == g.weight[e])
      && (forall e :: e in r.weight && e !in g.weight ==> e !in avoid)
    decreases |draws|
  {
    if need > 0 {
      var u, v := draws[0].0, draws[0].1;
      var e := EdgeOf(u, v);
      ProposalsTail(g.nodes, draws);
      if e in g.weight || e in avoid {
        RewireKeeps(g, avoid, wts, need, draws[1..]);
      } else {
        var x := wts[|wts| - 1];
        var g' := AddEdge(g, u, v, x);
        AddEdgeWellFormed(g, u, v, x);
        assert g'.nodes == g.nodes;
        RewireKeeps(g', avoid, wts[..|wts| - 1], need - 1, draws[1..]);
      }
    }
  }

  /** A completed rewiring adds exactly `need` edges, popping as many
      weights. */
  lemma {:induction false} RewireCount(g: Graph, avoid: set<Edge>, wts: seq<real>, need: int, draws: seq<(Node, Node)>, r: Graph)
    requires Proposals(g.nodes, draws)
    requires Rewire(g, avoid, wts, need, draws) == Done(r)
    ensures need <= 0 ==> r == g
    ensures need > 0 ==> |r.weight| == |g.weight| + need && need <= |wts|
    decreases |draws|
  {
    if need > 0 {
      var u, v := draws[0].0, draws[0].1;
      var e := EdgeOf(u, v);
      ProposalsTail(g.nodes, draws);
      if e in g.weight || e in avoid {
        RewireCount(g, avoid, wts, need, draws[1..], r);
      } else {
        var g' := AddEdge(g, u, v, wts[|wts| - 1]);
        AddNewEdge(g, u, v, wts[|wts| - 1]);
        RewireCount(g', avoid, wts[..|wts| - 1], need - 1, draws[1..], r);
      }
    }
  }

  /** A new edge between two nodes already in the graph adds one edge and
      no node. */
  lemma AddNewEdge(g: Graph, u: Node, v: Node, x: real)
    requires u in g.nodes && v in g.nodes && EdgeOf(u, v) !in g.weight
    ensures AddEdge(g, u, v, x).nodes == g.nodes
    ensures AddEdge(g, u, v, x).weight.Keys == g.weight.Keys + {EdgeOf(u, v)}
    ensures |AddEdge(g, u, v, x).weight| == |g.weight| + 1
  {
    assert AddEdge(g, u, v, x).weight.Keys == g.weight.Keys + {EdgeOf(u, v)};
  }

  /** The weights a completed rewiring adds are the last `need` of `wts`. */
  lemma {:induction false} RewireSpends(g: Graph, avoid: set<Edge>, wts: seq<real>, need: int, draws: seq<(Node, Node)>, r: Graph)
    requires Proposals(g.nodes, draws)
    requires Rewire(g, avoid, wts, need, draws) == Done(r)
    requires 0 < need <= |wts|
    ensures WeightBag(r.weight) == WeightBag(g.weight) + multiset(wts[|wts| - need..])
    decreases |draws|
  {
    var u, v := draws[0].0, draws[0].1;
    var e := EdgeOf(u, v);
    ProposalsTail(g.nodes, draws);
    if e in g.weight || e in avoid {
      RewireSpends(g, avoid, wts, need, draws[1..], r);
    } else {
      var x, rest, m := wts[|wts| - 1], wts[..|wts| - 1], need - 1;
      var g' := AddEdge(g, u, v, x);
      assert g'.nodes == g.nodes + {u, v} == g.nodes;
      assert Rewire(g', avoid, rest, m, draws[1..]) == Done(r);
      var spent: multiset<real> := multiset{};
      if m > 0 {
        RewireSpends(g', avoid, rest, m, draws[1..], r);
        spent := multiset(rest[|rest| - m..]);
        assert WeightBag(r.weight) == WeightBag(g'.weight) + spent;
      } else {
        RewireCount(g', avoid, rest, m, draws[1..], r);
        assert r == g';
        assert multiset(rest[|rest| - m..]) == spent;
      }
      BagAdd(g.weight, e, x);
      SuffixSplit(wts, rest, need);
      assert multiset(wts[|wts| - need..]) == spent + multiset{x};
      BagStep(WeightBag(r.weight), WeightBag(g.weight), WeightBag(g'.weight), spent,
              multiset(wts[|wts| - need..]), x);
    }
  }

  lemma BagStep(rb: multiset<real>, b: multiset<real>, b1: multiset<real>, spent: multiset<real>,
                full: multiset<real>, x: real)
    requires rb == b1 + spent && b1 == b + multiset{x} && full == spent + multiset{x}
    ensures rb == b + full
  {
  }

  lemma ProposalsTail(nodes: set<Node>, draws: seq<(Node, Node)>)
    requires Proposals(nodes, draws) && draws != []
    ensures Proposals(nodes, draws[1..])
  {
    forall i | 0 <= i < |draws| - 1 ensures draws[1..][i] == draws[i + 1] { }
  }

  /** The last `k` elements are the last `k - 1` of the front, then the last. */
  lemma SuffixSplit<T>(s: seq<T>, front: seq<T>, k: int)
    requires 0 < k <= |s| && front == s[..|s| - 1]
    ensures multiset(s[|s| - k..]) == multiset(front[|front| - (k - 1)..]) + multiset{s[|s| - 1]}
  {
    assert front[|front| - (k - 1)..] == s[|s| - k..|s| - 1];
    assert s[|s| - k..] == s[|s| - k..|s| - 1] + [s[|s| - 1]];
  }

  /** The rewiring raises only for want of nodes to draw from or of weights to
      pop. */
  lemma {:induction false} RewireFails(g: Graph, avoid: set<Edge>, wts: seq<real>, need: int, draws: seq<(Node, Node)>)
    requires Proposals(g.nodes, draws)
    requires Rewire(g, avoid, wts, need, draws).Raised?
    ensures var f := Rewire(g, avoid, wts, need, draws).failure;
      need > 0 && ((f == ValueError && |g.nodes| < 2) || (f == IndexError && |wts| < need))
    decreases |draws|
  {
    if need > 0 && |g.nodes| >= 2 && draws != [] {
      var u, v := draws[0].0, draws[0].1;
      var e := EdgeOf(u, v);
      ProposalsTail(g.nodes, draws);
      if e in g.weight || e in avoid {
        RewireFails(g, avoid, wts, need, draws[1..]);
      } else if wts != [] {
        var g' := AddEdge(g, u, v, wts[|wts| - 1]);
        assert g'.nodes == g.nodes;
        RewireFails(g', avoid, wts[..|wts| - 1], need - 1, draws[1..]);
      }
    }
  }

  // ------------------------------------------------- the supplied randomness

  /** What one timestep's null graph is drawn from: the order of its edges
      after `shuffle`, its weight list (shuffled in `randomize_network`, in
      the graph's own edge order in `permute_network`) and the proposals of
      the rejection loop. */
  datatype Draws = Draws(order: seq<Edge>, weights: seq<real>, proposals: seq<(Node, Node)>)

  /** `order` lists every edge of `w` exactly once. */
  predicate Lists(order: seq<Edge>, w: map<Edge, real>) {
    && (forall i :: 0 <= i < |order| ==> order[i] in w)
    && (forall e :: e in w ==> e in order)
    && (forall i, j :: 0 <= i < j < |order| ==> order[i] != order[j])
  }

  /** The draws are ones the source can make for graph `g`: a reordering of
      its edges, a reordering of its weights and proposals of node pairs. */
  ghost predicate Fair(g: Graph, d: Draws) {
    Lists(d.order, g.weight) && multiset(d.weights) == WeightBag(g.weight) && Proposals(g.nodes, d.proposals)
  }

  /** A fair draw has one edge and one weight per edge of the graph. */
  lemma FairLength(g: Graph, d: Draws)
    requires Fair(g, d)
    ensures |d.order| == |g.weight| && |d.weights| == |g.weight|
  {
    ListsLength(d.order, g.weight);
    BagSize(g.weight, g.weight.Keys);
    assert |multiset(d.weights)| == |d.weights|;
  }

  lemma ListsLength(order: seq<Edge>, w: map<Edge, real>)
    requires Lists(order, w)
    ensures |order| == |w|
  {
    DistinctListMultiset(order, w.Keys);
    assert |multiset(order)| == |order|;
  }

  // -------------------------------------------------------------- timesteps

  /** The loop `for time in G1.keys()`, taken in ascending order: each
      timestep's graph in turn, stopping at the first that cannot be built. */
  function Timesteps(times: seq<int>, step: int --> Drawn<Graph>): Drawn<Network>
    requires forall t :: t in times ==> step.requires(t)
  {
    if times == [] then Done(map[])
    else
      var rest := Timesteps(times[..|times| - 1], step);
      var t := times[|times| - 1];
      if !rest.Done? then rest
      else match step(t)
        case Done(g) => Done(rest.value[t := g])
        case Exhausted => Exhausted
        case Raised(f) => Raised(f)
  }

  /** A completed loop has built each timestep it visited and no other. */
  lemma {:induction false} TimestepsAt(times: seq<int>, step: int --> Drawn<Graph>, t: int)
    requires forall t :: t in times ==> step.requires(t)
    requires Timesteps(times, step).Done?
    ensures t in Timesteps(times, step).value <==> t in times
    ensures t in times ==> step(t) == Done(Timesteps(times, step).value[t])
  {
    if times != [] {
      var init := times[..|times| - 1];
      LastSplit(times, t);
      TimestepsAt(init, step, t);
    }
  }

  /** One more pass of the loop over a completed prefix. */
  lemma TimestepsNext(times: seq<int>, step: int --> Drawn<Graph>, i: int)
    requires forall t :: t in times ==> step.requires(t)
    requires 0 <= i < |times| && Timesteps(times[..i], step).Done?
    ensures Timesteps(times[..i + 1], step) == match step(times[i])
      case Done(g) => Done(Timesteps(times[..i], step).value[times[i] := g])
      case Exhausted => Exhausted
      case Raised(f) => Raised(f)
  {
    assert times[..i + 1][..i] == times[..i] && times[..i + 1][i] == times[i];
  }

  /** Once a prefix of the loop stops, the whole loop stops there. */
  lemma {:induction false} TimestepsStop(times: seq<int>, step: int --> Drawn<Graph>, n: int)
    requires forall t :: t in times ==> step.requires(t)
    requires 0 <= n <= |times| && !Timesteps(times[..n], step).Done?
    ensures Timesteps(times, step) == Timesteps(times[..n], step)
    decreases |times| - n
  {
    if n < |times| {
      assert times[..n + 1][..n] == times[..n];
      TimestepsStop(times, step, n + 1);
    } else {
      assert times[..n] == times;
    }
  }

  /** Both `randomize_network` and `delete_edge_connections` end by computing
      `calculate_mean_temporal_jaccard` of the two networks: it raises where
      a timestep divides by zero; the mean of no timesteps is NaN, which is
      only printed. */
  function Reported(g1: Network, g2: Network): Drawn<Network> {
    match MeanJaccard(g1, g2)
    case Err(f) => if f == NotANumber then Done(g2) else Raised(f)
    case Ok(_) => Done(g2)
  }

  method Report(g1: Network, g2: Network) returns (r: Drawn<Network>)
    ensures r == Reported(g1, g2)
  {
    var jaccard := MeanTemporalJaccard(g1, g2);
    if jaccard.Err? && jaccard.failure != NotANumber {
      return Raised(jaccard.failure);
    }
    return Done(g2);
  }

  /** A reported network was built at every timestep with at least one edge
      in one of the two networks. */
  lemma ReportedEdges(g1: Network, g2: Network, t: int)
    requires Reported(g1, g2).Done? && t in g1 && t in g2
    ensures Reported(g1, g2).value == g2
    ensures Jaccard(g1[t], g2[t]).Some?
  {
    MeanJaccardUndefined(g1, g2);
  }
  /** Every timestep built in turn, then the mean Jaccard similarity to the
      original reported (the tail of `randomize_network` and of
      `delete_edge_connections`). */
  function ReportedRun(g1: Network, times: seq<int>, step: int --> Drawn<Graph>): Drawn<Network>
    requires forall t :: t in times ==> step.requires(t)
  {
    match Timesteps(times, step)
    case Done(g2) => Reported(g1, g2)
    case Exhausted => Exhausted
    case Raised(f) => Raised(f)
  }

  /** The mean Jaccard similarity of a reported run is defined (or NaN). */
  lemma ReportedRunMean(g1: Network, times: seq<int>, step: int --> Drawn<Graph>)
    requires forall t :: t in times ==> step.requires(t)
    requires ReportedRun(g1, times, step).Done?
    ensures var m := MeanJaccard(g1, ReportedRun(g1, times, step).value); m.Ok? || m == Err(NotANumber)
  {
    assert ReportedRun(g1, times, step) == Reported(g1, Timesteps(times, step).value);
  }

  /** A reported run holds the built graph at each of its timesteps, and
      each of them has a defined Jaccard similarity to the original. */
  lemma ReportedRunAt(g1: Network, times: seq<int>, step: int --> Drawn<Graph>, t: int)
    requires forall t :: t in times ==> step.requires(t)
    requires ReportedRun(g1, times, step).Done?
    ensures var g2 := ReportedRun(g1, times, step).value;
      && (t in g2 <==> t in times)
      && (t in times ==> step(t) == Done(g2[t]))
      && (t in times && t in g1 ==> Jaccard(g1[t], g2[t]).Some?)
  {
    var built := Timesteps(times, step);
    TimestepsAt(times, step, t);
    assert ReportedRun(g1, times, step) == Reported(g1, built.value);
    if t in times && t in g1 {
      ReportedEdges(g1, built.value, t);
    }
  }


  // ---------------------------------------------------- randomize_network

  /** Lines 98-111, one timestep: a graph on the same nodes whose edges are
      node pairs that are neither edges of `g1` nor already placed, one per
      edge of `g1`, weighted from the shuffled weight list. */
  function RandomizedGraph(g1: Graph, d: Draws): Drawn<Graph> {
    Rewire(Graph(g1.nodes, map[]), g1.weight.Keys, d.weights, |g1.weight|, d.proposals)
  }

  function RandomizeStep(g1: Network, rnd: map<int, Draws>): int --> Drawn<Graph> {
    t requires t in g1 && t in rnd => RandomizedGraph(g1[t], rnd[t])
  }

  /** `randomize_network`: every timestep of `G1` randomized, then the
      mean Jaccard similarity to the original reported. */
  function RandomizedNetwork(g1: Network, rnd: map<int, Draws>): Drawn<Network>
    requires forall t :: t in g1 ==> t in rnd
  {
    ReportedRun(g1, Times(g1), RandomizeStep(g1, rnd))
  }

  method RandomizeNetwork(g1: Network, rnd: map<int, Draws>) returns (r: Drawn<Network>)
    requires forall t :: t in g1 ==> t in rnd
    ensures r == RandomizedNetwork(g1, rnd)
  {
    var built := RandomizeTimesteps(g1, rnd, Times(g1));
    if !built.Done? {
      return built;
    }
    r := Report(g1, built.value);
  }

  method RandomizeTimesteps(g1: Network, rnd: map<int, Draws>, times: seq<int>) returns (r: Drawn<Network>)
    requires forall t :: t in times ==> t in g1 && t in rnd
    ensures r == Timesteps(times, RandomizeStep(g1, rnd))
  {
    var g2: Network := map[];
    for i := 0 to |times|
      invariant Timesteps(times[..i], RandomizeStep(g1, rnd)) == Done(g2)
    {
      var t := times[i];
      var gt := RewireLoop(Graph(g1[t].nodes, map[]), g1[t].weight.Keys, rnd[t].weights, |g1[t].weight|,
                           rnd[t].proposals);
      TimestepsNext(times, RandomizeStep(g1, rnd), i);
      if !gt.Done? {
        TimestepsStop(times, RandomizeStep(g1, rnd), i + 1);
        return if gt.Exhausted? then Exhausted else Raised(gt.failure);
      }
      g2 := g2[t := gt.value];
    }
    assert times[..|times|] == times;
    return Done(g2);
  }

  /** A randomized timestep keeps the nodes, the number of edges and the
      multiset of weights, and shares no edge with the original. */
  lemma RandomizedGraphMeans(g1: Graph, d: Draws)
    requires WellFormed(g1) && Fair(g1, d)
    requires RandomizedGraph(g1, d).Done?
    ensures var g2 := RandomizedGraph(g1, d).value;
      && g2.nodes == g1.nodes && WellFormed(g2)
      && |g2.weight| == |g1.weight|
      && g2.weight.Keys !! g1.weight.Keys
      && WeightBag(g2.weight) == WeightBag(g1.weight)
  {
    var g0 := Graph(g1.nodes, map[]);
    var g2 := RandomizedGraph(g1, d).value;
    RewireKeeps(g0, g1.weight.Keys, d.weights, |g1.weight|, d.proposals);
    RewireCount(g0, g1.weight.Keys, d.weights, |g1.weight|, d.proposals, g2);
    FairLength(g1, d);
    assert WeightBag(g0.weight) == multiset{};
    if |g1.weight| > 0 {
      RewireSpends(g0, g1.weight.Keys, d.weights, |g1.weight|, d.proposals, g2);
      assert d.weights[|d.weights| - |g1.weight|..] == d.weights;
    }
  }

  /** A randomized timestep raises only on a graph with an edge but fewer
      than two nodes to draw pairs from. */
  lemma RandomizedGraphFails(g1: Graph, d: Draws)
    requires Fair(g1, d)
    requires RandomizedGraph(g1, d).Raised?
    ensures RandomizedGraph(g1, d).failure == ValueError && |g1.nodes| < 2 && |g1.weight| > 0
  {
    FairLength(g1, d);
    RewireFails(Graph(g1.nodes, map[]), g1.weight.Keys, d.weights, |g1.weight|, d.proposals);
  }

  /** `randomize_network` keeps the timesteps; at each one the nodes, the
      number of edges and the multiset of weights, while the per-timestep
      Jaccard similarity to the original is 0. */
  lemma RandomizedNetworkAt(g1: Network, rnd: map<int, Draws>, t: int)
    requires forall t :: t in g1 ==> t in rnd && WellFormed(g1[t]) && Fair(g1[t], rnd[t])
    requires RandomizedNetwork(g1, rnd).Done?
    ensures var g2 := RandomizedNetwork(g1, rnd).value;
      && (t in g2 <==> t in g1)
      && (t in g1 ==>
            && g2[t].nodes == g1[t].nodes
            && |g2[t].weight| == |g1[t].weight|
            && WeightBag(g2[t].weight) == WeightBag(g1[t].weight)
            && Jaccard(g1[t], g2[t]) == Some(0.0))
  {
    var step := RandomizeStep(g1, rnd);
    ReportedRunAt(g1, Times(g1), step, t);
    if t in g1 {
      var g2 := RandomizedNetwork(g1, rnd).value;
      assert step(t) == RandomizedGraph(g1[t], rnd[t]) == Done(g2[t]);
      RandomizedGraphMeans(g1[t], rnd[t]);
      JaccardDefined(g1[t], g2[t]);
      JaccardZero(g1[t], g2[t]);
    }
  }

  /** The mean temporal Jaccard of a randomized network is 0 (NaN with no
      timestep). */
  lemma RandomizedMeanJaccard(g1: Network, rnd: map<int, Draws>)
    requires forall t :: t in g1 ==> t in rnd && WellFormed(g1[t]) && Fair(g1[t], rnd[t])
    requires RandomizedNetwork(g1, rnd).Done?
    ensures MeanJaccard(g1, RandomizedNetwork(g1, rnd).value) ==
      if |g1| == 0 then Err(NotANumber) else Ok(0.0)
  {
    var g2 := RandomizedNetwork(g1, rnd).value;
    ReportedRunMean(g1, Times(g1), RandomizeStep(g1, rnd));
    forall t | t in g1 && t in g2 ensures g1[t].weight.Keys !! g2[t].weight.Keys {
      RandomizedNetworkAt(g1, rnd, t);
      JaccardZero(g1[t], g2[t]);
    }
    MeanJaccardUndefined(g1, g2);
    if MeanJaccard(g1, g2).Ok? {
      MeanJaccardDisjoint(g1, g2);
    }
  }

  // ------------------------------------------------------- copying edges

  /** Each edge of `es` in turn joins the graph with the weight it has in
      `w` (lines 68-73 and 366-368), a `KeyError` for one that `w` lacks;
      also the weights copied, in order (`track_wt`). */
  function Copy(g: Graph, w: map<Edge, real>, es: seq<Edge>): Result<(Graph, seq<real>)> {
    if es == [] then Ok((g, []))
    else match Copy(g, w, es[..|es| - 1])
      case Err(f) => Err(f)
      case Ok(built) =>
        var e := es[|es| - 1];
        if e !in w then Err(KeyError) else Ok((AddEdge(built.0, e.lo, e.hi, w[e]), built.1 + [w[e]]))
  }

  method CopyLoop(g: Graph, w: map<Edge, real>, es: seq<Edge>) returns (r: Result<(Graph, seq<real>)>)
    ensures r == Copy(g, w, es)
  {
    var h, track := g, [];
    for i := 0 to |es|
      invariant Copy(g, w, es[..i]) == Ok((h, track))
    {
      var e := es[i];
      assert es[..i + 1][..i] == es[..i];
      if e !in w {
        CopyStops(g, w, es, i + 1);
        return Err(KeyError);
      }
      h := AddEdge(h, e.lo, e.hi, w[e]);
      track := track + [w[e]];
    }
    assert es[..|es|] == es;
    return Ok((h, track));
  }

  lemma {:induction false} CopyStops(g: Graph, w: map<Edge, real>, es: seq<Edge>, n: int)
    requires 0 <= n <= |es| && Copy(g, w, es[..n]).Err?
    ensures Copy(g, w, es) == Copy(g, w, es[..n])
    decreases |es| - n
  {
    if n < |es| {
      assert es[..n + 1][..n] == es[..n];
      CopyStops(g, w, es, n + 1);
    } else {
      assert es[..n] == es;
    }
  }

  /** Copying edges of `w` succeeds; afterwards the graph has its old edges
      and the copied ones, the copied ones with their weights in `w`, and
      `track` lists those weights in order. */
  lemma {:induction false} CopyEdges(g: Graph, w: map<Edge, real>, es: seq<Edge>)
    requires forall i :: 0 <= i < |es| ==> es[i] in w && StrLe(es[i].lo, es[i].hi)
    ensures Copy(g, w, es).Ok?
    ensures var r, track := Copy(g, w, es).value.0, Copy(g, w, es).value.1;
      && (forall e :: e in r.weight <==> e in g.weight || e in es)
      && (forall e :: e in es ==> r.weight[e] == w[e])
      && (forall e :: e in g.weight && e !in es ==> r.weight[e] == g.weight[e])
      && |track| == |es| && (forall i :: 0 <= i < |es| ==> track[i] == w[es[i]])
  {
    if es != [] {
      var init, e := es[..|es| - 1], es[|es| - 1];
      CopyEdges(g, w, init);
      assert EdgeOf(e.lo, e.hi) == e;
      forall x ensures x in es <==> x in init || x == e {
        LastSplit(es, x);
      }
    }
  }

  /** The graph gains exactly the end nodes of the copied edges. */
  lemma {:induction false} CopyNodes(g: Graph, w: map<Edge, real>, es: seq<Edge>)
    requires Copy(g, w, es).Ok?
    ensures forall n :: n in Copy(g, w, es).value.0.nodes <==>
      n in g.nodes || exists e :: e in es && (e.lo == n || e.hi == n)
  {
    if es != [] {
      var init, e := es[..|es| - 1], es[|es| - 1];
      CopyNodes(g, w, init);
      forall x ensures x in es <==> x in init || x == e {
        LastSplit(es, x);
      }
    }
  }

  /** The copied weights, as a multiset, are the bag of the copied edges. */
  lemma {:induction false} TrackBag(w: map<Edge, real>, es: seq<Edge>, track: seq<real>)
    requires forall i :: 0 <= i < |es| ==> es[i] in w
    requires forall i, j :: 0 <= i < j < |es| ==> es[i] != es[j]
    requires |track| == |es| && forall i :: 0 <= i < |es| ==> track[i] == w[es[i]]
    ensures multiset(track) == BagOver(w, set e | e in es)
  {
    if es != [] {
      var init, e := es[..|es| - 1], es[|es| - 1];
      var keys := set x | x in es;
      var front := track[..|track| - 1];
      forall i | 0 <= i < |init| ensures front[i] == w[init[i]] {
        assert front[i] == track[i] && init[i] == es[i];
      }
      TrackBag(w, init, front);
      ElementsOfInit(es, init);
      assert track == front + [w[e]];
      TrackStep(w, keys, e, front, track);
    }
  }

  /** One more tracked weight adds that edge's weight to the bag. */
  lemma TrackStep(w: map<Edge, real>, keys: set<Edge>, e: Edge, front: seq<real>, track: seq<real>)
    requires e in keys && keys <= w.Keys && track == front + [w[e]]
    requires multiset(front) == BagOver(w, keys - {e})
    ensures multiset(track) == BagOver(w, keys)
  {
    BagRemove(w, keys, e);
  }

  /** Without repeats, the elements of all but the last entry are those of
      the whole list less the last entry. */
  lemma ElementsOfInit(es: seq<Edge>, init: seq<Edge>)
    requires es != [] && init == es[..|es| - 1]
    requires forall i, j :: 0 <= i < j < |es| ==> es[i] != es[j]
    ensures (set x | x in es) - {es[|es| - 1]} == set x | x in init
  {
    var e := es[|es| - 1];
    forall x ensures x in es <==> x in init || x == e {
      LastSplit(es, x);
    }
    forall i | 0 <= i < |init| ensures init[i] != e {
      assert init[i] == es[i];
    }
  }

  // ------------------------------------------------------ permute_network

  /** `orig_edges.pop()` taken `k` times: the last `k` elements, last first. */
  function Popped<T>(s: seq<T>, k: int): (r: seq<T>)
    requires 0 <= k <= |s|
    ensures |r| == k && forall i :: 0 <= i < k ==> r[i] == s[|s| - 1 - i]
  {
    seq(k, i requires 0 <= i < k => s[|s| - 1 - i])
  }

  /** Line 76: `wtlist.remove(wt)` for each copied weight in turn. */
  function RemoveAll<T(==)>(s: seq<T>, xs: seq<T>): Option<seq<T>>
    decreases |xs|
  {
    if xs == [] then Some(s)
    else match RemoveFirst(s, xs[0])
      case None => None
      case Some(rest) => RemoveAll(rest, xs[1..])
  }

  method RemoveEach<T(==)>(s: seq<T>, xs: seq<T>) returns (r: Option<seq<T>>)
    ensures r == RemoveAll(s, xs)
  {
    var wtlist := s;
    for i := 0 to |xs|
      invariant RemoveAll(wtlist, xs[i..]) == RemoveAll(s, xs)
    {
      assert xs[i..][0] == xs[i] && xs[i..][1..] == xs[i + 1..];
      var rest := RemoveFirst(wtlist, xs[i]);
      if rest.None? {
        return None;
      }
      wtlist := rest.value;
    }
    return Some(wtlist);
  }

  /** Removing a sub-multiset succeeds and leaves the difference. */
  lemma {:induction false} RemoveAllMeans<T>(s: seq<T>, xs: seq<T>)
    requires multiset(xs) <= multiset(s)
    decreases |xs|
    ensures RemoveAll(s, xs).Some?
    ensures multiset(RemoveAll(s, xs).value) == multiset(s) - multiset(xs)
  {
    if xs != [] {
      var x := xs[0];
      assert xs == [x] + xs[1..];
      assert multiset(xs) == multiset{x} + multiset(xs[1..]);
      assert x in multiset(s);
      RemoveFirstMeans(s, x);
      var rest := RemoveFirst(s, x).value;
      assert multiset(xs[1..]) <= multiset(rest);
      RemoveAllMeans(rest, xs[1..]);
    }
  }

  /** Line 63: `num_swaps = int(permutation * len(edges))`. */
  function Swaps(g1: Graph, p: real): int {
    Trunc(p * |g1.weight| as real)
  }

  /** Lines 60-88, one timestep: `len - int(p * len)` of the shuffled edges
      are popped and kept with their weights (a negative count pops nothing,
      one above the number of edges pops from an empty list), the weights
      left over are placed by the rejection loop on node pairs that are not
      yet edges, and `calculate_jaccard` of the two graphs is computed. */
  function PermutedGraph(g1: Graph, p: real, d: Draws): Drawn<Graph> {
    var numOrig := |g1.weight| - Swaps(g1, p);
    if numOrig > |d.order| then Raised(IndexError)
    else match Kept(g1, d, if numOrig < 0 then 0 else numOrig)
      case Err(f) => Raised(f)
      case Ok(kept) => Swapped(g1, p, d, kept)
  }

  /** Lines 65-73: the last `k` shuffled edges popped and copied. */
  function Kept(g1: Graph, d: Draws, k: int): Result<(Graph, seq<real>)>
    requires 0 <= k <= |d.order|
  {
    Copy(Graph(g1.nodes, map[]), g1.weight, Popped(d.order, k))
  }

  /** Lines 74-88: the copied weights removed from the weight list, the rest
      placed by the rejection loop, then the Jaccard ratio computed. */
  function Swapped(g1: Graph, p: real, d: Draws, kept: (Graph, seq<real>)): Drawn<Graph> {
    match RemoveAll(d.weights, kept.1)
    case None => Raised(ValueError)
    case Some(wtlist) => Checked(g1, Rewire(kept.0, {}, wtlist, Swaps(g1, p), d.proposals))
  }

  /** Line 88: `calculate_jaccard(G1[time], G2[time])` divides by zero when
      neither graph has an edge. */
  function Checked(g1: Graph, r: Drawn<Graph>): Drawn<Graph> {
    if r.Done? && Jaccard(g1, r.value).None? then Raised(ZeroDivisionError) else r
  }

  method PermuteGraph(g1: Graph, p: real, d: Draws) returns (r: Drawn<Graph>)
    ensures r == PermutedGraph(g1, p, d)
  {
    var numOrig := |g1.weight| - Swaps(g1, p);
    if numOrig > |d.order| {
      return Raised(IndexError);
    }
    var kept := CopyLoop(Graph(g1.nodes, map[]), g1.weight, Popped(d.order, if numOrig < 0 then 0 else numOrig));
    if kept.Err? {
      return Raised(kept.failure);
    }
    r := SwapLoop(g1, p, d, kept.value);
  }

  method SwapLoop(g1: Graph, p: real, d: Draws, kept: (Graph, seq<real>)) returns (r: Drawn<Graph>)
    ensures r == Swapped(g1, p, d, kept)
  {
    var wtlist := RemoveEach(d.weights, kept.1);
    if wtlist.None? {
      return Raised(ValueError);
    }
    r := RewireLoop(kept.0, {}, wtlist.value, Swaps(g1, p), d.proposals);
    if r.Done? && Jaccard(g1, r.value).None? {
      r := Raised(ZeroDivisionError);
    }
  }

  /** The kept phase of a fair draw: the popped edges, with their weights. */
  lemma KeptPhase(g1: Graph, d: Draws, k: int)
    requires WellFormed(g1) && Fair(g1, d) && 0 <= k <= |d.order|
    ensures Kept(g1, d, k).Ok?
    ensures var kept, keys := Kept(g1, d, k).value, set e | e in Popped(d.order, k);
      && kept.0.weight.Keys == keys && keys <= g1.weight.Keys
      && (forall e :: e in keys ==> kept.0.weight[e] == g1.weight[e])
      && (forall i :: |d.order| - k <= i < |d.order| ==> d.order[i] in keys)
      && multiset(kept.1) == BagOver(g1.weight, keys) == WeightBag(kept.0.weight)
      && |kept.1| == k
  {
    var es := Popped(d.order, k);
    var g0 := Graph(g1.nodes, map[]);
    PoppedEdges(g1, d, k);
    CopyEdges(g0, g1.weight, es);
    var kept := Copy(g0, g1.weight, es).value;
    var keys := set e | e in es;
    assert kept.0.weight.Keys == keys;
    forall i | |d.order| - k <= i < |d.order| ensures d.order[i] in keys {
      assert es[|d.order| - 1 - i] == d.order[i];
    }
    TrackBag(g1.weight, es, kept.1);
    BagAgree(g1.weight, kept.0.weight, keys);
  }

  /** The popped edges are distinct edges of the graph. */
  lemma PoppedEdges(g1: Graph, d: Draws, k: int)
    requires WellFormed(g1) && Lists(d.order, g1.weight) && 0 <= k <= |d.order|
    ensures var es := Popped(d.order, k);
      && (forall i :: 0 <= i < |es| ==> es[i] in g1.weight && StrLe(es[i].lo, es[i].hi))
      && (forall i, j :: 0 <= i < j < |es| ==> es[i] != es[j])
  {
    var es := Popped(d.order, k);
    forall i | 0 <= i < |es| ensures es[i] in g1.weight && StrLe(es[i].lo, es[i].hi) {
      assert es[i] == d.order[|d.order| - 1 - i];
    }
    forall i, j | 0 <= i < j < |es| ensures es[i] != es[j] {
      assert es[i] == d.order[|d.order| - 1 - i] && es[j] == d.order[|d.order| - 1 - j];
    }
  }

  /** The kept phase stays on the original nodes. */
  lemma KeptGraph(g1: Graph, d: Draws, k: int)
    requires WellFormed(g1) && Fair(g1, d) && 0 <= k <= |d.order|
    ensures Kept(g1, d, k).Ok?
    ensures Kept(g1, d, k).value.0.nodes == g1.nodes && WellFormed(Kept(g1, d, k).value.0)
  {
    var es := Popped(d.order, k);
    var g0 := Graph(g1.nodes, map[]);
    PoppedEdges(g1, d, k);
    CopyEdges(g0, g1.weight, es);
    CopyNodes(g0, g1.weight, es);
    var h := Copy(g0, g1.weight, es).value.0;
    assert h.nodes == g1.nodes;
    forall e | e in h.weight ensures e.lo in h.nodes && e.hi in h.nodes && StrLe(e.lo, e.hi) {
      assert e in es;
    }
  }

  /** The weights left for the rejection loop are the weights of the edges
      that were not kept. */
  lemma LeftPhase(g1: Graph, d: Draws, keys: set<Edge>, track: seq<real>)
    requires Fair(g1, d) && keys <= g1.weight.Keys
    requires multiset(track) == BagOver(g1.weight, keys)
    ensures RemoveAll(d.weights, track).Some?
    ensures multiset(RemoveAll(d.weights, track).value) == BagOver(g1.weight, g1.weight.Keys - keys)
    ensures |RemoveAll(d.weights, track).value| == |g1.weight| - |track|
  {
    BagSplit(g1.weight, g1.weight.Keys, keys);
    RemoveAllMeans(d.weights, track);
    var left := RemoveAll(d.weights, track).value;
    BagSize(g1.weight, g1.weight.Keys);
    assert |multiset(left)| == |left|;
    assert |multiset(track)| == |track|;
  }

  /** Where `p` allows no swap beyond the number of edges. */
  lemma SwapsBounds(g1: Graph, p: real)
    ensures 0.0 <= p <= 1.0 ==> 0 <= Swaps(g1, p) <= |g1.weight|
    ensures p < 0.0 ==> Swaps(g1, p) <= 0
  {
    var len := |g1.weight| as real;
    if 0.0 <= p <= 1.0 {
      assert 0.0 <= p * len <= len;
    } else if p < 0.0 {
      assert p * len <= 0.0;
    }
  }

  /** The swap phase of a fair draw: the edge count and the weight bag come
      out whole. */
  lemma SwapPhase(g1: Graph, p: real, d: Draws, k: int)
    requires WellFormed(g1) && Fair(g1, d) && 0 <= k <= |d.order| && Kept(g1, d, k).Ok?
    requires Swapped(g1, p, d, Kept(g1, d, k).value).Done?
    requires k == |g1.weight| - Swaps(g1, p) || (k == 0 && Swaps(g1, p) > |g1.weight|)
    ensures k == |g1.weight| - Swaps(g1, p)
    ensures var kept, g2 := Kept(g1, d, k).value, Swapped(g1, p, d, Kept(g1, d, k).value).value;
      && g2.nodes == g1.nodes && WellFormed(g2)
      && (forall e :: e in kept.0.weight ==> e in g2.weight && g2.weight[e] == kept.0.weight[e])
      && |g2.weight| == |g1.weight| && WeightBag(g2.weight) == WeightBag(g1.weight)
  {
    FairLength(g1, d);
    KeptPhase(g1, d, k);
    KeptGraph(g1, d, k);
    var kept := Kept(g1, d, k).value;
    var keys := set e | e in Popped(d.order, k);
    LeftPhase(g1, d, keys, kept.1);
    var wtlist := RemoveAll(d.weights, kept.1).value;
    var g2 := Swapped(g1, p, d, kept).value;
    assert Rewire(kept.0, {}, wtlist, Swaps(g1, p), d.proposals) == Done(g2);
    BagSize(g1.weight, keys);
    assert |keys| == |multiset(kept.1)| == k;
    RewireFinish(g1, kept.0, keys, wtlist, Swaps(g1, p), d.proposals, g2);
  }

  /** The swap phase on plain values: rewiring the kept edges with the
      weights left over restores the number of edges and the multiset of
      weights. */
  lemma RewireFinish(g1: Graph, kept: Graph, keys: set<Edge>, wtlist: seq<real>, numSwaps: int,
                     draws: seq<(Node, Node)>, g2: Graph)
    requires WellFormed(kept) && kept.nodes == g1.nodes && Proposals(g1.nodes, draws)
    requires kept.weight.Keys == keys && keys <= g1.weight.Keys
    requires WeightBag(kept.weight) == BagOver(g1.weight, keys)
    requires multiset(wtlist) == BagOver(g1.weight, g1.weight.Keys - keys)
    requires |wtlist| == |g1.weight| - |keys|
    requires Rewire(kept, {}, wtlist, numSwaps, draws) == Done(g2)
    requires numSwaps == |g1.weight| - |keys| || (|keys| == 0 && numSwaps > |g1.weight|)
    ensures numSwaps == |g1.weight| - |keys|
    ensures && g2.nodes == g1.nodes && WellFormed(g2)
            && (forall e :: e in kept.weight ==> e in g2.weight && g2.weight[e] == kept.weight[e])
            && |g2.weight| == |g1.weight| && WeightBag(g2.weight) == WeightBag(g1.weight)
  {
    RewireKeeps(kept, {}, wtlist, numSwaps, draws);
    RewireCount(kept, {}, wtlist, numSwaps, draws, g2);
    BagSplit(g1.weight, g1.weight.Keys, keys);
    if numSwaps > 0 {
      RewireSpends(kept, {}, wtlist, numSwaps, draws, g2);
      assert wtlist[|wtlist| - numSwaps..] == wtlist;
    } else {
      assert |multiset(wtlist)| == 0;
    }
  }

  /** A permuted timestep keeps the nodes, the number of edges and the
      multiset of weights, and the `len - int(p * len)` edges popped from the
      shuffled list keep their original weights. */
  lemma PermutedGraphMeans(g1: Graph, p: real, d: Draws)
    requires WellFormed(g1) && Fair(g1, d)
    requires PermutedGraph(g1, p, d).Done?
    ensures var g2, len := PermutedGraph(g1, p, d).value, |g1.weight|;
      var k := len - Swaps(g1, p);
      && 0 <= k <= len && g2.nodes == g1.nodes && WellFormed(g2)
      && |g2.weight| == len && WeightBag(g2.weight) == WeightBag(g1.weight)
      && forall i :: |d.order| - k <= i < |d.order| ==>
           d.order[i] in g2.weight && g2.weight[d.order[i]] == g1.weight[d.order[i]]
  {
    var numOrig := |g1.weight| - Swaps(g1, p);
    FairLength(g1, d);
    var k := if numOrig < 0 then 0 else numOrig;
    KeptPhase(g1, d, k);
    var kept := Kept(g1, d, k).value;
    assert PermutedGraph(g1, p, d) == Swapped(g1, p, d, kept);
    SwapPhase(g1, p, d, k);
    var g2 := PermutedGraph(g1, p, d).value;
    forall i | |d.order| - k <= i < |d.order|
      ensures d.order[i] in g2.weight && g2.weight[d.order[i]] == g1.weight[d.order[i]]
    {
      assert d.order[i] in kept.0.weight;
    }
  }

  /** With `0 <= p <= 1` a permuted timestep raises only on a graph with
      swaps to make but fewer than two nodes, or on one without edges. */
  lemma PermutedGraphFails(g1: Graph, p: real, d: Draws)
    requires WellFormed(g1) && Fair(g1, d) && 0.0 <= p <= 1.0
    requires PermutedGraph(g1, p, d).Raised?
    ensures var f := PermutedGraph(g1, p, d).failure;
      (f == ValueError && |g1.nodes| < 2) || (f == ZeroDivisionError && |g1.weight| == 0)
  {
    var numSwaps := Swaps(g1, p);
    var k := |g1.weight| - numSwaps;
    SwapsBounds(g1, p);
    FairLength(g1, d);
    KeptPhase(g1, d, k);
    var kept := Kept(g1, d, k).value;
    assert RemoveAll(d.weights, kept.1).Some? && kept.0.nodes == g1.nodes
        && numSwaps <= |RemoveAll(d.weights, kept.1).value| by {
      KeptGraph(g1, d, k);
      var keys := set e | e in Popped(d.order, k);
      LeftPhase(g1, d, keys, kept.1);
    }
    var wtlist := RemoveAll(d.weights, kept.1).value;
    assert PermutedGraph(g1, p, d) == Checked(g1, Rewire(kept.0, {}, wtlist, numSwaps, d.proposals));
    CheckedFails(g1, kept.0, wtlist, numSwaps, d.proposals);
  }

  /** The swap phase on plain values: with enough leftover weights, the
      rewiring raises only for want of two nodes, and the check only when
      neither graph has an edge. */
  lemma CheckedFails(g1: Graph, kept: Graph, wtlist: seq<real>, numSwaps: int, draws: seq<(Node, Node)>)
    requires kept.nodes == g1.nodes && Proposals(g1.nodes, draws) && numSwaps <= |wtlist|
    requires Checked(g1, Rewire(kept, {}, wtlist, numSwaps, draws)).Raised?
    ensures var f := Checked(g1, Rewire(kept, {}, wtlist, numSwaps, draws)).failure;
      (f == ValueError && |g1.nodes| < 2) || (f == ZeroDivisionError && |g1.weight| == 0)
  {
    var rewired := Rewire(kept, {}, wtlist, numSwaps, draws);
    if rewired.Raised? {
      RewireFails(kept, {}, wtlist, numSwaps, draws);
    } else {
      JaccardDefined(g1, rewired.value);
    }
  }

  function PermuteStep(g1: Network, p: real, rnd: map<int, Draws>): int --> Drawn<Graph> {
    t requires t in g1 && t in rnd => PermutedGraph(g1[t], p, rnd[t])
  }

  /** `permute_network(G1, permutation)`: every timestep permuted. */
  function PermutedNetwork(g1: Network, p: real, rnd: map<int, Draws>): Drawn<Network>
    requires forall t :: t in g1 ==> t in rnd
  {
    Timesteps(Times(g1), PermuteStep(g1, p, rnd))
  }

  method PermuteNetwork(g1: Network, p: real, rnd: map<int, Draws>) returns (r: Drawn<Network>)
    requires forall t :: t in g1 ==> t in rnd
    ensures r == PermutedNetwork(g1, p, rnd)
  {
    r := PermuteTimesteps(g1, p, rnd, Times(g1));
  }

  method PermuteTimesteps(g1: Network, p: real, rnd: map<int, Draws>, times: seq<int>) returns (r: Drawn<Network>)
    requires forall t :: t in times ==> t in g1 && t in rnd
    ensures r == Timesteps(times, PermuteStep(g1, p, rnd))
  {
    var g2: Network := map[];
    for i := 0 to |times|
      invariant Timesteps(times[..i], PermuteStep(g1, p, rnd)) == Done(g2)
    {
      var t := times[i];
      var gt := PermuteGraph(g1[t], p, rnd[t]);
      TimestepsNext(times, PermuteStep(g1, p, rnd), i);
      if !gt.Done? {
        TimestepsStop(times, PermuteStep(g1, p, rnd), i + 1);
        return if gt.Exhausted? then Exhausted else Raised(gt.failure);
      }
      g2 := g2[t := gt.value];
    }
    assert times[..|times|] == times;
    return Done(g2);
  }

  /** `permute_network` keeps the timesteps, and at each one what
      `PermutedGraphMeans` states. */
  lemma PermutedNetworkAt(g1: Network, p: real, rnd: map<int, Draws>, t: int)
    requires forall t :: t in g1 ==> t in rnd && WellFormed(g1[t]) && Fair(g1[t], rnd[t])
    requires PermutedNetwork(g1, p, rnd).Done?
    ensures var g2 := PermutedNetwork(g1, p, rnd).value;
      && (t in g2 <==> t in g1)
      && (t in g1 ==>
            var len := |g1[t].weight|;
            var k := len - Swaps(g1[t], p);
            && g2[t].nodes == g1[t].nodes
            && |g2[t].weight| == len
            && WeightBag(g2[t].weight) == WeightBag(g1[t].weight)
            && 0 <= k <= len
            && forall i :: 0 <= i < |rnd[t].order| && |rnd[t].order| - k <= i ==>
                 var e := rnd[t].order[i]; e in g1[t].weight && e in g2[t].weight && g2[t].weight[e] == g1[t].weight[e])
  {
    var step := PermuteStep(g1, p, rnd);
    TimestepsAt(Times(g1), step, t);
    if t in g1 {
      var g2 := PermutedNetwork(g1, p, rnd).value;
      assert step(t) == PermutedGraph(g1[t], p, rnd[t]) == Done(g2[t]);
      PermutedGraphMeans(g1[t], p, rnd[t]);
    }
  }

  // ---------------------------------------------- delete_edge_connections

  /** Lines 351-355: the number of edges over the timesteps `times`. */
  function EdgeTotal(g: Network, times: seq<int>): int
    requires forall i :: 0 <= i < |times| ==> times[i] in g
  {
    if times == [] then 0
    else
      EdgeTotal(g, times[..|times| - 1]) + |g[times[|times| - 1]].weight|
  }

  method CountEdges(g: Network, times: seq<int>) returns (n: int)
    requires forall i :: 0 <= i < |times| ==> times[i] in g
    ensures n == EdgeTotal(g, times)
  {
    n := 0;
    for i := 0 to |times|
      invariant n == EdgeTotal(g, times[..i])
    {
      assert times[..i + 1][..i] == times[..i];
      n := n + |g[times[i]].weight|;
    }
    assert times[..|times|] == times;
  }

  /** Python's `s[i:]`: a negative start counts from the end, and a start
      beyond either end is clamped. */
  function SliceFrom<T>(s: seq<T>, i: int): seq<T> {
    if i >= |s| then []
    else if i >= 0 then s[i..]
    else if -i >= |s| then s
    else s[|s| + i..]
  }

  /** The slice is a suffix: all but the first `i` elements for `i >= 0`,
      the last `-i` for `i < 0`. */
  lemma SliceFromMeans<T>(s: seq<T>, i: int)
    ensures |SliceFrom(s, i)| <= |s| && SliceFrom(s, i) == s[|s| - |SliceFrom(s, i)|..]
    ensures i >= 0 ==> |SliceFrom(s, i)| == if i >= |s| then 0 else |s| - i
    ensures i < 0 ==> |SliceFrom(s, i)| == if -i >= |s| then |s| else -i
  {
  }

  /** Line 356: `int(percent_remove * total_edges)`. */
  function Deletions(percent: real, total: int): int {
    Trunc(percent * total as real)
  }

  /** Line 357: `int(del_edges / float(len(g)))`. */
  function Share(del: int, count: int): int
    requires count > 0
  {
    Trunc(del as real / count as real)
  }

  /** The number of edges dropped at each timestep. */
  function PerTimestep(g: Network, percent: real): int
    requires |g| > 0
  {
    Share(Deletions(percent, EdgeTotal(g, Times(g))), |g|)
  }

  /** Lines 361-368, one timestep: a new graph holding the shuffled edges
      from position `cut` on, with their weights, and only the nodes those
      edges touch. */
  function ThinnedGraph(g: Graph, cut: int, d: Draws): Drawn<Graph> {
    match Copy(EmptyGraph, g.weight, SliceFrom(d.order, cut))
    case Err(f) => Raised(f)
    case Ok(built) => Done(built.0)
  }

  function ThinStep(g: Network, cut: int, rnd: map<int, Draws>): int --> Drawn<Graph> {
    t requires t in g && t in rnd => ThinnedGraph(g[t], cut, rnd[t])
  }

  /** `delete_edge_connections(g, percent_remove)`: the same number of edges
      dropped from every timestep, a division by zero for a network without
      timesteps, then the mean Jaccard similarity to the original reported. */
  function DeletedNetwork(g: Network, percent: real, rnd: map<int, Draws>): Drawn<Network>
    requires forall t :: t in g ==> t in rnd
  {
    if |g| == 0 then Raised(ZeroDivisionError)
    else ReportedRun(g, Times(g), ThinStep(g, PerTimestep(g, percent), rnd))
  }

  method DeleteEdgeConnections(g: Network, percent: real, rnd: map<int, Draws>) returns (r: Drawn<Network>)
    requires forall t :: t in g ==> t in rnd
    ensures r == DeletedNetwork(g, percent, rnd)
  {
    var totalEdges := CountEdges(g, Times(g));
    var delEdges := Deletions(percent, totalEdges);
    if |g| == 0 {
      return Raised(ZeroDivisionError);
    }
    var perTime := Share(delEdges, |g|);
    assert perTime == PerTimestep(g, percent);
    var built := ThinTimesteps(g, perTime, rnd, Times(g));
    assert DeletedNetwork(g, percent, rnd) == if built.Done? then Reported(g, built.value) else built;
    if !built.Done? {
      return built;
    }
    r := Report(g, built.value);
  }

  method ThinTimesteps(g: Network, cut: int, rnd: map<int, Draws>, times: seq<int>) returns (r: Drawn<Network>)
    requires forall t :: t in times ==> t in g && t in rnd
    ensures r == Timesteps(times, ThinStep(g, cut, rnd))
  {
    var h: Network := map[];
    for i := 0 to |times|
      invariant Timesteps(times[..i], ThinStep(g, cut, rnd)) == Done(h)
    {
      var t := times[i];
      var built := CopyLoop(EmptyGraph, g[t].weight, SliceFrom(rnd[t].order, cut));
      TimestepsNext(times, ThinStep(g, cut, rnd), i);
      if built.Err? {
        TimestepsStop(times, ThinStep(g, cut, rnd), i + 1);
        return Raised(built.failure);
      }
      h := h[t := built.value.0];
    }
    assert times[..|times|] == times;
    return Done(h);
  }

  /** A delete result that is reported comes from a network with timesteps;
      it has the same timesteps, each thinned by the same cut, and every
      timestep of the original had an edge (an edgeless one makes the mean
      Jaccard similarity divide by zero). */
  lemma DeletedNetworkAt(g: Network, percent: real, rnd: map<int, Draws>, t: int)
    requires forall t :: t in g ==> t in rnd && WellFormed(g[t]) && Lists(rnd[t].order, g[t].weight)
    requires DeletedNetwork(g, percent, rnd).Done?
    ensures |g| > 0
    ensures var h := DeletedNetwork(g, percent, rnd).value;
      && (t in h <==> t in g)
      && (t in g ==>
            var es := SliceFrom(rnd[t].order, PerTimestep(g, percent));
            && (forall e :: e in h[t].weight <==> e in es)
            && (forall e :: e in h[t].weight ==> e in g[t].weight && h[t].weight[e] == g[t].weight[e])
            && |g[t].weight| > 0)
  {
    DeletedSteps(g, percent, rnd, t);
    if t in g {
      var h := DeletedNetwork(g, percent, rnd).value;
      ThinnedGraphMeans(g[t], PerTimestep(g, percent), rnd[t]);
      DefinedHasEdges(g[t], h[t]);
    }
  }

  /** A reported delete result holds, at every timestep of the original,
      that timestep thinned, and its Jaccard similarity is defined. */
  lemma DeletedSteps(g: Network, percent: real, rnd: map<int, Draws>, t: int)
    requires forall t :: t in g ==> t in rnd
    requires DeletedNetwork(g, percent, rnd).Done?
    ensures |g| > 0
    ensures var h := DeletedNetwork(g, percent, rnd).value;
      && (t in h <==> t in g)
      && (t in g ==> ThinnedGraph(g[t], PerTimestep(g, percent), rnd[t]) == Done(h[t]) && Jaccard(g[t], h[t]).Some?)
  {
    var cut := PerTimestep(g, percent);
    var step := ThinStep(g, cut, rnd);
    ReportedRunAt(g, Times(g), step, t);
    if t in g {
      assert step(t) == ThinnedGraph(g[t], cut, rnd[t]);
    }
  }

  /** A defined Jaccard similarity against a subgraph means the graph has an edge. */
  lemma DefinedHasEdges(g1: Graph, g2: Graph)
    requires Jaccard(g1, g2).Some? && g2.weight.Keys <= g1.weight.Keys
    ensures |g1.weight| > 0
  {
    JaccardDefined(g1, g2);
    assert g1.weight.Keys != {};
  }

  /** The kept slice of a fair shuffle holds distinct edges of the graph. */
  lemma ThinSlice(g: Graph, cut: int, d: Draws)
    requires WellFormed(g) && Lists(d.order, g.weight)
    ensures var es := SliceFrom(d.order, cut);
      && (forall i :: 0 <= i < |es| ==> es[i] in g.weight && StrLe(es[i].lo, es[i].hi))
      && (forall i, j :: 0 <= i < j < |es| ==> es[i] != es[j])
  {
    var es := SliceFrom(d.order, cut);
    SliceFromMeans(d.order, cut);
    SliceEdges(g, d.order, es);
  }

  /** A thinned timestep always builds: its edges are the kept part of the
      shuffled list, with their original weights. */
  lemma ThinnedGraphMeans(g: Graph, cut: int, d: Draws)
    requires WellFormed(g) && Lists(d.order, g.weight)
    ensures ThinnedGraph(g, cut, d).Done?
    ensures var h := ThinnedGraph(g, cut, d).value;
      && (forall e :: e in h.weight <==> e in SliceFrom(d.order, cut))
      && (forall e :: e in h.weight ==> e in g.weight && h.weight[e] == g.weight[e])
  {
    ThinSlice(g, cut, d);
    CopyEdges(EmptyGraph, g.weight, SliceFrom(d.order, cut));
  }

  /** A thinned timestep keeps as many edges as the slice does: all but the
      first `cut` for `cut >= 0`, the last `-cut` for `cut < 0`. */
  lemma ThinnedCount(g: Graph, cut: int, d: Draws)
    requires WellFormed(g) && Lists(d.order, g.weight)
    ensures ThinnedGraph(g, cut, d).Done?
    ensures var h, len := ThinnedGraph(g, cut, d).value, |g.weight|;
      && (cut >= 0 ==> |h.weight| == if cut >= len then 0 else len - cut)
      && (cut < 0 ==> |h.weight| == if -cut >= len then len else -cut)
  {
    ThinSlice(g, cut, d);
    ThinnedGraphMeans(g, cut, d);
    SliceFromMeans(d.order, cut);
    ListsLength(d.order, g.weight);
    DistinctCount(ThinnedGraph(g, cut, d).value.weight, SliceFrom(d.order, cut));
  }

  /** A map keyed by the elements of a list without repeats has as many
      keys as the list has elements. */
  lemma DistinctCount(m: map<Edge, real>, es: seq<Edge>)
    requires forall e :: e in m <==> e in es
    requires forall i, j :: 0 <= i < j < |es| ==> es[i] != es[j]
    ensures |m| == |es|
  {
    DistinctListMultiset(es, m.Keys);
    assert |m.Keys| == |multiset(m.Keys)| == |multiset(es)|;
  }

  /** The nodes of a thinned timestep are exactly the ends of its edges: the
      copy starts from an empty graph, so the original's nodes are not kept. */
  lemma ThinnedNodes(g: Graph, cut: int, d: Draws)
    requires WellFormed(g) && Lists(d.order, g.weight)
    ensures ThinnedGraph(g, cut, d).Done?
    ensures var h := ThinnedGraph(g, cut, d).value;
      && (forall n :: n in h.nodes <==> exists e :: e in h.weight && (e.lo == n || e.hi == n))
      && WellFormed(h)
  {
    var es := SliceFrom(d.order, cut);
    ThinSlice(g, cut, d);
    CopyEdges(EmptyGraph, g.weight, es);
    CopyNodes(EmptyGraph, g.weight, es);
    EndsOfEdges(Copy(EmptyGraph, g.weight, es).value.0, es);
  }

  /** A graph whose edges are those of a list and whose nodes are their ends. */
  lemma EndsOfEdges(h: Graph, es: seq<Edge>)
    requires forall e :: e in h.weight <==> e in es
    requires forall i :: 0 <= i < |es| ==> StrLe(es[i].lo, es[i].hi)
    requires forall n :: n in h.nodes <==> exists e :: e in es && (e.lo == n || e.hi == n)
    ensures forall n :: n in h.nodes <==> exists e :: e in h.weight && (e.lo == n || e.hi == n)
    ensures WellFormed(h)
  {
    forall n ensures n in h.nodes <==> exists e :: e in h.weight && (e.lo == n || e.hi == n) {
      if n in h.nodes {
        var e :| e in es && (e.lo == n || e.hi == n);
        assert e in h.weight;
      }
    }
    forall e | e in h.weight ensures e.lo in h.nodes && e.hi in h.nodes && StrLe(e.lo, e.hi) {
      var i :| 0 <= i < |es| && es[i] == e;
    }
  }

  /** The slice holds distinct edges of the graph. */
  lemma SliceEdges(g: Graph, order: seq<Edge>, es: seq<Edge>)
    requires WellFormed(g) && Lists(order, g.weight)
    requires |es| <= |order| && es == order[|order| - |es|..]
    ensures forall i :: 0 <= i < |es| ==> es[i] in g.weight && StrLe(es[i].lo, es[i].hi)
    ensures forall i, j :: 0 <= i < j < |es| ==> es[i] != es[j]
  {
    var off := |order| - |es|;
    forall i | 0 <= i < |es| ensures es[i] in g.weight && StrLe(es[i].lo, es[i].hi) {
      assert es[i] == order[off + i];
    }
    forall i, j | 0 <= i < j < |es| ensures es[i] != es[j] {
      assert es[i] == order[off + i] && es[j] == order[off + j];
    }
  }
}
