/** The discrete structure of `log_likelihood`: which network of the
    comparison set is scored, the diagnosis-lag imputation of infection and
    recovery days, the infection pressure of each node on each timestep
    (`infected_strength`), and the (node, day) terms the likelihood sums. */
module Likelihood {
  import opened Utils
  import opened HealthTimeline
  import opened TemporalNetwork
  import opened Imputation
  import opened ParameterCodec

  // ---------------------------------------------------------------- orders

  /** Python's order on `(node, day1, day2)` tuples. */
  predicate KeyLe(a: SickKey, b: SickKey) {
    if a.0 != b.0 then StrLe(a.0, b.0) else IntervalLe((a.1, a.2), (b.1, b.2))
  }

  lemma KeyLeTotal()
    ensures TotalOrder(KeyLe)
  {
    StrLeTotal();
  }

  /** Python's order on `(node, day)` tuples. */
  predicate DateLe(a: (Node, int), b: (Node, int)) {
    if a.0 != b.0 then StrLe(a.0, b.0) else a.1 <= b.1
  }

  lemma DateLeTotal()
    ensures TotalOrder(DateLe)
  {
    StrLeTotal();
  }

  // ------------------------------------------------------------------ sums

  lemma {:induction false} SumOfBounds<T>(s: seq<T>, f: T -> real, g: T -> real)
    requires forall i :: 0 <= i < |s| ==> 0.0 <= f(s[i]) <= g(s[i])
    ensures 0.0 <= SumOf(s, f) <= SumOf(s, g)
  {
    if s != [] { SumOfBounds(s[1..], f, g); }
  }

  lemma {:induction false} SumOfZero<T>(s: seq<T>, f: T -> real)
    requires forall i :: 0 <= i < |s| ==> f(s[i]) == 0.0
    ensures SumOf(s, f) == 0.0
  {
    if s != [] { SumOfZero(s[1..], f); }
  }

  // ------------------------------------------------------ infected_strength

  /** `G[t].neighbors(node)`: the nodes sharing an edge with `node`. */
  function Neighbors(g: Graph, n: Node): set<Node> {
    set m | m in g.nodes && EdgeOf(n, m) in g.weight
  }

  /** `health_data_new[m].has_key(t) and health_data_new[m][t] == 1`. */
  predicate SickOn(health: map<Node, Reports>, m: Node, t: int) {
    m in health && t in health[m] && health[m][t] == 1
  }

  /** A neighbour's summand: the edge weight when the neighbour is sick at
      `t`, nothing otherwise. */
  function Contribution(g: Graph, n: Node, t: int, health: map<Node, Reports>, m: Node): real {
    if SickOn(health, m, t) && EdgeOf(n, m) in g.weight then g.weight[EdgeOf(n, m)] else 0.0
  }

  /** A neighbour's edge weight, sick or not. */
  function Incident(g: Graph, n: Node, m: Node): real {
    if EdgeOf(n, m) in g.weight then g.weight[EdgeOf(n, m)] else 0.0
  }

  /** The neighbours in ascending order; the sum does not depend on the
      order (`StrengthOrderFree`). */
  function NeighborList(g: Graph, n: Node): (ms: seq<Node>)
    ensures forall m :: m in ms <==> m in Neighbors(g, n)
    ensures multiset(ms) == multiset(Neighbors(g, n))
  {
    StrLeTotal();
    var ms := SortedSet(Neighbors(g, n), StrLe);
    DistinctListMultiset(ms, Neighbors(g, n));
    ms
  }

  /** `infected_strength(node, t, health_data_new, G)` on the graph
      `g = G[t]`: the weight of the edges to neighbours reported sick at `t`.
      Reading the health of a neighbour the table lacks raises `KeyError`. */
  function InfectedStrength(g: Graph, n: Node, t: int, health: map<Node, Reports>): Result<real> {
    if exists m :: m in Neighbors(g, n) && m !in health then Err(KeyError)
    else Ok(SumOf(NeighborList(g, n), m => Contribution(g, n, t, health, m)))
  }

  /** Any visiting order of the neighbours gives the same strength. */
  lemma StrengthOrderFree(g: Graph, n: Node, t: int, health: map<Node, Reports>, order: seq<Node>)
    requires multiset(order) == multiset(Neighbors(g, n))
    requires InfectedStrength(g, n, t, health).Ok?
    ensures InfectedStrength(g, n, t, health).value == SumOf(order, m => Contribution(g, n, t, health, m))
  {
    SumOfPermutation(NeighborList(g, n), order, m => Contribution(g, n, t, health, m));
  }

  /** The strength lies between 0 and the node's total incident weight; it
      is 0 when no neighbour is sick at `t` and the total when all are. */
  lemma StrengthBounds(g: Graph, n: Node, t: int, health: map<Node, Reports>)
    requires forall e :: e in g.weight ==> g.weight[e] >= 0.0
    requires InfectedStrength(g, n, t, health).Ok?
    ensures 0.0 <= InfectedStrength(g, n, t, health).value <= SumOf(NeighborList(g, n), m => Incident(g, n, m))
  {
    var ms := NeighborList(g, n);
    var f, w := (m => Contribution(g, n, t, health, m)), (m => Incident(g, n, m));
    forall i | 0 <= i < |ms| ensures 0.0 <= f(ms[i]) <= w(ms[i]) {
      ContributionBounds(g, n, t, health, ms[i]);
    }
    SumOfBounds(ms, f, w);
  }

  lemma ContributionBounds(g: Graph, n: Node, t: int, health: map<Node, Reports>, m: Node)
    requires forall e :: e in g.weight ==> g.weight[e] >= 0.0
    ensures 0.0 <= Contribution(g, n, t, health, m) <= Incident(g, n, m)
  {
  }

  lemma StrengthNoSickNeighbor(g: Graph, n: Node, t: int, health: map<Node, Reports>)
    requires InfectedStrength(g, n, t, health).Ok?
    requires forall m :: m in Neighbors(g, n) ==> !SickOn(health, m, t)
    ensures InfectedStrength(g, n, t, health).value == 0.0
  {
    SumOfZero(NeighborList(g, n), m => Contribution(g, n, t, health, m));
  }

  lemma {:induction false} SumOfSame<T>(s: seq<T>, f: T -> real, g: T -> real)
    requires forall i :: 0 <= i < |s| ==> f(s[i]) == g(s[i])
    ensures SumOf(s, f) == SumOf(s, g)
  {
    if s != [] { SumOfSame(s[1..], f, g); }
  }

  lemma StrengthAllSick(g: Graph, n: Node, t: int, health: map<Node, Reports>)
    requires forall m :: m in Neighbors(g, n) ==> SickOn(health, m, t)
    ensures InfectedStrength(g, n, t, health) == Ok(SumOf(NeighborList(g, n), m => Incident(g, n, m)))
  {
    SumOfSame(NeighborList(g, n), m => Contribution(g, n, t, health, m), m => Incident(g, n, m));
  }

  // ------------------------------------------------------- infected_degree

  /** Line 76: a node's pressure at timestep `t`, its strength when `G[t]`
      holds it and 0 otherwise. */
  function Pressure(net: Network, n: Node, t: int, health: map<Node, Reports>): Result<real>
    requires t in net
  {
    if n in net[t].nodes then InfectedStrength(net[t], n, t, health) else Ok(0.0)
  }

  /** `infected_degree[node][time]`. */
  type Pressures = map<Node, map<int, real>>

  predicate PressuresDefined(nodelist: seq<Node>, net: Network, health: map<Node, Reports>) {
    forall n, t :: n in nodelist && t in net ==> Pressure(net, n, t, health).Ok?
  }

  /** Lines 75-76: the pressure of every listed node at every timestep of
      the chosen network; the first strength that raises ends the call. */
  function InfectedDegree(nodelist: seq<Node>, net: Network, health: map<Node, Reports>): Result<Pressures> {
    if !PressuresDefined(nodelist, net, health) then Err(KeyError)
    else Ok(map n | n in nodelist :: map t | t in net :: Pressure(net, n, t, health).value)
  }

  /** Each entry of the table: non-negative under non-negative weights,
      0 for a node the timestep lacks, 0 when no neighbour is sick then. */
  lemma InfectedDegreeEntry(nodelist: seq<Node>, net: Network, health: map<Node, Reports>, n: Node, t: int)
    requires InfectedDegree(nodelist, net, health).Ok?
    requires n in nodelist && t in net
    requires forall e :: e in net[t].weight ==> net[t].weight[e] >= 0.0
    ensures var d := InfectedDegree(nodelist, net, health).value;
      && n in d && t in d[n]
      && d[n][t] >= 0.0
      && (n !in net[t].nodes ==> d[n][t] == 0.0)
      && ((forall m :: m in Neighbors(net[t], n) ==> !SickOn(health, m, t)) ==> d[n][t] == 0.0)
  {
    if n in net[t].nodes {
      StrengthBounds(net[t], n, t, health);
      if forall m :: m in Neighbors(net[t], n) ==> !SickOn(health, m, t) {
        StrengthNoSickNeighbor(net[t], n, t, health);
      }
    }
  }

  /** The table is built unless a present node has a neighbour without a
      health record at that timestep. */
  lemma InfectedDegreeDefined(nodelist: seq<Node>, net: Network, health: map<Node, Reports>)
    ensures InfectedDegree(nodelist, net, health).Ok? <==>
      forall n, t, m :: n in nodelist && t in net && n in net[t].nodes && m in Neighbors(net[t], n) ==> m in health
  {
    forall n, t | n in nodelist && t in net && n in net[t].nodes {
      StrengthDefined(net[t], n, t, health);
    }
  }

  /** The strength is defined exactly when every neighbour has a health
      record; otherwise the lookup raises `KeyError`. */
  lemma StrengthDefined(g: Graph, n: Node, t: int, health: map<Node, Reports>)
    ensures InfectedStrength(g, n, t, health).Ok? <==> forall m :: m in Neighbors(g, n) ==> m in health
    ensures InfectedStrength(g, n, t, health).Err? ==> InfectedStrength(g, n, t, health).failure == KeyError
  {
  }

  // -------------------------------------------------------- network choice

  /** Lines 31-37: the index of the network scored. Under null comparison
      the `model` parameter ranks it among `len(G_raw)` networks; otherwise
      it is 0. An index `G_raw` lacks raises `KeyError`. */
  function ChooseNetwork(gRaw: map<nat, Network>, nullComparison: bool, model: real): Result<nat> {
    var index := if nullComparison then Rank(model, |gRaw|) else Ok(0);
    match index
    case Err(e) => Err(e)
    case Ok(k) => if k < 0 || k !in gRaw then Err(KeyError) else Ok(k)
  }

  /** With networks numbered 0 .. n-1 (as the driver builds them) and a
      `model` parameter the prior admits, some network is always chosen;
      without null comparison it is network 0. */
  lemma ChooseNetworkIn(gRaw: map<nat, Network>, nullComparison: bool, model: real)
    requires forall k: nat :: k < |gRaw| ==> k in gRaw
    requires |gRaw| >= 1
    requires 0.000001 <= model <= 1.0
    ensures ChooseNetwork(gRaw, nullComparison, model).Ok?
    ensures ChooseNetwork(gRaw, nullComparison, model).value < |gRaw|
    ensures !nullComparison ==> ChooseNetwork(gRaw, nullComparison, model).value == 0
  {
    RankIsQuantile(model, |gRaw|);
  }

  /** With a single network every admissible `model` picks it. */
  lemma ChooseSingleNetwork(gRaw: map<nat, Network>, nullComparison: bool, model: real)
    requires 0 in gRaw && |gRaw| == 1
    requires 0.000001 <= model <= 1.0
    ensures ChooseNetwork(gRaw, nullComparison, model) == Ok(0)
  {
    RankSingle(model);
  }

  // ------------------------------------------------- diagnosis-lag imputation

  /** `int(ss.uniform.ppf(q, loc, scale))`: the quantile of the uniform
      distribution on [loc, loc + scale], truncated. A probability outside
      [0, 1] or a scale that is not positive gives NaN, which `int` refuses. */
  function UniformDay(q: real, loc: int, scale: int): Result<int> {
    if scale <= 0 || q < 0.0 || q > 1.0 then Err(ValueError)
    else Ok(Trunc(loc as real + q * scale as real))
  }

  /** The truncated quantile stays between the two integer ends. */
  lemma UniformDayBounds(q: real, loc: int, scale: int)
    requires scale > 0 && 0.0 <= q <= 1.0
    ensures UniformDay(q, loc, scale).Ok?
    ensures loc <= UniformDay(q, loc, scale).value <= loc + scale
  {
    MulBoundsLe(q, scale as real);
    TruncBetween(loc as real + q * scale as real, loc, loc + scale);
  }

  lemma TruncBetween(x: real, a: int, b: int)
    requires a as real <= x <= b as real
    ensures a <= Trunc(x) <= b
  {
  }

  lemma MulBoundsLe(q: real, m: real)
    requires 0.0 <= q <= 1.0 && m >= 0.0
    ensures 0.0 <= q * m <= m
  {
  }

  /** What the imputation has built so far: the infection dates and the two
      deep copies, `node_health_new` and `health_data_new`. */
  datatype Imputed = Imputed(infectionDate: seq<(Node, int)>, nodeHealth: map<Node, NodeHealth>,
                             healthData: map<Node, Reports>)

  /** The imputation either completes, makes the likelihood `-inf`, or raises. */
  datatype Outcome = Feasible(state: Imputed) | Infeasible | Failed(failure: Failure)

  /** Lines 52-59: the imputed recovery day. Without recovery it is the
      reported `time2`; with it, a uniform draw between the infection day
      and the recovery bound of the interval. */
  function RecoveryDay(k: SickKey, newInf: int, recovery: map<SickKey, int>, gamma: Option<real>): Result<int> {
    match gamma
    case None => Ok(k.2)
    case Some(g) => if k !in recovery then Err(KeyError) else UniformDay(g, newInf, recovery[k] - newInf)
  }

  /** Lines 63-66: the censored interval `(time1, time2)` of the node gives
      way to `(newInf, newRec)` and every day of the new interval is marked
      sick. A node without a sick list raises `KeyError`, an interval the
      list lacks `ValueError`; the day loop reads the node's reports only
      when the new interval is not empty. */
  function Replace(st: Imputed, k: SickKey, newInf: int, newRec: int): Outcome {
    if k.0 !in st.nodeHealth || st.nodeHealth[k.0].sick.None? then Failed(KeyError)
    else match RemoveFirst(st.nodeHealth[k.0].sick.value, (k.1, k.2))
      case None => Failed(ValueError)
      case Some(rest) =>
        var nodeHealth := st.nodeHealth[k.0 := st.nodeHealth[k.0].(sick := Some(rest + [(newInf, newRec)]))];
        if newInf > newRec then Feasible(Imputed(st.infectionDate + [(k.0, newInf)], nodeHealth, st.healthData))
        else if k.0 !in st.healthData then Failed(KeyError)
        else Feasible(Imputed(st.infectionDate + [(k.0, newInf)], nodeHealth,
                              st.healthData[k.0 := Filled(st.healthData[k.0], newInf - 1, newRec + 1, 1)]))
  }

  /** One pass of the loop at lines 49-66 for the key `k` and its raw
      diag_lag parameter `d`: clamp it, rank it among the candidate days,
      impute the recovery day, reject a recovery day not after `time2`, and
      replace the interval. An empty candidate list has no rank. */
  function ImputeStep(st: Imputed, k: SickKey, d: real, contact: map<SickKey, seq<int>>,
                      recovery: map<SickKey, int>, gamma: Option<real>): Outcome
    requires k in contact
  {
    var days := contact[k];
    if |days| == 0 then Failed(ValueError)
    else
      var newInf := InfectionPick(days, d);
      match RecoveryDay(k, newInf, recovery, gamma)
      case Err(e) => Failed(e)
      case Ok(newRec) =>
        if gamma.Some? && newRec <= k.2 then Infeasible
        else Replace(st, k, newInf, newRec)
  }

  /** Lines 50-51: the candidate day at the rank of the clamped parameter. */
  function InfectionPick(days: seq<int>, d: real): (day: int)
    requires |days| >= 1
    ensures day in days
  {
    ClampedRankInRange(d, |days|);
    days[Rank(Clamp(d), |days|).value]
  }

  /** A single candidate day is always the one imputed. */
  lemma InfectionPickSingle(day: int, d: real)
    ensures InfectionPick([day], d) == day
  {
    ClampedRankInRange(d, 1);
  }

  predicate KeysIn(steps: seq<(SickKey, real)>, contact: map<SickKey, seq<int>>) {
    forall i :: 0 <= i < |steps| ==> steps[i].0 in contact
  }

  /** The loop over `steps`, stopping at the first pass that does not
      complete. */
  function ImputeAll(st: Imputed, steps: seq<(SickKey, real)>, contact: map<SickKey, seq<int>>,
                     recovery: map<SickKey, int>, gamma: Option<real>): Outcome
    requires KeysIn(steps, contact)
  {
    if steps == [] then Feasible(st)
    else
      var last := steps[|steps| - 1];
      match ImputeAll(st, steps[..|steps| - 1], contact, recovery, gamma)
      case Feasible(s) => ImputeStep(s, last.0, last.1, contact, recovery, gamma)
      case other => other
  }

  /** Line 49: the candidate lists' keys in sorted order, paired with the
      diag_lag parameters by `zip`. */
  function DiagSteps(contact: map<SickKey, seq<int>>, diagList: seq<real>): (steps: seq<(SickKey, real)>)
    ensures KeysIn(steps, contact)
  {
    KeyLeTotal();
    Zip(SortedSet(contact.Keys, KeyLe), diagList)
  }

  /** Lines 46-66 on the deep copies of the health tables. */
  function DiagLagImputation(contact: map<SickKey, seq<int>>, recovery: map<SickKey, int>, gamma: Option<real>,
                             diagList: seq<real>, nodeHealth: map<Node, NodeHealth>, healthData: map<Node, Reports>)
    : Outcome
  {
    ImputeAll(Imputed([], nodeHealth, healthData), DiagSteps(contact, diagList), contact, recovery, gamma)
  }

  /** The diagnosis-lag branch of `log_likelihood`. */
  method ImputeDiagLag(contact: map<SickKey, seq<int>>, recovery: map<SickKey, int>, gamma: Option<real>,
                       diagList: seq<real>, nodeHealth: map<Node, NodeHealth>, healthData: map<Node, Reports>)
    returns (r: Outcome)
    ensures r == DiagLagImputation(contact, recovery, gamma, diagList, nodeHealth, healthData)
  {
    var steps := DiagSteps(contact, diagList);
    r := ImputeSteps(Imputed([], nodeHealth, healthData), steps, contact, recovery, gamma);
  }

  /** The loop itself, updating the copies in place. */
  method ImputeSteps(st0: Imputed, steps: seq<(SickKey, real)>, contact: map<SickKey, seq<int>>,
                     recovery: map<SickKey, int>, gamma: Option<real>)
    returns (r: Outcome)
    requires KeysIn(steps, contact)
    ensures r == ImputeAll(st0, steps, contact, recovery, gamma)
  {
    var st := st0;
    for i := 0 to |steps|
      invariant ImputeAll(st0, steps[..i], contact, recovery, gamma) == Feasible(st)
    {
      assert steps[..i + 1][..i] == steps[..i];
      r := ImputePass(st, steps[i].0, steps[i].1, contact, recovery, gamma);
      assert ImputeAll(st0, steps[..i + 1], contact, recovery, gamma) == r;
      if !r.Feasible? {
        ImputeAllStops(st0, steps, contact, recovery, gamma, i + 1);
        return;
      }
      st := r.state;
    }
    assert steps[..|steps|] == steps;
    r := Feasible(st);
  }

  /** One pass of the loop body: the list removal and append, and the day
      loop marking the new interval sick. */
  method ImputePass(st: Imputed, k: SickKey, d: real, contact: map<SickKey, seq<int>>,
                    recovery: map<SickKey, int>, gamma: Option<real>)
    returns (r: Outcome)
    requires k in contact
    ensures r == ImputeStep(st, k, d, contact, recovery, gamma)
  {
    var days := contact[k];
    if |days| == 0 { return Failed(ValueError); }
    var newInf := InfectionPick(days, d);
    var newRec := k.2;
    var infectionDate := st.infectionDate + [(k.0, newInf)];
    if gamma.Some? {
      if k !in recovery { return Failed(KeyError); }
      var day := UniformDay(gamma.value, newInf, recovery[k] - newInf);
      if day.Err? { return Failed(day.failure); }
      newRec := day.value;
      if newRec <= k.2 { return Infeasible; }
    }
    if k.0 !in st.nodeHealth || st.nodeHealth[k.0].sick.None? { return Failed(KeyError); }
    var rest := RemoveFirst(st.nodeHealth[k.0].sick.value, (k.1, k.2));
    if rest.None? { return Failed(ValueError); }
    var nodeHealthNew := st.nodeHealth[k.0 := st.nodeHealth[k.0].(sick := Some(rest.value + [(newInf, newRec)]))];
    var healthDataNew := st.healthData;
    if newInf <= newRec {
      if k.0 !in healthDataNew { return Failed(KeyError); }
      var h := FillRange(healthDataNew[k.0], newInf - 1, newRec + 1, 1);
      healthDataNew := healthDataNew[k.0 := h];
    }
    r := Feasible(Imputed(infectionDate, nodeHealthNew, healthDataNew));
  }

  /** Once a pass does not complete, the rest of the loop never runs. */
  lemma {:induction false} ImputeAllStops(st0: Imputed, steps: seq<(SickKey, real)>, contact: map<SickKey, seq<int>>,
                                          recovery: map<SickKey, int>, gamma: Option<real>, j: int)
    requires KeysIn(steps, contact) && 0 <= j <= |steps|
    requires !ImputeAll(st0, steps[..j], contact, recovery, gamma).Feasible?
    ensures ImputeAll(st0, steps, contact, recovery, gamma) == ImputeAll(st0, steps[..j], contact, recovery, gamma)
    decreases |steps|
  {
    if j < |steps| {
      var init := steps[..|steps| - 1];
      assert init[..j] == steps[..j];
      ImputeAllStops(st0, init, contact, recovery, gamma, j);
    } else {
      assert steps[..j] == steps;
    }
  }

  // ------------------------------------------------ what one pass changes

  /** The imputed recovery day: `time2` without recovery; with it, a day
      from the infection day up to the interval's recovery bound when the
      bound lies after the infection day and `gamma` is a probability. */
  lemma RecoveryDayBounds(k: SickKey, newInf: int, recovery: map<SickKey, int>, gamma: Option<real>)
    ensures gamma.None? ==> RecoveryDay(k, newInf, recovery, gamma) == Ok(k.2)
    ensures gamma.Some? && k !in recovery ==> RecoveryDay(k, newInf, recovery, gamma) == Err(KeyError)
    ensures gamma.Some? && k in recovery && 0.0 <= gamma.value <= 1.0 && recovery[k] > newInf ==>
      RecoveryDay(k, newInf, recovery, gamma).Ok? &&
      newInf <= RecoveryDay(k, newInf, recovery, gamma).value <= recovery[k]
    ensures gamma.Some? && k in recovery && recovery[k] <= newInf ==>
      RecoveryDay(k, newInf, recovery, gamma) == Err(ValueError)
  {
    if gamma.Some? && k in recovery && 0.0 <= gamma.value <= 1.0 && recovery[k] > newInf {
      UniformDayBounds(gamma.value, newInf, recovery[k] - newInf);
    }
  }

  /** Line 62: a pass makes the likelihood `-inf` exactly when recovery
      is modelled and the imputed recovery day is not after `time2`. */
  lemma ImputeStepInfeasible(st: Imputed, k: SickKey, d: real, contact: map<SickKey, seq<int>>,
                             recovery: map<SickKey, int>, gamma: Option<real>)
    requires k in contact
    ensures ImputeStep(st, k, d, contact, recovery, gamma).Infeasible? <==>
      && |contact[k]| >= 1
      && gamma.Some?
      && RecoveryDay(k, InfectionPick(contact[k], d), recovery, gamma).Ok?
      && RecoveryDay(k, InfectionPick(contact[k], d), recovery, gamma).value <= k.2
  {
    if |contact[k]| >= 1 {
      var newInf := InfectionPick(contact[k], d);
      match RecoveryDay(k, newInf, recovery, gamma)
      case Err(_) =>
      case Ok(newRec) =>
        if !(gamma.Some? && newRec <= k.2) {
          ReplaceNeverInfeasible(st, k, newInf, newRec);
        }
    }
  }

  lemma ReplaceNeverInfeasible(st: Imputed, k: SickKey, newInf: int, newRec: int)
    ensures !Replace(st, k, newInf, newRec).Infeasible?
  {
  }

  /** Lines 53 and 63-64: a completed pass records the infection day, which
      is one of the interval's candidate days, and the node's censored
      interval gives way to the imputed one, appended last. Its healthy
      intervals and every other node stay as they were. */
  lemma ImputeStepInterval(st: Imputed, k: SickKey, d: real, contact: map<SickKey, seq<int>>,
                           recovery: map<SickKey, int>, gamma: Option<real>)
    requires k in contact
    requires ImputeStep(st, k, d, contact, recovery, gamma).Feasible?
    ensures |contact[k]| >= 1
    ensures RecoveryDay(k, InfectionPick(contact[k], d), recovery, gamma).Ok?
    ensures var st' := ImputeStep(st, k, d, contact, recovery, gamma).state;
      var newInf := InfectionPick(contact[k], d);
      var newRec := RecoveryDay(k, newInf, recovery, gamma).value;
      && newInf in contact[k]
      && (gamma.None? ==> newRec == k.2)
      && (gamma.Some? ==> newRec > k.2)
      && st'.infectionDate == st.infectionDate + [(k.0, newInf)]
      && k.0 in st.nodeHealth && st.nodeHealth[k.0].sick.Some?
      && (k.1, k.2) in st.nodeHealth[k.0].sick.value
      && k.0 in st'.nodeHealth && st'.nodeHealth[k.0].sick.Some?
      && st'.nodeHealth[k.0].healthy == st.nodeHealth[k.0].healthy
      && multiset(st'.nodeHealth[k.0].sick.value) ==
         multiset(st.nodeHealth[k.0].sick.value) - multiset{(k.1, k.2)} + multiset{(newInf, newRec)}
      && st'.nodeHealth[k.0].sick.value[|st'.nodeHealth[k.0].sick.value| - 1] == (newInf, newRec)
      && (forall n :: n != k.0 ==> (n in st'.nodeHealth <==> n in st.nodeHealth))
      && (forall n :: n != k.0 && n in st.nodeHealth ==> st'.nodeHealth[n] == st.nodeHealth[n])
  {
    var newInf := InfectionPick(contact[k], d);
    var newRec := RecoveryDay(k, newInf, recovery, gamma).value;
    RemoveFirstMeans(st.nodeHealth[k.0].sick.value, (k.1, k.2));
    var rest := RemoveFirst(st.nodeHealth[k.0].sick.value, (k.1, k.2)).value;
    assert multiset(rest + [(newInf, newRec)]) == multiset(rest) + multiset{(newInf, newRec)};
  }

  lemma ImputeStepDate(st: Imputed, k: SickKey, d: real, contact: map<SickKey, seq<int>>,
                       recovery: map<SickKey, int>, gamma: Option<real>)
    requires k in contact
    requires ImputeStep(st, k, d, contact, recovery, gamma).Feasible?
    ensures |contact[k]| >= 1
    ensures ImputeStep(st, k, d, contact, recovery, gamma).state.infectionDate ==
      st.infectionDate + [(k.0, InfectionPick(contact[k], d))]
  {
  }

  /** Line 66: a completed pass marks every day of the imputed interval sick
      in the node's reports; no other day and no other node changes. */
  lemma ImputeStepDays(st: Imputed, k: SickKey, d: real, contact: map<SickKey, seq<int>>,
                       recovery: map<SickKey, int>, gamma: Option<real>)
    requires k in contact
    requires ImputeStep(st, k, d, contact, recovery, gamma).Feasible?
    ensures |contact[k]| >= 1
    ensures RecoveryDay(k, InfectionPick(contact[k], d), recovery, gamma).Ok?
    ensures var st' := ImputeStep(st, k, d, contact, recovery, gamma).state;
      var newInf := InfectionPick(contact[k], d);
      var newRec := RecoveryDay(k, newInf, recovery, gamma).value;
      && (forall day :: newInf <= day <= newRec ==> SickOn(st'.healthData, k.0, day))
      && (k.0 in st'.healthData <==> k.0 in st.healthData)
      && (k.0 in st.healthData ==> forall day :: !(newInf <= day <= newRec) ==>
            (day in st'.healthData[k.0] <==> day in st.healthData[k.0]) &&
            (day in st.healthData[k.0] ==> st'.healthData[k.0][day] == st.healthData[k.0][day]))
      && (forall n :: n != k.0 ==> (n in st'.healthData <==> n in st.healthData))
      && (forall n :: n != k.0 && n in st.healthData ==> st'.healthData[n] == st.healthData[n])
  {
  }

  // ---------------------------------------------- what the whole loop does

  /** A completed loop adds one infection date per pass, in order, each for
      the pass's node and on one of its candidate days. */
  lemma {:induction false} ImputeAllDates(st: Imputed, steps: seq<(SickKey, real)>, contact: map<SickKey, seq<int>>,
                                          recovery: map<SickKey, int>, gamma: Option<real>)
    requires KeysIn(steps, contact)
    requires ImputeAll(st, steps, contact, recovery, gamma).Feasible?
    ensures var dates := ImputeAll(st, steps, contact, recovery, gamma).state.infectionDate;
      && |dates| == |st.infectionDate| + |steps|
      && dates[..|st.infectionDate|] == st.infectionDate
      && forall i :: 0 <= i < |steps| ==>
           dates[|st.infectionDate| + i].0 == steps[i].0.0 && dates[|st.infectionDate| + i].1 in contact[steps[i].0]
  {
    if steps != [] {
      var init, last := steps[..|steps| - 1], steps[|steps| - 1];
      var mid := ImputeAll(st, init, contact, recovery, gamma);
      assert mid.Feasible?;
      ImputeAllDates(st, init, contact, recovery, gamma);
      ImputeStepDate(mid.state, last.0, last.1, contact, recovery, gamma);
      var dates := ImputeAll(st, steps, contact, recovery, gamma).state.infectionDate;
      forall i | 0 <= i < |steps|
        ensures dates[|st.infectionDate| + i].0 == steps[i].0.0 && dates[|st.infectionDate| + i].1 in contact[steps[i].0]
      {
        if i < |init| {
          assert steps[i] == init[i];
          assert dates[|st.infectionDate| + i] == mid.state.infectionDate[|st.infectionDate| + i];
        }
      }
    }
  }

  /** A node that no pass names keeps its health intervals and reports. */
  lemma {:induction false} ImputeAllFrame(st: Imputed, steps: seq<(SickKey, real)>, contact: map<SickKey, seq<int>>,
                                          recovery: map<SickKey, int>, gamma: Option<real>, n: Node)
    requires KeysIn(steps, contact)
    requires ImputeAll(st, steps, contact, recovery, gamma).Feasible?
    requires forall i :: 0 <= i < |steps| ==> steps[i].0.0 != n
    ensures var st' := ImputeAll(st, steps, contact, recovery, gamma).state;
      && (n in st'.nodeHealth <==> n in st.nodeHealth)
      && (n in st.nodeHealth ==> st'.nodeHealth[n] == st.nodeHealth[n])
      && (n in st'.healthData <==> n in st.healthData)
      && (n in st.healthData ==> st'.healthData[n] == st.healthData[n])
  {
    if steps != [] {
      var init, last := steps[..|steps| - 1], steps[|steps| - 1];
      var mid := ImputeAll(st, init, contact, recovery, gamma);
      assert mid.Feasible?;
      ImputeAllFrame(st, init, contact, recovery, gamma, n);
      ImputeStepInterval(mid.state, last.0, last.1, contact, recovery, gamma);
      ImputeStepDays(mid.state, last.0, last.1, contact, recovery, gamma);
    }
  }

  /** The branch as a whole: one infection date per interval key paired
      with a parameter (`zip` stops at the shorter list), each for the key's
      node on one of its candidate days. */
  lemma DiagLagImputationDates(contact: map<SickKey, seq<int>>, recovery: map<SickKey, int>, gamma: Option<real>,
                               diagList: seq<real>, nodeHealth: map<Node, NodeHealth>, healthData: map<Node, Reports>)
    requires DiagLagImputation(contact, recovery, gamma, diagList, nodeHealth, healthData).Feasible?
    ensures var dates := DiagLagImputation(contact, recovery, gamma, diagList, nodeHealth, healthData).state.infectionDate;
      && |dates| == (if |contact| <= |diagList| then |contact| else |diagList|)
      && forall i :: 0 <= i < |dates| ==> KeyedDate(contact, dates[i])
  {
    var steps := DiagSteps(contact, diagList);
    var st := Imputed([], nodeHealth, healthData);
    assert DiagLagImputation(contact, recovery, gamma, diagList, nodeHealth, healthData) == ImputeAll(st, steps, contact, recovery, gamma);
    StepsLength(contact, diagList);
    ImputeAllKeyed(st, steps, contact, recovery, gamma);
  }

  /** Every date the loop appends is for the node of an interval key, on one
      of that key's candidate days. */
  lemma ImputeAllKeyed(st: Imputed, steps: seq<(SickKey, real)>, contact: map<SickKey, seq<int>>,
                       recovery: map<SickKey, int>, gamma: Option<real>)
    requires KeysIn(steps, contact)
    requires ImputeAll(st, steps, contact, recovery, gamma).Feasible?
    ensures var dates := ImputeAll(st, steps, contact, recovery, gamma).state.infectionDate;
      && |dates| == |st.infectionDate| + |steps|
      && forall i :: |st.infectionDate| <= i < |dates| ==> KeyedDate(contact, dates[i])
  {
    ImputeAllDates(st, steps, contact, recovery, gamma);
    var dates := ImputeAll(st, steps, contact, recovery, gamma).state.infectionDate;
    var off := |st.infectionDate|;
    forall i | off <= i < |dates| ensures KeyedDate(contact, dates[i]) {
      var j := i - off;
      assert steps[j].0 in contact && dates[off + j] == dates[i];
      assert KeyedDate(contact, dates[off + j]);
    }
  }

  /** An infection date for the node of some interval key, on one of that
      key's candidate days. */
  ghost predicate KeyedDate(contact: map<SickKey, seq<int>>, date: (Node, int)) {
    exists k :: k in contact && k.0 == date.0 && date.1 in contact[k]
  }

  lemma StepsLength(contact: map<SickKey, seq<int>>, diagList: seq<real>)
    ensures |DiagSteps(contact, diagList)| == if |contact| <= |diagList| then |contact| else |diagList|
  {
    KeyLeTotal();
    assert |SortedSet(contact.Keys, KeyLe)| == |contact.Keys| == |contact|;
  }

  /** A node without an interval key keeps its health intervals and
      reports: only censored intervals are rewritten. */
  lemma DiagLagImputationFrame(contact: map<SickKey, seq<int>>, recovery: map<SickKey, int>, gamma: Option<real>,
                               diagList: seq<real>, nodeHealth: map<Node, NodeHealth>, healthData: map<Node, Reports>,
                               n: Node)
    requires DiagLagImputation(contact, recovery, gamma, diagList, nodeHealth, healthData).Feasible?
    requires forall k :: k in contact ==> k.0 != n
    ensures var st' := DiagLagImputation(contact, recovery, gamma, diagList, nodeHealth, healthData).state;
      && (n in st'.nodeHealth <==> n in nodeHealth) && (n in nodeHealth ==> st'.nodeHealth[n] == nodeHealth[n])
      && (n in st'.healthData <==> n in healthData) && (n in healthData ==> st'.healthData[n] == healthData[n])
  {
    var steps := DiagSteps(contact, diagList);
    forall i | 0 <= i < |steps| ensures steps[i].0.0 != n {
      assert steps[i].0 in contact;
    }
    ImputeAllFrame(Imputed([], nodeHealth, healthData), steps, contact, recovery, gamma, n);
  }

  // ------------------------------------- infection dates without diag lag

  /** The nodes of a health table in the order the model visits them
      (ascending; the lists built from it are sorted before use). */
  function NodeOrder(nodeHealth: map<Node, NodeHealth>): (ns: seq<Node>)
    ensures forall n :: n in ns <==> n in nodeHealth
  {
    StrLeTotal();
    SortedSet(nodeHealth.Keys, StrLe)
  }

  /** `(node, time1)` for each sick interval of the node, in list order. */
  function StartsOf(n: Node, ivs: seq<Interval>): (r: seq<(Node, int)>)
    ensures |r| == |ivs|
    ensures forall i :: 0 <= i < |ivs| ==> r[i] == (n, ivs[i].0)
  {
    if ivs == [] then [] else StartsOf(n, ivs[..|ivs| - 1]) + [(n, ivs[|ivs| - 1].0)]
  }

  function InfectionStarts(nodeHealth: map<Node, NodeHealth>, nodes: seq<Node>): seq<(Node, int)> {
    if nodes == [] then []
    else
      var n := nodes[|nodes| - 1];
      InfectionStarts(nodeHealth, nodes[..|nodes| - 1]) +
        (if n in nodeHealth && nodeHealth[n].sick.Some? then StartsOf(n, nodeHealth[n].sick.value) else [])
  }

  /** Lines 68-72: the first day of every sick interval of every node. */
  function ReportedInfections(nodeHealth: map<Node, NodeHealth>): seq<(Node, int)> {
    InfectionStarts(nodeHealth, NodeOrder(nodeHealth))
  }

  /** A date is listed exactly when it starts a sick interval of a visited node. */
  lemma {:induction false} InfectionStartsMeans(nodeHealth: map<Node, NodeHealth>, nodes: seq<Node>, x: (Node, int))
    ensures x in InfectionStarts(nodeHealth, nodes) <==>
      x.0 in nodes && x.0 in nodeHealth && nodeHealth[x.0].sick.Some? &&
      exists i :: 0 <= i < |nodeHealth[x.0].sick.value| && nodeHealth[x.0].sick.value[i].0 == x.1
  {
    if nodes != [] {
      var init, n := nodes[..|nodes| - 1], nodes[|nodes| - 1];
      InfectionStartsMeans(nodeHealth, init, x);
      LastSplit(nodes, x.0);
      if x.0 == n && n in nodeHealth && nodeHealth[n].sick.Some? {
        var ivs := nodeHealth[n].sick.value;
        if exists i :: 0 <= i < |ivs| && ivs[i].0 == x.1 {
          var i :| 0 <= i < |ivs| && ivs[i].0 == x.1;
          assert StartsOf(n, ivs)[i] == x;
        }
      }
    }
  }

  lemma ReportedInfectionsMeans(nodeHealth: map<Node, NodeHealth>, x: (Node, int))
    ensures x in ReportedInfections(nodeHealth) <==>
      x.0 in nodeHealth && nodeHealth[x.0].sick.Some? &&
      exists i :: 0 <= i < |nodeHealth[x.0].sick.value| && nodeHealth[x.0].sick.value[i].0 == x.1
  {
    InfectionStartsMeans(nodeHealth, NodeOrder(nodeHealth), x);
  }

  /** The loop at lines 69-72. */
  method ReportedInfectionDates(nodeHealth: map<Node, NodeHealth>) returns (dates: seq<(Node, int)>)
    ensures dates == ReportedInfections(nodeHealth)
  {
    dates := StartsLoop(nodeHealth, NodeOrder(nodeHealth));
  }

  method StartsLoop(nodeHealth: map<Node, NodeHealth>, nodes: seq<Node>) returns (dates: seq<(Node, int)>)
    ensures dates == InfectionStarts(nodeHealth, nodes)
  {
    dates := [];
    for i := 0 to |nodes|
      invariant dates == InfectionStarts(nodeHealth, nodes[..i])
    {
      var n := nodes[i];
      assert nodes[..i + 1][..i] == nodes[..i];
      if n in nodeHealth && nodeHealth[n].sick.Some? {
        dates := AppendStarts(dates, n, nodeHealth[n].sick.value);
      }
    }
    assert nodes[..|nodes|] == nodes;
  }

  /** The inner loop: one `append` per sick interval of the node. */
  method AppendStarts(before: seq<(Node, int)>, n: Node, ivs: seq<Interval>) returns (dates: seq<(Node, int)>)
    ensures dates == before + StartsOf(n, ivs)
  {
    dates := before;
    for j := 0 to |ivs|
      invariant dates == before + StartsOf(n, ivs[..j])
    {
      assert ivs[..j + 1][..j] == ivs[..j];
      dates := dates + [(n, ivs[j].0)];
    }
    assert ivs[..|ivs|] == ivs;
  }

  // ------------------------------------------------------- learning terms

  /** Line 99: `infected_degree[node][date - 1]`, the pressure of the day
      before; a missing node or timestep raises `KeyError`. */
  function PressureBefore(degree: Pressures, n: Node, date: int): Result<real> {
    if n !in degree || date - 1 !in degree[n] then Err(KeyError) else Ok(degree[n][date - 1])
  }

  function PressuresOf(dates: seq<(Node, int)>, degree: Pressures): Result<seq<real>> {
    if dates == [] then Ok([])
    else
      var last := dates[|dates| - 1];
      match PressuresOf(dates[..|dates| - 1], degree)
      case Err(e) => Err(e)
      case Ok(init) =>
        match PressureBefore(degree, last.0, last.1)
        case Err(e) => Err(e)
        case Ok(x) => Ok(init + [x])
  }

  /** One pressure per date, each read on the day before; the list exists
      exactly when every such lookup does. */
  lemma {:induction false} PressuresOfMeans(dates: seq<(Node, int)>, degree: Pressures)
    ensures PressuresOf(dates, degree).Ok? <==>
      forall i :: 0 <= i < |dates| ==> PressureBefore(degree, dates[i].0, dates[i].1).Ok?
    ensures PressuresOf(dates, degree).Err? ==> PressuresOf(dates, degree).failure == KeyError
    ensures PressuresOf(dates, degree).Ok? ==>
      && |PressuresOf(dates, degree).value| == |dates|
      && forall i :: 0 <= i < |dates| ==>
           (dates[i].0 in degree && dates[i].1 - 1 in degree[dates[i].0] &&
            PressuresOf(dates, degree).value[i] == degree[dates[i].0][dates[i].1 - 1])
  {
    if dates != [] {
      var init := dates[..|dates| - 1];
      PressuresOfMeans(init, degree);
      assert forall i :: 0 <= i < |init| ==> init[i] == dates[i];
    }
  }

  /** Line 79's list: `sorted(infection_date)` without the seed-date infections. */
  function LearnDates(infectionDate: seq<(Node, int)>, seedDate: int): seq<(Node, int)> {
    Filter(Sort(infectionDate, DateLe), (x: (Node, int)) => x.1 != seedDate)
  }

  /** Line 79: the pressure behind each learning term. */
  function LearnTerms(infectionDate: seq<(Node, int)>, seedDate: int, degree: Pressures): Result<seq<real>> {
    PressuresOf(LearnDates(infectionDate, seedDate), degree)
  }

  lemma {:induction false} FilterSorted<T(!new)>(s: seq<T>, p: T -> bool, le: (T, T) -> bool)
    requires SortedBy(s, le)
    ensures SortedBy(Filter(s, p), le)
  {
    if s != [] {
      FilterSorted(s[1..], p, le);
      var rest := Filter(s[1..], p);
      forall j | 0 <= j < |rest| ensures le(s[0], rest[j]) {
        assert rest[j] in s[1..];
      }
    }
  }

  /** One learning date per recorded infection not on the seed date, as
      many times as it was recorded, in ascending order. */
  lemma LearnDatesMeans(infectionDate: seq<(Node, int)>, seedDate: int, x: (Node, int))
    ensures SortedBy(LearnDates(infectionDate, seedDate), DateLe)
    ensures multiset(LearnDates(infectionDate, seedDate))[x] ==
      if x.1 == seedDate then 0 else multiset(infectionDate)[x]
  {
    DateLeTotal();
    SortSorted(infectionDate, DateLe);
    FilterSorted(Sort(infectionDate, DateLe), (x: (Node, int)) => x.1 != seedDate, DateLe);
    FilterCount(Sort(infectionDate, DateLe), (x: (Node, int)) => x.1 != seedDate, x);
  }

  // --------------------------------------------------- non-learning terms

  function KeysOf(n: Node, ivs: seq<Interval>): (r: seq<SickKey>)
    ensures |r| == |ivs|
    ensures forall i :: 0 <= i < |ivs| ==> r[i] == (n, ivs[i].0, ivs[i].1)
  {
    if ivs == [] then [] else KeysOf(n, ivs[..|ivs| - 1]) + [(n, ivs[|ivs| - 1].0, ivs[|ivs| - 1].1)]
  }

  function HealthyKeysOver(nodeHealth: map<Node, NodeHealth>, nodes: seq<Node>): seq<SickKey> {
    if nodes == [] then []
    else
      var n := nodes[|nodes| - 1];
      HealthyKeysOver(nodeHealth, nodes[..|nodes| - 1]) +
        (if n in nodeHealth && nodeHealth[n].healthy.Some? then KeysOf(n, nodeHealth[n].healthy.value) else [])
  }

  /** Line 83: `(node, day1, day2)` for every healthy interval. */
  function HealthyKeys(nodeHealth: map<Node, NodeHealth>): seq<SickKey> {
    HealthyKeysOver(nodeHealth, NodeOrder(nodeHealth))
  }

  lemma {:induction false} HealthyKeysOverMeans(nodeHealth: map<Node, NodeHealth>, nodes: seq<Node>, k: SickKey)
    ensures k in HealthyKeysOver(nodeHealth, nodes) <==>
      k.0 in nodes && k.0 in nodeHealth && nodeHealth[k.0].healthy.Some? && (k.1, k.2) in nodeHealth[k.0].healthy.value
  {
    if nodes != [] {
      var init, n := nodes[..|nodes| - 1], nodes[|nodes| - 1];
      HealthyKeysOverMeans(nodeHealth, init, k);
      LastSplit(nodes, k.0);
      if k.0 == n && n in nodeHealth && nodeHealth[n].healthy.Some? {
        var ivs := nodeHealth[n].healthy.value;
        if (k.1, k.2) in ivs {
          var i :| 0 <= i < |ivs| && ivs[i] == (k.1, k.2);
          assert KeysOf(n, ivs)[i] == k;
        }
      }
    }
  }

  /** Every healthy interval of every node is listed, and nothing else. */
  lemma HealthyKeysMeans(nodeHealth: map<Node, NodeHealth>, k: SickKey)
    ensures k in HealthyKeys(nodeHealth) <==>
      k.0 in nodeHealth && nodeHealth[k.0].healthy.Some? && (k.1, k.2) in nodeHealth[k.0].healthy.value
  {
    HealthyKeysOverMeans(nodeHealth, NodeOrder(nodeHealth), k);
  }

  /** Line 86: the pressures behind one healthy interval's terms, one per
      day `d1 .. d2` (both included), each read on the day before. */
  function DayPressures(degree: Pressures, n: Node, d1: int, d2: int): Result<seq<real>>
    decreases d2 - d1
  {
    if d2 < d1 then Ok([])
    else match DayPressures(degree, n, d1, d2 - 1)
      case Err(e) => Err(e)
      case Ok(init) =>
        match PressureBefore(degree, n, d2)
        case Err(e) => Err(e)
        case Ok(x) => Ok(init + [x])
  }

  /** One pressure per day of the interval, both ends included; the list
      exists exactly when every day's lookup does. */
  lemma {:induction false} DayPressuresMeans(degree: Pressures, n: Node, d1: int, d2: int)
    ensures DayPressures(degree, n, d1, d2).Ok? <==> forall date :: d1 <= date <= d2 ==> PressureBefore(degree, n, date).Ok?
    ensures DayPressures(degree, n, d1, d2).Err? ==> DayPressures(degree, n, d1, d2).failure == KeyError
    ensures DayPressures(degree, n, d1, d2).Ok? ==>
      |DayPressures(degree, n, d1, d2).value| == (if d2 < d1 then 0 else d2 - d1 + 1)
    decreases d2 - d1
  {
    if d1 <= d2 {
      DayPressuresMeans(degree, n, d1, d2 - 1);
    }
  }

  /** The `j`-th entry is the pressure on the day before day `d1 + j`. */
  lemma {:induction false} DayPressureAt(degree: Pressures, n: Node, d1: int, d2: int, j: int)
    requires DayPressures(degree, n, d1, d2).Ok?
    requires 0 <= j <= d2 - d1
    ensures |DayPressures(degree, n, d1, d2).value| == d2 - d1 + 1
    ensures n in degree && d1 + j - 1 in degree[n]
    ensures DayPressures(degree, n, d1, d2).value[j] == degree[n][d1 + j - 1]
    decreases d2 - d1
  {
    DayPressuresMeans(degree, n, d1, d2);
    DayPressuresMeans(degree, n, d1, d2 - 1);
    if j < d2 - d1 {
      DayPressureAt(degree, n, d1, d2 - 1, j);
    }
  }

  function NotLearnOver(keys: seq<SickKey>, degree: Pressures): Result<seq<seq<real>>> {
    if keys == [] then Ok([])
    else
      var k := keys[|keys| - 1];
      match NotLearnOver(keys[..|keys| - 1], degree)
      case Err(e) => Err(e)
      case Ok(init) =>
        match DayPressures(degree, k.0, k.1, k.2)
        case Err(e) => Err(e)
        case Ok(x) => Ok(init + [x])
  }

  /** Lines 83-87: the terms of the healthy intervals in sorted order. */
  function NotLearnTerms(nodeHealth: map<Node, NodeHealth>, degree: Pressures): Result<seq<seq<real>>> {
    NotLearnOver(Sort(HealthyKeys(nodeHealth), KeyLe), degree)
  }

  /** The loop at lines 85-87, appending one entry per healthy interval. */
  method NotLearnLoop(keys: seq<SickKey>, degree: Pressures) returns (r: Result<seq<seq<real>>>)
    ensures r == NotLearnOver(keys, degree)
  {
    var terms := [];
    for i := 0 to |keys|
      invariant NotLearnOver(keys[..i], degree) == Ok(terms)
    {
      assert keys[..i + 1][..i] == keys[..i];
      var k := keys[i];
      var x := DayPressures(degree, k.0, k.1, k.2);
      if x.Err? {
        NotLearnStops(keys, degree, i + 1);
        return Err(x.failure);
      }
      terms := terms + [x.value];
    }
    assert keys[..|keys|] == keys;
    r := Ok(terms);
  }

  lemma {:induction false} NotLearnStops(keys: seq<SickKey>, degree: Pressures, j: int)
    requires 0 <= j <= |keys| && NotLearnOver(keys[..j], degree).Err?
    ensures NotLearnOver(keys, degree) == NotLearnOver(keys[..j], degree)
    decreases |keys|
  {
    if j < |keys| {
      assert keys[..|keys| - 1][..j] == keys[..j];
      NotLearnStops(keys[..|keys| - 1], degree, j);
    } else {
      assert keys[..j] == keys;
    }
  }

  /** One entry per healthy interval, in the order of the keys, holding one
      pressure per day of the interval. */
  lemma {:induction false} NotLearnOverMeans(keys: seq<SickKey>, degree: Pressures, i: int)
    requires NotLearnOver(keys, degree).Ok? && 0 <= i < |keys|
    ensures |NotLearnOver(keys, degree).value| == |keys|
    ensures DayPressures(degree, keys[i].0, keys[i].1, keys[i].2) == Ok(NotLearnOver(keys, degree).value[i])
  {
    var init := keys[..|keys| - 1];
    NotLearnLength(keys, degree);
    if i < |init| {
      NotLearnOverMeans(init, degree, i);
      assert init[i] == keys[i];
    }
  }

  lemma {:induction false} NotLearnLength(keys: seq<SickKey>, degree: Pressures)
    requires NotLearnOver(keys, degree).Ok?
    ensures |NotLearnOver(keys, degree).value| == |keys|
  {
    if keys != [] { NotLearnLength(keys[..|keys| - 1], degree); }
  }

  // ------------------------------------------------------- log_likelihood

  /** The `data` tuple: the networks to compare, the daily health reports,
      the health intervals, the node list and the seed date. */
  datatype Data = Data(gRaw: map<nat, Network>, healthData: map<Node, Reports>,
                       nodeHealth: map<Node, NodeHealth>, nodelist: seq<Node>, seedDate: int)

  /** What the likelihood sums, term by term: the network scored, the
      pressure behind each learning term and, per healthy interval, the
      pressures behind its non-learning terms. */
  datatype Terms = Terms(network: nat, learn: seq<real>, notLearn: seq<seq<real>>)

  /** The likelihood is built from its terms, is `-inf` by the recovery
      check, or raises. */
  datatype Score = Scored(terms: Terms) | MinusInf | Raised(failure: Failure)

  /** Lines 45-72: the infection dates and the health tables the
      likelihood reads. The named view has a diag_lag field exactly when the
      diagnosis lag is modelled and a gamma field exactly when recovery is
      (`ToParamsLayout`), so the branches follow the fields. */
  function Infections(p: Params, data: Data, network: nat, contact: Daylists, recovery: map<SickKey, int>): Outcome {
    match p.diagLag
    case None => Feasible(Imputed(ReportedInfections(data.nodeHealth), data.nodeHealth, data.healthData))
    case Some(diagList) =>
      if network !in contact then Failed(KeyError)
      else DiagLagImputation(contact[network], recovery, p.gamma, diagList, data.nodeHealth, data.healthData)
  }

  /** Lines 75-87 on the imputed tables. */
  function TermsOf(st: Imputed, data: Data, network: nat): Score
    requires network in data.gRaw
  {
    match InfectedDegree(data.nodelist, data.gRaw[network], st.healthData)
    case Err(e) => Raised(e)
    case Ok(degree) =>
      match LearnTerms(st.infectionDate, data.seedDate, degree)
      case Err(e) => Raised(e)
      case Ok(learn) =>
        match NotLearnTerms(st.nodeHealth, degree)
        case Err(e) => Raised(e)
        case Ok(notLearn) => Scored(Terms(network, learn, notLearn))
  }

  /** The `model` parameter (unused without null comparison). */
  function ModelOf(p: Params): real {
    if p.model.Some? then p.model.value else 0.0
  }

  /** `log_likelihood(parameters, data, ...)` up to the hazard, with the
      candidate lists and recovery bounds of `start_nbda` as inputs. */
  function LikelihoodTerms(v: seq<real>, c: Config, data: Data, contact: Daylists, recovery: map<SickKey, int>): Score
    requires |v| == Size(c)
  {
    ScoreOf(ToParams(v, c), c.nullComparison, data, contact, recovery)
  }

  /** The same on the named view of the vector. */
  function ScoreOf(p: Params, nullComparison: bool, data: Data, contact: Daylists, recovery: map<SickKey, int>): Score {
    match ChooseNetwork(data.gRaw, nullComparison, ModelOf(p))
    case Err(e) => Raised(e)
    case Ok(network) =>
      match Infections(p, data, network, contact, recovery)
      case Infeasible => MinusInf
      case Failed(e) => Raised(e)
      case Feasible(st) => TermsOf(st, data, network)
  }

  /** The fields of the named view follow the configuration. */
  lemma ToParamsLayout(v: seq<real>, c: Config)
    requires |v| == Size(c)
    ensures ToParams(v, c).diagLag.Some? <==> c.diagLag
    ensures ToParams(v, c).gamma.Some? <==> c.recovery.RecoveryPrior?
    ensures ToParams(v, c).model.Some? <==> c.nullComparison
  {
    Layout(v, c);
  }

  /** `log_likelihood` step by step: the deep copies, the imputation loop or
      the reported infection dates, the pressure table and the two term
      lists. */
  method LogLikelihoodTerms(v: seq<real>, c: Config, data: Data, contact: Daylists, recovery: map<SickKey, int>)
    returns (r: Score)
    requires |v| == Size(c)
    ensures r == LikelihoodTerms(v, c, data, contact, recovery)
  {
    var p := ToParams(v, c);
    r := ScoreSteps(p, c.nullComparison, data, contact, recovery);
  }

  method ScoreSteps(p: Params, nullComparison: bool, data: Data, contact: Daylists, recovery: map<SickKey, int>)
    returns (r: Score)
    ensures r == ScoreOf(p, nullComparison, data, contact, recovery)
  {
    var choice := ChooseNetwork(data.gRaw, nullComparison, ModelOf(p));
    if choice.Err? { return Raised(choice.failure); }
    var network := choice.value;
    var imputed := ImputeInfections(p, data, network, contact, recovery);
    match imputed
    case Infeasible => return MinusInf;
    case Failed(e) => return Raised(e);
    case Feasible(st) => r := CollectTerms(st, data, network);
  }

  method ImputeInfections(p: Params, data: Data, network: nat, contact: Daylists, recovery: map<SickKey, int>)
    returns (r: Outcome)
    ensures r == Infections(p, data, network, contact, recovery)
  {
    match p.diagLag
    case None =>
      var dates := ReportedInfectionDates(data.nodeHealth);
      r := Feasible(Imputed(dates, data.nodeHealth, data.healthData));
    case Some(diagList) =>
      if network !in contact { return Failed(KeyError); }
      r := ImputeDiagLag(contact[network], recovery, p.gamma, diagList, data.nodeHealth, data.healthData);
  }

  method CollectTerms(st: Imputed, data: Data, network: nat) returns (r: Score)
    requires network in data.gRaw
    ensures r == TermsOf(st, data, network)
  {
    var degree := InfectedDegree(data.nodelist, data.gRaw[network], st.healthData);
    if degree.Err? { return Raised(degree.failure); }
    var learn := LearnTerms(st.infectionDate, data.seedDate, degree.value);
    if learn.Err? { return Raised(learn.failure); }
    var notLearn := NotLearnLoop(Sort(HealthyKeys(st.nodeHealth), KeyLe), degree.value);
    if notLearn.Err? { return Raised(notLearn.failure); }
    r := Scored(Terms(network, learn.value, notLearn.value));
  }

  /** The early `return -np.inf` of line 62 needs both the diagnosis lag and
      recovery to be modelled. The -inf that `np.log(0)` can give the sum at
      line 91 is a floating-point value and is not modelled. */
  lemma MinusInfOnlyFromRecovery(v: seq<real>, c: Config, data: Data, contact: Daylists, recovery: map<SickKey, int>)
    requires |v| == Size(c)
    ensures LikelihoodTerms(v, c, data, contact, recovery).MinusInf? ==> c.diagLag && c.recovery.RecoveryPrior?
  {
    ToParamsLayout(v, c);
    MinusInfNeedsFields(ToParams(v, c), c.nullComparison, data, contact, recovery);
  }

  lemma MinusInfNeedsFields(p: Params, nullComparison: bool, data: Data, contact: Daylists, recovery: map<SickKey, int>)
    ensures ScoreOf(p, nullComparison, data, contact, recovery).MinusInf? ==> p.diagLag.Some? && p.gamma.Some?
  {
    var choice := ChooseNetwork(data.gRaw, nullComparison, ModelOf(p));
    if choice.Ok? {
      var imp := Infections(p, data, choice.value, contact, recovery);
      if imp.Feasible? {
        TermsNeverMinusInf(imp.state, data, choice.value);
      } else if p.diagLag.Some? && choice.value in contact && p.gamma.None? {
        NoRecoveryFeasible(contact[choice.value], recovery, p.gamma, p.diagLag.value, data.nodeHealth, data.healthData);
      }
    }
  }

  lemma TermsNeverMinusInf(st: Imputed, data: Data, network: nat)
    requires network in data.gRaw
    ensures !TermsOf(st, data, network).MinusInf?
  {
  }

  /** Without recovery no pass is rejected. */
  lemma NoRecoveryFeasible(contact: map<SickKey, seq<int>>, recovery: map<SickKey, int>, gamma: Option<real>,
                           diagList: seq<real>, nodeHealth: map<Node, NodeHealth>, healthData: map<Node, Reports>)
    requires gamma.None?
    ensures !DiagLagImputation(contact, recovery, gamma, diagList, nodeHealth, healthData).Infeasible?
  {
    NoRecoveryAll(Imputed([], nodeHealth, healthData), DiagSteps(contact, diagList), contact, recovery);
  }

  lemma {:induction false} NoRecoveryAll(st: Imputed, steps: seq<(SickKey, real)>, contact: map<SickKey, seq<int>>,
                                         recovery: map<SickKey, int>)
    requires KeysIn(steps, contact)
    ensures !ImputeAll(st, steps, contact, recovery, None).Infeasible?
  {
    if steps != [] {
      var init, last := steps[..|steps| - 1], steps[|steps| - 1];
      NoRecoveryAll(st, init, contact, recovery);
      var mid := ImputeAll(st, init, contact, recovery, None);
      if mid.Feasible? {
        ImputeStepInfeasible(mid.state, last.0, last.1, contact, recovery, None);
      }
    }
  }

  /** A scored likelihood names a network of the comparison set (network 0
      without null comparison) and has one learning term per listed
      infection not on the seed date and one entry per healthy interval. */
  lemma ScoredShape(p: Params, nullComparison: bool, data: Data, contact: Daylists, recovery: map<SickKey, int>)
    requires ScoreOf(p, nullComparison, data, contact, recovery).Scored?
    ensures var t := ScoreOf(p, nullComparison, data, contact, recovery).terms;
      && t.network in data.gRaw
      && (!nullComparison ==> t.network == 0)
      && Infections(p, data, t.network, contact, recovery).Feasible?
      && var st := Infections(p, data, t.network, contact, recovery).state;
         |t.learn| == |LearnDates(st.infectionDate, data.seedDate)| && |t.notLearn| == |HealthyKeys(st.nodeHealth)|
  {
    var choice := ChooseNetwork(data.gRaw, nullComparison, ModelOf(p));
    assert choice.Ok?;
    var imp := Infections(p, data, choice.value, contact, recovery);
    assert imp.Feasible?;
    assert ScoreOf(p, nullComparison, data, contact, recovery) == TermsOf(imp.state, data, choice.value);
    TermsShape(imp.state, data, choice.value);
  }

  lemma TermsShape(st: Imputed, data: Data, network: nat)
    requires network in data.gRaw
    requires TermsOf(st, data, network).Scored?
    ensures TermsOf(st, data, network).terms.network == network
    ensures |TermsOf(st, data, network).terms.learn| == |LearnDates(st.infectionDate, data.seedDate)|
    ensures |TermsOf(st, data, network).terms.notLearn| == |HealthyKeys(st.nodeHealth)|
  {
    var degree := InfectedDegree(data.nodelist, data.gRaw[network], st.healthData).value;
    PressuresOfMeans(LearnDates(st.infectionDate, data.seedDate), degree);
    NotLearnLength(Sort(HealthyKeys(st.nodeHealth), KeyLe), degree);
    SortSameElements(HealthyKeys(st.nodeHealth), KeyLe);
  }
}
