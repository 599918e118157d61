/** Imputation support for the diagnosis-lag model: the candidate infection
    days of each censored sick interval (`return_contact_days_sick_nodes`),
    the upper bound on each recovery day (`return_potention_recovery_date`),
    and the discrete-uniform rank that turns a parameter in (0, 1] into one
    of those candidates (`ss.randint.ppf` in `log_likelihood`). */
module Imputation {
  import opened Utils
  import opened HealthTimeline
  import opened TemporalNetwork

  /** A censored sick interval named by its node: `(node, time1, time2)`. */
  type SickKey = (Node, int, int)

  /** Python's tuple order on intervals. */
  predicate IntervalLe(a: Interval, b: Interval) {
    a.0 < b.0 || (a.0 == b.0 && a.1 <= b.1)
  }

  /** The nodes with a sick key, in the order `sorted` visits them. */
  function SickNodes(nodeHealth: map<Node, NodeHealth>): (ns: seq<Node>)
    ensures forall n :: n in ns <==> n in nodeHealth && nodeHealth[n].sick.Some?
  {
    StrLeTotal();
    SortedSet(set n | n in nodeHealth && nodeHealth[n].sick.Some? :: n, StrLe)
  }

  /** One node's sick intervals in the order `sorted` visits them. */
  function SickDays(nodeHealth: map<Node, NodeHealth>, n: Node): (ivs: seq<Interval>)
    requires n in nodeHealth && nodeHealth[n].sick.Some?
    ensures forall iv :: iv in ivs <==> iv in nodeHealth[n].sick.value
  {
    var ivs := Sort(nodeHealth[n].sick.value, IntervalLe);
    assert forall iv :: iv in ivs <==> iv in multiset(ivs);
    ivs
  }

  // ------------------------------------------------ return_contact_days_sick_nodes

  /** The largest end among the intervals that end before `time1`
      (`max(healthy_dates, key=lambda x: x[1])[1]`). */
  function LatestEndBefore(ivs: seq<Interval>, time1: int): Option<int> {
    if ivs == [] then None
    else
      var rest, iv := LatestEndBefore(ivs[..|ivs| - 1], time1), ivs[|ivs| - 1];
      if iv.1 >= time1 then rest
      else if rest.Some? && rest.value >= iv.1 then rest
      else Some(iv.1)
  }

  lemma {:induction false} LatestEndBeforeIs(ivs: seq<Interval>, time1: int)
    ensures LatestEndBefore(ivs, time1).None? <==> forall i :: 0 <= i < |ivs| ==> ivs[i].1 >= time1
    ensures LatestEndBefore(ivs, time1).Some? ==>
      var e := LatestEndBefore(ivs, time1).value;
      e < time1 && (exists i :: 0 <= i < |ivs| && ivs[i].1 == e)
      && forall i :: 0 <= i < |ivs| && ivs[i].1 < time1 ==> ivs[i].1 <= e
  {
    if ivs != [] {
      var init := ivs[..|ivs| - 1];
      LatestEndBeforeIs(init, time1);
      forall i | 0 <= i < |init| ensures init[i] == ivs[i] { }
    }
  }

  /** `day_start`: the end of the latest healthy interval before `time1`, or
      0 when the node has no healthy key or no such interval. */
  function DayStart(healthy: Option<seq<Interval>>, time1: int): int {
    if healthy.None? then 0
    else match LatestEndBefore(healthy.value, time1)
      case None => 0
      case Some(e) => e
  }

  /** `day_start` is 0 without an earlier healthy interval and otherwise the
      largest end before the interval's start. */
  lemma DayStartIs(healthy: Option<seq<Interval>>, time1: int)
    ensures (healthy.None? || forall i :: 0 <= i < |healthy.value| ==> healthy.value[i].1 >= time1) ==>
      DayStart(healthy, time1) == 0
    ensures healthy.Some? && (exists i :: 0 <= i < |healthy.value| && healthy.value[i].1 < time1) ==>
      var s := DayStart(healthy, time1);
      s < time1 && (exists i :: 0 <= i < |healthy.value| && healthy.value[i].1 == s)
      && forall i :: 0 <= i < |healthy.value| && healthy.value[i].1 < time1 ==> healthy.value[i].1 <= s
  {
    if healthy.Some? { LatestEndBeforeIs(healthy.value, time1); }
  }
  /** The network has the timestep before each day of `[lo, hi]`. */
  predicate DaysBefore(net: Network, lo: int, hi: int) {
    forall t :: lo - 1 <= t < hi ==> t in net
  }

  /** `[day for day in range(lo, hi + 1) if G[day - 1].degree(node) > 0]`,
      or the KeyError of the first missing timestep. */
  function ContactDays(net: Network, node: Node, lo: int, hi: int): (r: Result<seq<int>>)
    ensures r.Err? ==> r.failure == KeyError
    decreases hi - lo
  {
    if lo > hi then Ok([])
    else if lo - 1 !in net then Err(KeyError)
    else match ContactDays(net, node, lo + 1, hi)
      case Err(e) => Err(e)
      case Ok(rest) => Ok((if HasContact(net[lo - 1], node) then [lo] else []) + rest)
  }

  /** The list is defined exactly when every timestep it looks at exists;
      it is then ascending and holds exactly the days of `[lo, hi]` after a
      timestep in which the node has a contact. */
  lemma {:induction false} ContactDaysMeans(net: Network, node: Node, lo: int, hi: int)
    ensures ContactDays(net, node, lo, hi).Ok? <==> DaysBefore(net, lo, hi)
    ensures ContactDays(net, node, lo, hi).Ok? ==>
      var days := ContactDays(net, node, lo, hi).value;
      StrictlyIncreasing(days) && forall d :: d in days <==> lo <= d <= hi && HasContact(net[d - 1], node)
    decreases hi - lo
  {
    if lo <= hi {
      ContactDaysMeans(net, node, lo + 1, hi);
      if !(lo - 1 in net) {
        assert !DaysBefore(net, lo, hi);
      } else if ContactDays(net, node, lo + 1, hi).Ok? {
        var rest := ContactDays(net, node, lo + 1, hi).value;
        var r := ContactDays(net, node, lo, hi).value;
        assert forall i :: 0 <= i < |rest| ==> rest[i] > lo by {
          forall i | 0 <= i < |rest| ensures rest[i] > lo { assert rest[i] in rest; }
        }
        if HasContact(net[lo - 1], node) {
          assert r == [lo] + rest;
          forall i, j | 0 <= i < j < |r| ensures r[i] < r[j] {
            if i > 0 { assert r[i] == rest[i - 1] && r[j] == rest[j - 1]; }
            else { assert r[j] == rest[j - 1]; }
          }
        }
      }
    }
  }

  /** Line 225's degree test as written. For a node the graph lacks,
      networkx 1.x returns a dict from `degree(node)`, and Python 2 orders
      every dict above 0, so the test passes. */
  predicate DegreeTestAsWritten(g: Graph, n: Node) {
    n !in g.nodes || HasContact(g, n)
  }

  /** Line 225 as written: the candidate list under `DegreeTestAsWritten`. */
  function ContactDaysAsWritten(net: Network, node: Node, lo: int, hi: int): Result<seq<int>>
    decreases hi - lo
  {
    if lo > hi then Ok([])
    else if lo - 1 !in net then Err(KeyError)
    else match ContactDaysAsWritten(net, node, lo + 1, hi)
      case Err(e) => Err(e)
      case Ok(rest) => Ok((if DegreeTestAsWritten(net[lo - 1], node) then [lo] else []) + rest)
  }

  /** Where the node is in every graph the window looks at, the list as
      written is the intended one. */
  lemma {:induction false} ContactDaysAsWrittenPresent(net: Network, node: Node, lo: int, hi: int)
    requires forall t :: lo - 1 <= t < hi && t in net ==> node in net[t].nodes
    ensures ContactDaysAsWritten(net, node, lo, hi) == ContactDays(net, node, lo, hi)
    decreases hi - lo
  {
    if lo <= hi {
      ContactDaysAsWrittenPresent(net, node, lo + 1, hi);
    }
  }

  /** On a network without isolated nodes, as the one `create_dynamic_network`
      builds, the test as written removes no day: the list is the whole
      window whenever every timestep it looks at exists. */
  lemma {:induction false} ContactDaysAsWrittenKeepsAll(net: Network, node: Node, lo: int, hi: int)
    requires NoIsolated(net)
    ensures ContactDaysAsWritten(net, node, lo, hi).Ok? <==> DaysBefore(net, lo, hi)
    ensures ContactDaysAsWritten(net, node, lo, hi).Ok? ==>
      var days := ContactDaysAsWritten(net, node, lo, hi).value;
      |days| == (if lo <= hi then hi - lo + 1 else 0) && forall j :: 0 <= j < |days| ==> days[j] == lo + j
    decreases hi - lo
  {
    if lo <= hi {
      ContactDaysAsWrittenKeepsAll(net, node, lo + 1, hi);
      if lo - 1 !in net {
        assert !DaysBefore(net, lo, hi);
      } else if ContactDaysAsWritten(net, node, lo + 1, hi).Ok? {
        assert DegreeTestAsWritten(net[lo - 1], node);
        var rest := ContactDaysAsWritten(net, node, lo + 1, hi).value;
        var days := ContactDaysAsWritten(net, node, lo, hi).value;
        assert days == [lo] + rest;
        forall j | 0 <= j < |days| ensures days[j] == lo + j {
          if j > 0 { assert days[j] == rest[j - 1]; }
        }
      }
    }
  }

  /** On the observed network read from the edge table, line 225 as written
      keeps every day of the window. */
  lemma ContactDaysAsWrittenOnObserved(records: seq<Record>, normalize: bool, node: Node, lo: int, hi: int)
    requires DynamicNetwork(records, normalize).Ok?
    requires DaysBefore(DynamicNetwork(records, normalize).value, lo, hi)
    ensures ContactDaysAsWritten(DynamicNetwork(records, normalize).value, node, lo, hi).Ok?
    ensures forall d :: d in ContactDaysAsWritten(DynamicNetwork(records, normalize).value, node, lo, hi).value <==> lo <= d <= hi
  {
    var net := DynamicNetwork(records, normalize).value;
    DynamicNetworkNoIsolated(records, normalize);
    ContactDaysAsWrittenKeepsAll(net, node, lo, hi);
    var days := ContactDaysAsWritten(net, node, lo, hi).value;
    forall d ensures d in days <==> lo <= d <= hi {
      if lo <= d <= hi { assert days[d - lo] == d; }
    }
  }

  /** A node absent from the previous timestep's graph: the list as written
      keeps the day, the intended list drops it. */
  lemma ContactDaysAsWrittenAbsent(g: Graph)
    requires g == Graph({"a", "b"}, map[EdgeOf("a", "b") := 1.0])
    ensures ContactDaysAsWritten(map[0 := g], "c", 1, 1) == Ok([1])
    ensures ContactDays(map[0 := g], "c", 1, 1) == Ok([])
  {
    assert !HasContact(g, "c") by {
      forall e | e in g.weight ensures e.lo != "c" && e.hi != "c" {
        assert e == EdgeOf("a", "b");
        assert {e.lo, e.hi} == {"a", "b"};
        assert e.lo in {"a", "b"} && e.hi in {"a", "b"};
      }
    }
    var net := map[0 := g];
    assert "c" !in g.nodes && net[0] == g;
    assert ContactDaysAsWritten(net, "c", 2, 1) == Ok([]) && ContactDays(net, "c", 2, 1) == Ok([]);
    var none: seq<int> := [];
    assert [1] + none == [1] && none + none == none;
    assert ContactDaysAsWritten(net, "c", 1, 1) == Ok([1] + none);
    assert ContactDays(net, "c", 1, 1) == Ok(none + none);
  }

  /** Candidate lists per network and per sick interval. */
  type Daylists = map<nat, map<SickKey, seq<int>>>

  /** The first day of the candidate window of an interval starting at `time1`. */
  function WindowStart(healthy: Option<seq<Interval>>, time1: int): int {
    DayStart(healthy, time1) + 1
  }

  /** The candidate lists of a window in every network, or the KeyError a
      missing timestep raises. */
  function AllContactDays(gRaw: map<nat, Network>, node: Node, lo: int, hi: int): Result<map<nat, seq<int>>> {
    if forall net :: net in gRaw ==> ContactDays(gRaw[net], node, lo, hi).Ok? then
      Ok(map net | net in gRaw :: ContactDays(gRaw[net], node, lo, hi).value)
    else Err(KeyError)
  }

  /** One sick interval's candidate lists in every network. */
  function Candidates(gRaw: map<nat, Network>, node: Node, healthy: Option<seq<Interval>>, iv: Interval)
    : Result<map<nat, seq<int>>>
  {
    AllContactDays(gRaw, node, WindowStart(healthy, iv.0), iv.0)
  }

  lemma AllContactDaysFail(gRaw: map<nat, Network>, node: Node, lo: int, hi: int, net: nat)
    requires net in gRaw && ContactDays(gRaw[net], node, lo, hi).Err?
    ensures AllContactDays(gRaw, node, lo, hi) == Err(KeyError)
  {
  }

  lemma AllContactDaysFrom(gRaw: map<nat, Network>, node: Node, lo: int, hi: int, c: map<nat, seq<int>>)
    requires forall net :: net in gRaw <==> net in c
    requires forall net :: net in c ==> ContactDays(gRaw[net], node, lo, hi) == Ok(c[net])
    ensures AllContactDays(gRaw, node, lo, hi) == Ok(c)
  {
    MapsEqual(c, map net | net in gRaw :: ContactDays(gRaw[net], node, lo, hi).value);
  }

  /** `contact` with key `k` set to `c[net]` in every network `c` names. */
  function WithKey(contact: Daylists, k: SickKey, c: map<nat, seq<int>>): (r: Daylists)
    ensures r.Keys == contact.Keys
  {
    map net | net in contact :: if net in c then contact[net][k := c[net]] else contact[net]
  }

  /** One step of the interval loop: the lists of `iv` added to `acc`. */
  function AddedCandidates(acc: Daylists, gRaw: map<nat, Network>, node: Node, healthy: Option<seq<Interval>>, iv: Interval)
    : Result<Daylists>
  {
    match Candidates(gRaw, node, healthy, iv)
      case Err(e) => Err(e)
      case Ok(c) => Ok(WithKey(acc, (node, iv.0, iv.1), c))
  }

  /** The interval loop over one node's sorted sick intervals, skipping those
      that start on the seed date. */
  function IntervalContacts(acc: Result<Daylists>, gRaw: map<nat, Network>, node: Node, healthy: Option<seq<Interval>>,
                            ivs: seq<Interval>, seedDate: int): Result<Daylists>
  {
    if ivs == [] then acc
    else
      var r, iv := IntervalContacts(acc, gRaw, node, healthy, ivs[..|ivs| - 1], seedDate), ivs[|ivs| - 1];
      if r.Err? || iv.0 == seedDate then r else AddedCandidates(r.value, gRaw, node, healthy, iv)
  }

  /** The node loop over `nodes`. */
  function NodeContacts(nodeHealth: map<Node, NodeHealth>, nodes: seq<Node>, seedDate: int, gRaw: map<nat, Network>)
    : Result<Daylists>
  {
    if nodes == [] then Ok(map net | net in gRaw :: map[])
    else
      var r, n := NodeContacts(nodeHealth, nodes[..|nodes| - 1], seedDate, gRaw), nodes[|nodes| - 1];
      if n in nodeHealth && nodeHealth[n].sick.Some? then
        IntervalContacts(r, gRaw, n, nodeHealth[n].healthy, SickDays(nodeHealth, n), seedDate)
      else r
  }

  /** What `return_contact_days_sick_nodes` returns. */
  function ContactDaylist(nodeHealth: map<Node, NodeHealth>, seedDate: int, gRaw: map<nat, Network>): Result<Daylists> {
    NodeContacts(nodeHealth, SickNodes(nodeHealth), seedDate, gRaw)
  }

  lemma {:induction false} IntervalContactsFailed(e: Failure, gRaw: map<nat, Network>, node: Node,
                                                  healthy: Option<seq<Interval>>, ivs: seq<Interval>, seedDate: int)
    ensures IntervalContacts(Err(e), gRaw, node, healthy, ivs, seedDate) == Err(e)
  {
    if ivs != [] { IntervalContactsFailed(e, gRaw, node, healthy, ivs[..|ivs| - 1], seedDate); }
  }

  lemma {:induction false} IntervalContactsStayFailed(acc: Result<Daylists>, gRaw: map<nat, Network>, node: Node,
                                                      healthy: Option<seq<Interval>>, ivs: seq<Interval>, seedDate: int, j: nat)
    requires j <= |ivs| && IntervalContacts(acc, gRaw, node, healthy, ivs[..j], seedDate).Err?
    ensures IntervalContacts(acc, gRaw, node, healthy, ivs, seedDate) == IntervalContacts(acc, gRaw, node, healthy, ivs[..j], seedDate)
    decreases |ivs| - j
  {
    if j < |ivs| {
      assert ivs[..j + 1][..j] == ivs[..j];
      IntervalContactsStayFailed(acc, gRaw, node, healthy, ivs, seedDate, j + 1);
    } else {
      assert ivs[..j] == ivs;
    }
  }

  lemma {:induction false} NodeContactsStayFailed(nodeHealth: map<Node, NodeHealth>, nodes: seq<Node>, seedDate: int,
                                                  gRaw: map<nat, Network>, i: nat)
    requires i <= |nodes| && NodeContacts(nodeHealth, nodes[..i], seedDate, gRaw).Err?
    ensures NodeContacts(nodeHealth, nodes, seedDate, gRaw) == NodeContacts(nodeHealth, nodes[..i], seedDate, gRaw)
    decreases |nodes| - i
  {
    if i < |nodes| {
      var n := nodes[i];
      assert nodes[..i + 1][..i] == nodes[..i];
      if n in nodeHealth && nodeHealth[n].sick.Some? {
        IntervalContactsFailed(NodeContacts(nodeHealth, nodes[..i], seedDate, gRaw).failure, gRaw, n,
                               nodeHealth[n].healthy, SickDays(nodeHealth, n), seedDate);
      }
      NodeContactsStayFailed(nodeHealth, nodes, seedDate, gRaw, i + 1);
    } else {
      assert nodes[..i] == nodes;
    }
  }

  /** `return_contact_days_sick_nodes`: the nodes with sick intervals in
      order, their sick intervals not starting on the seed date in order,
      and every network. */
  method ReturnContactDays(nodeHealth: map<Node, NodeHealth>, seedDate: int, gRaw: map<nat, Network>)
    returns (r: Result<Daylists>)
    ensures r == ContactDaylist(nodeHealth, seedDate, gRaw)
  {
    var sickNodes := SickNodes(nodeHealth);
    r := NodeLoopContacts(nodeHealth, sickNodes, seedDate, gRaw);
  }

  /** The node loop of `return_contact_days_sick_nodes`, stopping at the
      first failure. */
  method NodeLoopContacts(nodeHealth: map<Node, NodeHealth>, sickNodes: seq<Node>, seedDate: int, gRaw: map<nat, Network>)
    returns (r: Result<Daylists>)
    requires forall n :: n in sickNodes ==> n in nodeHealth && nodeHealth[n].sick.Some?
    ensures r == NodeContacts(nodeHealth, sickNodes, seedDate, gRaw)
  {
    var contact: Daylists := map net | net in gRaw :: map[];
    for i := 0 to |sickNodes|
      invariant forall net :: net in contact <==> net in gRaw
      invariant NodeContacts(nodeHealth, sickNodes[..i], seedDate, gRaw) == Ok(contact)
    {
      var node := sickNodes[i];
      assert sickNodes[..i + 1][..i] == sickNodes[..i];
      var added := NodeCandidates(contact, gRaw, node, nodeHealth[node].healthy, SickDays(nodeHealth, node), seedDate);
      if added.Err? {
        NodeContactsStayFailed(nodeHealth, sickNodes, seedDate, gRaw, i + 1);
        assert sickNodes[..|sickNodes|] == sickNodes;
        return added;
      }
      contact := added.value;
    }
    assert sickNodes[..|sickNodes|] == sickNodes;
    r := Ok(contact);
  }

  /** The interval loop of one node, stopping at the first failure. */
  method NodeCandidates(contact: Daylists, gRaw: map<nat, Network>, node: Node, healthy: Option<seq<Interval>>,
                        sickDays: seq<Interval>, seedDate: int)
    returns (r: Result<Daylists>)
    requires forall net :: net in contact <==> net in gRaw
    ensures r == IntervalContacts(Ok(contact), gRaw, node, healthy, sickDays, seedDate)
    ensures r.Ok? ==> forall net :: net in r.value <==> net in gRaw
  {
    var updated := contact;
    for j := 0 to |sickDays|
      invariant forall net :: net in updated <==> net in gRaw
      invariant IntervalContacts(Ok(contact), gRaw, node, healthy, sickDays[..j], seedDate) == Ok(updated)
    {
      assert sickDays[..j + 1][..j] == sickDays[..j];
      var (time1, time2) := sickDays[j];
      if time1 != seedDate {
        var added := AddCandidates(updated, gRaw, node, healthy, sickDays[j]);
        if added.Err? {
          IntervalContactsStayFailed(Ok(contact), gRaw, node, healthy, sickDays, seedDate, j + 1);
          return added;
        }
        updated := added.value;
      }
    }
    assert sickDays[..|sickDays|] == sickDays;
    r := Ok(updated);
  }

  /** The network loop for one sick interval: its candidate days in every
      network, stopping at the first missing timestep. */
  method AddCandidates(contact: Daylists, gRaw: map<nat, Network>, node: Node, healthy: Option<seq<Interval>>, iv: Interval)
    returns (r: Result<Daylists>)
    requires forall net :: net in contact <==> net in gRaw
    ensures r == AddedCandidates(contact, gRaw, node, healthy, iv)
  {
    var k := (node, iv.0, iv.1);
    var dayStart := DayStart(healthy, iv.0);
    ghost var lo := WindowStart(healthy, iv.0);
    assert lo == dayStart + 1;
    var updated := contact;
    ghost var c: map<nat, seq<int>> := map[];
    var todo := gRaw.Keys;
    while todo != {}
      invariant forall net :: net in gRaw <==> net in todo || net in c
      invariant forall net :: net in todo ==> net !in c
      invariant forall net :: net in c ==> ContactDays(gRaw[net], node, lo, iv.0) == Ok(c[net])
      invariant updated == WithKey(contact, k, c)
      decreases |todo|
    {
      var net := Choose(todo);
      var days := ContactDays(gRaw[net], node, dayStart + 1, iv.0);
      if days.Err? {
        AllContactDaysFail(gRaw, node, lo, iv.0, net);
        return Err(KeyError);
      }
      WithKeyStep(contact, k, c, net, days.value);
      updated := updated[net := updated[net][k := days.value]];
      c := c[net := days.value];
      todo := todo - {net};
    }
    AllContactDaysFrom(gRaw, node, lo, iv.0, c);
    r := Ok(updated);
  }

  lemma WithKeyStep(contact: Daylists, k: SickKey, c: map<nat, seq<int>>, net: nat, v: seq<int>)
    requires net in contact && net !in c
    ensures WithKey(contact, k, c[net := v]) == WithKey(contact, k, c)[net := contact[net][k := v]]
  {
  }

  /** The key `k` belongs to one of `node`'s intervals in `ivs` that does
      not start on the seed date. */
  predicate Listed(k: SickKey, node: Node, ivs: seq<Interval>, seedDate: int) {
    k.0 == node && (k.1, k.2) in ivs && k.1 != seedDate
  }

  lemma {:induction false} IntervalContactsKeys(acc: Daylists, gRaw: map<nat, Network>, node: Node, healthy: Option<seq<Interval>>,
                                                ivs: seq<Interval>, seedDate: int)
    requires forall n :: n in acc <==> n in gRaw
    requires IntervalContacts(Ok(acc), gRaw, node, healthy, ivs, seedDate).Ok?
    ensures forall n :: n in IntervalContacts(Ok(acc), gRaw, node, healthy, ivs, seedDate).value <==> n in gRaw
  {
    if ivs != [] {
      IntervalContactsKeys(acc, gRaw, node, healthy, ivs[..|ivs| - 1], seedDate);
    }
  }

  lemma {:induction false} IntervalContactsAt(acc: Daylists, gRaw: map<nat, Network>, node: Node, healthy: Option<seq<Interval>>,
                                              ivs: seq<Interval>, seedDate: int, net: nat, k: SickKey)
    requires forall n :: n in acc <==> n in gRaw
    requires net in gRaw && IntervalContacts(Ok(acc), gRaw, node, healthy, ivs, seedDate).Ok?
    ensures net in IntervalContacts(Ok(acc), gRaw, node, healthy, ivs, seedDate).value
    ensures var r := IntervalContacts(Ok(acc), gRaw, node, healthy, ivs, seedDate).value[net];
      && (k in r <==> k in acc[net] || Listed(k, node, ivs, seedDate))
      && (Listed(k, node, ivs, seedDate) ==> ContactDays(gRaw[net], node, WindowStart(healthy, k.1), k.1) == Ok(r[k]))
      && (k in acc[net] && !Listed(k, node, ivs, seedDate) ==> r[k] == acc[net][k])
  {
    IntervalContactsKeys(acc, gRaw, node, healthy, ivs, seedDate);
    if ivs != [] {
      var init, iv := ivs[..|ivs| - 1], ivs[|ivs| - 1];
      IntervalContactsAt(acc, gRaw, node, healthy, init, seedDate, net, k);
      IntervalContactsKeys(acc, gRaw, node, healthy, init, seedDate);
      LastSplit(ivs, (k.1, k.2));
      var prev := IntervalContacts(Ok(acc), gRaw, node, healthy, init, seedDate).value;
      if iv.0 != seedDate {
        var c := Candidates(gRaw, node, healthy, iv).value;
        assert ContactDays(gRaw[net], node, WindowStart(healthy, iv.0), iv.0) == Ok(c[net]);
        assert IntervalContacts(Ok(acc), gRaw, node, healthy, ivs, seedDate).value[net] == prev[net][(node, iv.0, iv.1) := c[net]];
      }
    }
  }

  lemma {:induction false} IntervalContactsOk(acc: Daylists, gRaw: map<nat, Network>, node: Node, healthy: Option<seq<Interval>>,
                                              ivs: seq<Interval>, seedDate: int)
    requires forall net, iv :: net in gRaw && iv in ivs && iv.0 != seedDate ==>
      ContactDays(gRaw[net], node, WindowStart(healthy, iv.0), iv.0).Ok?
    ensures IntervalContacts(Ok(acc), gRaw, node, healthy, ivs, seedDate).Ok?
  {
    if ivs != [] {
      var init := ivs[..|ivs| - 1];
      assert forall iv :: iv in init ==> iv in ivs;
      IntervalContactsOk(acc, gRaw, node, healthy, init, seedDate);
    }
  }

  /** The key `k` belongs to a sick interval of one of `nodes` that does not
      start on the seed date. */
  predicate SickListed(k: SickKey, nodeHealth: map<Node, NodeHealth>, nodes: seq<Node>, seedDate: int) {
    k.0 in nodes && k.0 in nodeHealth && nodeHealth[k.0].sick.Some? && (k.1, k.2) in nodeHealth[k.0].sick.value
    && k.1 != seedDate
  }

  lemma {:induction false} NodeContactsAt(nodeHealth: map<Node, NodeHealth>, nodes: seq<Node>, seedDate: int,
                                          gRaw: map<nat, Network>, net: nat, k: SickKey)
    requires net in gRaw && NodeContacts(nodeHealth, nodes, seedDate, gRaw).Ok?
    ensures var r := NodeContacts(nodeHealth, nodes, seedDate, gRaw).value;
      && (forall n :: n in r <==> n in gRaw)
      && (k in r[net] <==> SickListed(k, nodeHealth, nodes, seedDate))
      && (SickListed(k, nodeHealth, nodes, seedDate) ==>
            ContactDays(gRaw[net], k.0, WindowStart(nodeHealth[k.0].healthy, k.1), k.1) == Ok(r[net][k]))
  {
    if nodes != [] {
      var init, n := nodes[..|nodes| - 1], nodes[|nodes| - 1];
      LastSplit(nodes, k.0);
      if n in nodeHealth && nodeHealth[n].sick.Some? {
        var acc := NodeContacts(nodeHealth, init, seedDate, gRaw);
        if acc.Err? {
          IntervalContactsFailed(acc.failure, gRaw, n, nodeHealth[n].healthy, SickDays(nodeHealth, n), seedDate);
        }
        NodeContactsAt(nodeHealth, init, seedDate, gRaw, net, k);
        IntervalContactsKeys(acc.value, gRaw, n, nodeHealth[n].healthy, SickDays(nodeHealth, n), seedDate);
        IntervalContactsAt(acc.value, gRaw, n, nodeHealth[n].healthy, SickDays(nodeHealth, n), seedDate, net, k);
      } else {
        NodeContactsAt(nodeHealth, init, seedDate, gRaw, net, k);
      }
    } else {
      assert net in NodeContacts(nodeHealth, nodes, seedDate, gRaw).value;
    }
  }

  lemma {:induction false} NodeContactsOk(nodeHealth: map<Node, NodeHealth>, nodes: seq<Node>, seedDate: int, gRaw: map<nat, Network>)
    requires forall net, n, iv :: (net in gRaw && n in nodes && n in nodeHealth && nodeHealth[n].sick.Some?
      && iv in nodeHealth[n].sick.value && iv.0 != seedDate) ==>
      ContactDays(gRaw[net], n, WindowStart(nodeHealth[n].healthy, iv.0), iv.0).Ok?
    ensures NodeContacts(nodeHealth, nodes, seedDate, gRaw).Ok?
  {
    if nodes != [] {
      var init, n := nodes[..|nodes| - 1], nodes[|nodes| - 1];
      assert forall m :: m in init ==> m in nodes;
      NodeContactsOk(nodeHealth, init, seedDate, gRaw);
      if n in nodeHealth && nodeHealth[n].sick.Some? {
        IntervalContactsOk(NodeContacts(nodeHealth, init, seedDate, gRaw).value, gRaw, n, nodeHealth[n].healthy,
                           SickDays(nodeHealth, n), seedDate);
      }
    }
  }

  /** Every network gets a list for exactly the sick intervals that do not
      start on the seed date; the list is ascending and holds exactly the
      days after `day_start`, up to and including the interval's start, that
      follow a timestep in which the node has a contact. */
  lemma ContactEntry(nodeHealth: map<Node, NodeHealth>, seedDate: int, gRaw: map<nat, Network>, net: nat, k: SickKey)
    requires ContactDaylist(nodeHealth, seedDate, gRaw).Ok? && net in gRaw
    ensures var m := ContactDaylist(nodeHealth, seedDate, gRaw).value;
      && (forall n :: n in m <==> n in gRaw)
      && (k in m[net] <==>
            k.0 in nodeHealth && nodeHealth[k.0].sick.Some? && (k.1, k.2) in nodeHealth[k.0].sick.value && k.1 != seedDate)
      && (k in m[net] ==>
            var days, start := m[net][k], DayStart(nodeHealth[k.0].healthy, k.1);
            DaysBefore(gRaw[net], start + 1, k.1) && StrictlyIncreasing(days)
            && forall d :: d in days <==> start < d <= k.1 && HasContact(gRaw[net][d - 1], k.0))
  {
    NodeContactsAt(nodeHealth, SickNodes(nodeHealth), seedDate, gRaw, net, k);
    if k.0 in nodeHealth && nodeHealth[k.0].sick.Some? {
      ContactDaysMeans(gRaw[net], k.0, WindowStart(nodeHealth[k.0].healthy, k.1), k.1);
    }
  }

  /** The lists are built exactly when every network has the timestep before
      every candidate day of every sick interval not starting on the seed
      date; otherwise the result is the KeyError. */
  lemma ContactDaylistDefined(nodeHealth: map<Node, NodeHealth>, seedDate: int, gRaw: map<nat, Network>)
    ensures ContactDaylist(nodeHealth, seedDate, gRaw).Ok? <==>
      forall net, n, iv :: (net in gRaw && n in nodeHealth && nodeHealth[n].sick.Some? && iv in nodeHealth[n].sick.value
        && iv.0 != seedDate) ==> DaysBefore(gRaw[net], WindowStart(nodeHealth[n].healthy, iv.0), iv.0)
    ensures ContactDaylist(nodeHealth, seedDate, gRaw).Err? ==> ContactDaylist(nodeHealth, seedDate, gRaw).failure == KeyError
  {
    var sick := SickNodes(nodeHealth);
    if ContactDaylist(nodeHealth, seedDate, gRaw).Ok? {
      forall net, n, iv | net in gRaw && n in nodeHealth && nodeHealth[n].sick.Some? && iv in nodeHealth[n].sick.value
        && iv.0 != seedDate
        ensures DaysBefore(gRaw[net], WindowStart(nodeHealth[n].healthy, iv.0), iv.0)
      {
        NodeContactsAt(nodeHealth, sick, seedDate, gRaw, net, (n, iv.0, iv.1));
        ContactDaysMeans(gRaw[net], n, WindowStart(nodeHealth[n].healthy, iv.0), iv.0);
      }
    } else {
      if forall net, n, iv :: (net in gRaw && n in nodeHealth && nodeHealth[n].sick.Some? && iv in nodeHealth[n].sick.value
        && iv.0 != seedDate) ==> DaysBefore(gRaw[net], WindowStart(nodeHealth[n].healthy, iv.0), iv.0)
      {
        forall net, n, iv | net in gRaw && n in sick && n in nodeHealth && nodeHealth[n].sick.Some?
          && iv in nodeHealth[n].sick.value && iv.0 != seedDate
          ensures ContactDays(gRaw[net], n, WindowStart(nodeHealth[n].healthy, iv.0), iv.0).Ok?
        {
          ContactDaysMeans(gRaw[net], n, WindowStart(nodeHealth[n].healthy, iv.0), iv.0);
        }
        NodeContactsOk(nodeHealth, sick, seedDate, gRaw);
      }
      NodeContactsFailure(nodeHealth, sick, seedDate, gRaw);
    }
  }

  lemma {:induction false} NodeContactsFailure(nodeHealth: map<Node, NodeHealth>, nodes: seq<Node>, seedDate: int, gRaw: map<nat, Network>)
    ensures NodeContacts(nodeHealth, nodes, seedDate, gRaw).Err? ==> NodeContacts(nodeHealth, nodes, seedDate, gRaw).failure == KeyError
  {
    if nodes != [] {
      var init, n := nodes[..|nodes| - 1], nodes[|nodes| - 1];
      NodeContactsFailure(nodeHealth, init, seedDate, gRaw);
      if n in nodeHealth && nodeHealth[n].sick.Some? {
        IntervalContactsFailure(NodeContacts(nodeHealth, init, seedDate, gRaw), gRaw, n, nodeHealth[n].healthy,
                                SickDays(nodeHealth, n), seedDate);
      }
    }
  }

  lemma {:induction false} IntervalContactsFailure(acc: Result<Daylists>, gRaw: map<nat, Network>, node: Node,
                                                   healthy: Option<seq<Interval>>, ivs: seq<Interval>, seedDate: int)
    requires acc.Err? ==> acc.failure == KeyError
    ensures var r := IntervalContacts(acc, gRaw, node, healthy, ivs, seedDate); r.Err? ==> r.failure == KeyError
  {
    if ivs != [] { IntervalContactsFailure(acc, gRaw, node, healthy, ivs[..|ivs| - 1], seedDate); }
  }

  // ------------------------------------------------ return_potention_recovery_date

  /** The index `min(healthy_dates, key=lambda x: x[1])` picks among the
      intervals that end after `time1`: the first with the least end. */
  function MinEndAfter(ivs: seq<Interval>, time1: int): (r: Option<nat>)
    ensures r.Some? ==> r.value < |ivs|
  {
    if ivs == [] then None
    else match MinEndAfter(ivs[1..], time1)
      case None => if ivs[0].1 > time1 then Some(0) else None
      case Some(j) => if ivs[0].1 > time1 && ivs[0].1 <= ivs[j + 1].1 then Some(0) else Some(j + 1)
  }

  lemma {:induction false} MinEndAfterIs(ivs: seq<Interval>, time1: int)
    ensures MinEndAfter(ivs, time1).None? <==> forall j :: 0 <= j < |ivs| ==> ivs[j].1 <= time1
    ensures MinEndAfter(ivs, time1).Some? ==>
      var i := MinEndAfter(ivs, time1).value;
      ivs[i].1 > time1
      && (forall j :: 0 <= j < |ivs| && ivs[j].1 > time1 ==> ivs[i].1 <= ivs[j].1)
      && (forall j :: 0 <= j < i && ivs[j].1 > time1 ==> ivs[j].1 > ivs[i].1)
  {
    if ivs != [] {
      var rest := ivs[1..];
      MinEndAfterIs(rest, time1);
      forall j | 0 < j < |ivs| ensures ivs[j] == rest[j - 1] { }
    }
  }


  /** Lines 238-246 as written. `stale` is the value `recovery_date` holds
      from the previous iteration (None before the first one): a node with a
      healthy key but no healthy interval ending after `time1` keeps it, or
      raises UnboundLocalError when there is none. */
  function RecoveryDateAsWritten(healthy: Option<seq<Interval>>, time1: int, timeMax: int, stale: Option<int>)
    : Result<int>
  {
    if healthy.None? then Ok(timeMax)
    else match MinEndAfter(healthy.value, time1)
      case Some(i) => Ok(healthy.value[i].0)
      case None => if stale.Some? then Ok(stale.value) else Err(UnboundLocalError)
  }

  /** The upper bound on the recovery day of a sick interval starting at
      `time1`: the start of the healthy interval picked by `min`, or
      `time_max` when the node never recovers after `time1`. */
  function RecoveryBound(healthy: Option<seq<Interval>>, time1: int, timeMax: int): int {
    if healthy.None? then timeMax
    else match MinEndAfter(healthy.value, time1)
      case Some(i) => healthy.value[i].0
      case None => timeMax
  }

  /** A node that was healthy before falling sick and never recovered: the
      code as written fails on the first such interval, or reuses the bound
      of an unrelated interval, where the bound is `time_max`. */
  lemma RecoveryDateAsWrittenStale()
    ensures RecoveryDateAsWritten(Some([(0, 2)]), 3, 10, None) == Err(UnboundLocalError)
    ensures RecoveryDateAsWritten(Some([(0, 2)]), 3, 10, Some(5)) == Ok(5)
    ensures RecoveryBound(Some([(0, 2)]), 3, 10) == 10
  {
    assert MinEndAfter([(0, 2)][1..], 3) == None by { assert [(0, 2)][1..] == []; }
  }

  /** Wherever the code as written defines the bound, whatever the stale
      value, it agrees with the corrected one. */
  lemma RecoveryDateAsWrittenAgrees(healthy: Option<seq<Interval>>, time1: int, timeMax: int, stale: Option<int>)
    requires healthy.Some? ==> exists j :: 0 <= j < |healthy.value| && healthy.value[j].1 > time1
    ensures RecoveryDateAsWritten(healthy, time1, timeMax, stale) == Ok(RecoveryBound(healthy, time1, timeMax))
  {
    if healthy.Some? { MinEndAfterIs(healthy.value, time1); }
  }

  /** The bound is `time_max` when the node has no healthy key or no healthy
      interval ending after `time1`, and otherwise the start of the first
      healthy interval, in list order among those ending after `time1`, with
      the least end. */
  lemma RecoveryBoundIs(healthy: Option<seq<Interval>>, time1: int, timeMax: int)
    ensures (healthy.None? || forall j :: 0 <= j < |healthy.value| ==> healthy.value[j].1 <= time1) ==>
      RecoveryBound(healthy, time1, timeMax) == timeMax
    ensures healthy.Some? && (exists j :: 0 <= j < |healthy.value| && healthy.value[j].1 > time1) ==>
      var ivs := healthy.value;
      exists i :: 0 <= i < |ivs| && ivs[i].0 == RecoveryBound(healthy, time1, timeMax) && ivs[i].1 > time1
        && (forall j :: 0 <= j < |ivs| && ivs[j].1 > time1 ==> ivs[i].1 <= ivs[j].1)
        && (forall j :: 0 <= j < i && ivs[j].1 > time1 ==> ivs[j].1 > ivs[i].1)
  {
    if healthy.Some? { MinEndAfterIs(healthy.value, time1); }
  }

  /** The interval loop of one node. */
  function IntervalBounds(bounds: map<SickKey, int>, node: Node, healthy: Option<seq<Interval>>, ivs: seq<Interval>,
                          timeMax: int): map<SickKey, int>
  {
    if ivs == [] then bounds
    else
      var iv := ivs[|ivs| - 1];
      IntervalBounds(bounds, node, healthy, ivs[..|ivs| - 1], timeMax)[(node, iv.0, iv.1) := RecoveryBound(healthy, iv.0, timeMax)]
  }

  /** The node loop over `nodes`. */
  function NodeBounds(nodeHealth: map<Node, NodeHealth>, nodes: seq<Node>, timeMax: int): map<SickKey, int> {
    if nodes == [] then map[]
    else
      var rest, n := NodeBounds(nodeHealth, nodes[..|nodes| - 1], timeMax), nodes[|nodes| - 1];
      if n in nodeHealth && nodeHealth[n].sick.Some? then
        IntervalBounds(rest, n, nodeHealth[n].healthy, SickDays(nodeHealth, n), timeMax)
      else rest
  }

  /** What `return_potention_recovery_date` returns, with the stale case
      corrected. */
  function RecoveryDaylist(nodeHealth: map<Node, NodeHealth>, timeMax: int): map<SickKey, int> {
    NodeBounds(nodeHealth, SickNodes(nodeHealth), timeMax)
  }

  /** `return_potention_recovery_date`: the nodes with sick intervals in
      order, then each of their sick intervals in order. */
  method ReturnRecoveryDates(nodeHealth: map<Node, NodeHealth>, timeMax: int) returns (bounds: map<SickKey, int>)
    ensures bounds == RecoveryDaylist(nodeHealth, timeMax)
  {
    var sickNodes := SickNodes(nodeHealth);
    bounds := NodeLoopBounds(nodeHealth, sickNodes, timeMax);
  }

  /** The node loop of `return_potention_recovery_date`. */
  method NodeLoopBounds(nodeHealth: map<Node, NodeHealth>, sickNodes: seq<Node>, timeMax: int) returns (bounds: map<SickKey, int>)
    requires forall n :: n in sickNodes ==> n in nodeHealth && nodeHealth[n].sick.Some?
    ensures bounds == NodeBounds(nodeHealth, sickNodes, timeMax)
  {
    bounds := map[];
    for i := 0 to |sickNodes|
      invariant bounds == NodeBounds(nodeHealth, sickNodes[..i], timeMax)
    {
      var node := sickNodes[i];
      assert sickNodes[..i + 1][..i] == sickNodes[..i];
      bounds := NodeRecoveryDates(bounds, node, nodeHealth[node].healthy, SickDays(nodeHealth, node), timeMax);
    }
    assert sickNodes[..|sickNodes|] == sickNodes;
  }

  /** The interval loop of one node. */
  method NodeRecoveryDates(bounds0: map<SickKey, int>, node: Node, healthy: Option<seq<Interval>>, sickDays: seq<Interval>,
                           timeMax: int) returns (bounds: map<SickKey, int>)
    ensures bounds == IntervalBounds(bounds0, node, healthy, sickDays, timeMax)
  {
    bounds := bounds0;
    for j := 0 to |sickDays|
      invariant bounds == IntervalBounds(bounds0, node, healthy, sickDays[..j], timeMax)
    {
      assert sickDays[..j + 1][..j] == sickDays[..j];
      var (time1, time2) := sickDays[j];
      var recoveryDate := timeMax;
      if healthy.Some? {
        var first := MinEndAfter(healthy.value, time1);
        if first.Some? {
          recoveryDate := healthy.value[first.value].0;
        }
      }
      bounds := bounds[(node, time1, time2) := recoveryDate];
    }
    assert sickDays[..|sickDays|] == sickDays;
  }

  lemma {:induction false} IntervalBoundsAt(bounds: map<SickKey, int>, node: Node, healthy: Option<seq<Interval>>,
                                            ivs: seq<Interval>, timeMax: int, k: SickKey)
    ensures var r := IntervalBounds(bounds, node, healthy, ivs, timeMax);
      (k in r <==> k in bounds || (k.0 == node && (k.1, k.2) in ivs))
      && (k in r ==> r[k] == if k.0 == node && (k.1, k.2) in ivs then RecoveryBound(healthy, k.1, timeMax) else bounds[k])
  {
    if ivs != [] {
      var init := ivs[..|ivs| - 1];
      IntervalBoundsAt(bounds, node, healthy, init, timeMax, k);
      LastSplit(ivs, (k.1, k.2));
    }
  }

  lemma {:induction false} NodeBoundsAt(nodeHealth: map<Node, NodeHealth>, nodes: seq<Node>, timeMax: int, k: SickKey)
    ensures var r := NodeBounds(nodeHealth, nodes, timeMax);
      (k in r <==> k.0 in nodes && k.0 in nodeHealth && nodeHealth[k.0].sick.Some? && (k.1, k.2) in nodeHealth[k.0].sick.value)
      && (k in r ==> r[k] == RecoveryBound(nodeHealth[k.0].healthy, k.1, timeMax))
  {
    if nodes != [] {
      var init, n := nodes[..|nodes| - 1], nodes[|nodes| - 1];
      NodeBoundsAt(nodeHealth, init, timeMax, k);
      if n in nodeHealth && nodeHealth[n].sick.Some? {
        IntervalBoundsAt(NodeBounds(nodeHealth, init, timeMax), n, nodeHealth[n].healthy, SickDays(nodeHealth, n), timeMax, k);
      }
      LastSplit(nodes, k.0);
    }
  }

  /** Every sick interval, seed intervals included, gets a bound, and the
      bound is the one the node's own healthy intervals determine. */
  lemma RecoveryEntry(nodeHealth: map<Node, NodeHealth>, timeMax: int, k: SickKey)
    ensures k in RecoveryDaylist(nodeHealth, timeMax) <==>
      k.0 in nodeHealth && nodeHealth[k.0].sick.Some? && (k.1, k.2) in nodeHealth[k.0].sick.value
    ensures k in RecoveryDaylist(nodeHealth, timeMax) ==>
      RecoveryDaylist(nodeHealth, timeMax)[k] == RecoveryBound(nodeHealth[k.0].healthy, k.1, timeMax)
  {
    NodeBoundsAt(nodeHealth, SickNodes(nodeHealth), timeMax, k);
  }

  // ------------------------------------------------ discrete-uniform rank

  /** The least integer not below `x`. */
  function Ceil(x: real): (c: int)
    ensures (c - 1) as real < x <= c as real
  {
    -((-x).Floor)
  }

  /** `int(ss.randint.ppf(q, 0, n))`: the quantile of the discrete uniform
      distribution on `0 .. n - 1`. The quantile of 0 is one below the
      support; a probability outside [0, 1] or an empty support gives NaN,
      which `int` refuses. */
  function Rank(q: real, n: int): Result<int> {
    if n <= 0 || q < 0.0 || q > 1.0 then Err(ValueError)
    else if q == 0.0 then Ok(-1)
    else Ok(Ceil(q * n as real) - 1)
  }

  /** For q in (0, 1] and a non-empty support the rank is an index of the
      support, the least `k` whose cumulative probability `(k + 1) / n`
      reaches `q`. */
  lemma RankIsQuantile(q: real, n: int)
    requires 0.0 < q <= 1.0 && n >= 1
    ensures Rank(q, n).Ok? && 0 <= Rank(q, n).value < n
    ensures var k := Rank(q, n).value; k as real < q * n as real <= (k + 1) as real
  {
    var x := q * n as real;
    assert 0.0 < x <= n as real by { MulBounds(q, n as real); }
  }

  lemma MulBounds(q: real, m: real)
    requires 0.0 < q <= 1.0 && m >= 1.0
    ensures 0.0 < q * m <= m
  {
  }

  /** With a single candidate every parameter in (0, 1] picks it. */
  lemma RankSingle(q: real)
    requires 0.0 < q <= 1.0
    ensures Rank(q, 1) == Ok(0)
  {
    RankIsQuantile(q, 1);
  }

  /** Line 48 of the likelihood as written: `max(num, 1e-6) and min(num, 1)`.
      The left operand is never 0, so `and` yields the right one. */
  function ClampAsWritten(num: real): real {
    var lo := if num >= 0.000001 then num else 0.000001;
    var hi := if num <= 1.0 then num else 1.0;
    if lo != 0.0 then hi else lo
  }

  /** The expression as written is `min(num, 1)`: no lower clamp. */
  lemma ClampAsWrittenIsMin(num: real)
    ensures ClampAsWritten(num) == if num <= 1.0 then num else 1.0
  {
  }

  /** A parameter of 0 passes through unclamped and has rank -1, which
      Python's negative indexing turns into the last candidate. */
  lemma ClampAsWrittenLetsZeroThrough()
    ensures ClampAsWritten(0.0) == 0.0 && Rank(ClampAsWritten(0.0), 3) == Ok(-1)
  {
  }

  /** The evident intent of line 48: clamp into [1e-6, 1]. */
  function Clamp(num: real): (c: real)
    ensures 0.000001 <= c <= 1.0
    ensures 0.000001 <= num <= 1.0 ==> c == num
  {
    if num < 0.000001 then 0.000001 else if num > 1.0 then 1.0 else num
  }

  /** A clamped parameter always ranks inside a non-empty candidate list. */
  lemma ClampedRankInRange(num: real, n: int)
    requires n >= 1
    ensures Rank(Clamp(num), n).Ok? && 0 <= Rank(Clamp(num), n).value < n
  {
    RankIsQuantile(Clamp(num), n);
  }
}
