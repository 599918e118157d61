# INoDS core in Dafny

INoDS (Identifying contact Networks of infectious Disease Spread) asks
whether a temporal contact network explains how an infection spread through
a population. It scores the network by a network-based diffusion likelihood
sampled with parallel-tempered MCMC, and compares that score with null
networks that are randomized, partially permuted or thinned versions of the
observed one.

This project models the discrete core of the two Python modules and proves
properties of that model:

- `utils.dfy` (module `Utils`) holds Python's building blocks as values:
  - failures standing for the exceptions the code raises;
  - `sorted` as a stable insertion sort and `sorted(set)`, both on a total order;
  - list comprehensions with a filter, and `zip`;
  - `int()` truncation, and `list.remove`.
- `temporal_network.dfy` (module `TemporalNetwork`) covers the network itself:
  - the temporal network, a map from timestep to an undirected weighted graph;
  - `create_dynamic_network` from the rows of the edge table, with and without per-timestep weight normalisation;
  - `calculate_jaccard` and `calculate_mean_temporal_jaccard`.
- `health_timeline.dfy` (module `HealthTimeline`) covers the health reports:
  - `stitch_health_data`;
  - the part of `extract_health_data` after the table is read;
  - `select_healthy_time` and `select_sick_times`;
  - `find_seed_date`.
- `imputation.dfy` (module `Imputation`) prepares the diagnosis-lag model:
  - `return_contact_days_sick_nodes`, the candidate infection days of every censored sick interval;
  - `return_potention_recovery_date`, the recovery bound of every such interval;
  - the rank that `ss.randint.ppf` returns.
- `parameter_codec.dfy` (module `ParameterCodec`) covers the parameter vector:
  - `to_params`, the named view of the flat vector under each of its eight layouts, and its inverse;
  - `log_prior`'s support;
  - the dimension count of `start_nbda`;
  - its starting guess.
- `likelihood.dfy` (module `Likelihood`) covers `log_likelihood` and `infected_strength`:
  - which network is scored;
  - the diagnosis-lag imputation of infection and recovery days on deep copies of the health tables;
  - the infection pressure of each node at each timestep;
  - the learning and non-learning terms the likelihood sums, up to the hazard function.
- `null_models.dfy` (module `NullNetworks`) covers the null networks:
  - `randomize_network`;
  - `permute_network`;
  - `delete_edge_connections`.

How the model represents the program:

- **Values.** Edge weights and parameters are exact reals.
- **Nodes.** Node identifiers are strings.
- **Edges.** An undirected edge is stored with its ends in ascending order, which is the `tuple(sorted(edge))` key of the Jaccard functions.
- **Exceptions.** Every exception the modelled code can raise is a `Failure` value in a `Result`.
- **Randomness.** The random choices of the null models are supplied as inputs:
  - the `shuffle`d list;
  - the rejection proposals of `np.random.choice`.

  A rejection loop that would go on drawing is the outcome `Exhausted`.
- **Parameters.** The likelihood takes the sampler's parameter vector as its input.
- **Code changing state.** Loops that change state are `method`s. Each is proved against a function that states what the loop computes, and the source's promises are proved about that function as lemmas. Examples:
  - the stitching of one node's timeline;
  - the per-node loop of `extract_health_data`;
  - the edge-table passes;
  - the candidate-list loops;
  - the imputation loop;
  - the rejection loops;
  - the per-timestep loops of the null models.

  `FillStartingGuess` writes a row of the starting-position `array` in place.

## Model

| member | source | states |
|---|---|---|
| TemporalNetwork.EdgeOf | INoDS_convenience_functions.py:268-269 | the key of an edge has its ends in ascending order and holds exactly the two nodes given |
| TemporalNetwork.EdgeOfSymmetric | INoDS_convenience_functions.py:268-269 | both orientations of a node pair give the same edge key |
| TemporalNetwork.AddEdgeWellFormed | INoDS_convenience_functions.py:31-36 | adding an edge keeps every edge's ends among the graph's nodes |
| TemporalNetwork.CreateDynamicNetwork | INoDS_convenience_functions.py:8-39 | the two passes over the edge table build exactly the network the table describes, or the error the table causes |
| TemporalNetwork.DynamicNetworkNoIsolated | INoDS_convenience_functions.py:8-39 | the network `create_dynamic_network` returns has no node of degree 0 |
| TemporalNetwork.TotalWeights | INoDS_convenience_functions.py:11-20 | the first pass fails with ValueError exactly when some weight is not integral; otherwise it has a total for exactly the timesteps that occur, each equal to the sum of that timestep's weights |
| TemporalNetwork.AddRows | INoDS_convenience_functions.py:22-36 | the second pass divides by zero exactly when normalisation is on and some timestep's weights sum to zero; otherwise it yields the network built row by row |
| TemporalNetwork.BuildStep | INoDS_convenience_functions.py:26-36 | one more row adds or overwrites its edge in its timestep's graph, creating the graph if it is new |
| TemporalNetwork.BuildShape | INoDS_convenience_functions.py:22-39 | the network has a graph for exactly the timesteps of the rows; every graph is well formed; and an edge is present exactly when some row of that timestep joins its ends |
| TemporalNetwork.BuildEdge | INoDS_convenience_functions.py:31-36 | an edge is in a timestep's graph exactly when some row of that timestep joins its two ends, in either order |
| TemporalNetwork.BuildLastWins | INoDS_convenience_functions.py:34-36 | a repeated edge keeps the weight written by its last row |
| TemporalNetwork.BuildNoIsolated | INoDS_convenience_functions.py:31-36 | every node of every graph built has an edge, because a node enters a graph only through `add_edge` |
| TemporalNetwork.RowWeightShare | INoDS_convenience_functions.py:34 | with non-negative weights a normalised weight lies in [0, 1] |
| TemporalNetwork.NormalizedSumOne | INoDS_convenience_functions.py:34 | with normalisation on, the weights written for the rows of one timestep sum to 1 |
| TemporalNetwork.NormalizedEdgesAt | INoDS_convenience_functions.py:31-36 | with normalisation on and no node pair repeated at t, the edges written for t are distinct, are exactly the edges of the graph at t, and carry the row shares of t in order; with no row at t there is no graph and no edge |
| TemporalNetwork.AddFreshEdge | INoDS_convenience_functions.py:36 | adding an edge not yet in a graph extends a listing of its edges and weights by that edge and its weight |
| TemporalNetwork.RowEdgesFrom | INoDS_convenience_functions.py:31-36 | every edge listed for t is joined by some row of timestep t |
| TemporalNetwork.NormalizedGraphSumOne | INoDS_convenience_functions.py:17-36 | with normalisation on and no node pair repeated at t, the edge weights of the built graph at t sum to 1, whatever order the edges are listed in |
| TemporalNetwork.RepeatedPairHalves | INoDS_convenience_functions.py:17-36 | rows a-b and b-a of weight 1 at one timestep give one edge of weight 0.5, so the graph's weights do not sum to 1 |
| TemporalNetwork.SharesSum | INoDS_convenience_functions.py:34 | the normalised weights of a prefix of the rows sum to that prefix's total divided by the timestep's total |
| TemporalNetwork.TotalAtLeast | INoDS_convenience_functions.py:17-20 | with non-negative weights a row's weight is at most its timestep's total |
| TemporalNetwork.RatioFacts | INoDS_convenience_functions.py:273 | the ratio of a part to a positive whole is in [0, 1], is 1 exactly for the whole and is 0 exactly for nothing |
| TemporalNetwork.Counts | INoDS_convenience_functions.py:270-273 | the three counts are all zero exactly for two empty edge sets; the difference counts are both zero exactly for equal sets; the shared count is zero exactly for disjoint sets |
| TemporalNetwork.JaccardDefined | INoDS_convenience_functions.py:266-274 | the ratio divides by zero exactly when neither graph has an edge |
| TemporalNetwork.JaccardBoundsSymmetric | INoDS_convenience_functions.py:266-274 | the ratio lies in [0, 1] and does not depend on the order of the two graphs |
| TemporalNetwork.JaccardOne | INoDS_convenience_functions.py:266-274 | the ratio is 1 exactly when the two edge sets are equal and non-empty |
| TemporalNetwork.JaccardZero | INoDS_convenience_functions.py:266-274 | the ratio is 0 exactly when the graphs share no edge and at least one has an edge |
| TemporalNetwork.MeanTemporalJaccard | INoDS_convenience_functions.py:276-287 | the loop over the timesteps of the first network yields the mean that the specification function states |
| TemporalNetwork.CollectRatios | INoDS_convenience_functions.py:279-286 | the loop collects the per-timestep ratios, or stops at the first timestep that fails |
| TemporalNetwork.RatiosStayFailed | INoDS_convenience_functions.py:279-286 | once the loop has failed on a prefix of the timesteps, the whole loop fails the same way |
| TemporalNetwork.RatiosLength | INoDS_convenience_functions.py:279-286 | a completed loop has one ratio per timestep |
| TemporalNetwork.RatioAt | INoDS_convenience_functions.py:280-286 | the i-th ratio is the Jaccard ratio of the two graphs at the i-th timestep, and both networks have that timestep |
| TemporalNetwork.MeanJaccardBounds | INoDS_convenience_functions.py:276-287 | a defined mean temporal Jaccard lies in [0, 1] |
| TemporalNetwork.MeanJaccardDisjoint | INoDS_convenience_functions.py:276-287 | when no timestep shares an edge between the networks, the mean is 0 |
| TemporalNetwork.RatiosUndefined | INoDS_convenience_functions.py:285 | a timestep at which both graphs are edgeless makes the loop fail |
| TemporalNetwork.RatiosFailure | INoDS_convenience_functions.py:279-286 | the loop raises KeyError or ZeroDivisionError, never a NaN |
| TemporalNetwork.MeanJaccardUndefined | INoDS_convenience_functions.py:276-287 | a shared timestep with two edgeless graphs makes the mean raise; the result is NaN exactly when the first network has no timesteps |
| HealthTimeline.Timeline | INoDS_convenience_functions.py:124-125 | the sorted key list is strictly increasing and holds exactly the reported days |
| HealthTimeline.TimelineConsecutive | INoDS_convenience_functions.py:126-128 | neighbours in the sorted timeline are exactly the pairs of reports with no report between them |
| HealthTimeline.NoReportInside | INoDS_convenience_functions.py:126-130 | no report lies strictly between two neighbours of the timeline |
| HealthTimeline.FillRange | INoDS_convenience_functions.py:130 | the step loop sets every day strictly between the two reports to the state and leaves all other days unchanged |
| HealthTimeline.FillGapsKeeps | INoDS_convenience_functions.py:126-130 | filling the gaps never changes a reported day |
| HealthTimeline.FillGapsPartly | INoDS_convenience_functions.py:126-130 | after handling the first n neighbour pairs, exactly the gaps between equal reports among those pairs are filled |
| HealthTimeline.StitchReports | INoDS_convenience_functions.py:123-130 | one node's stitched reports are its stitching: the reported days are kept, and a day between two consecutive reports in the same state gets that state and is added; no other day is added |
| HealthTimeline.FillGapsStitch | INoDS_convenience_functions.py:126-130 | handling every neighbour pair of the timeline yields the stitching |
| HealthTimeline.PartlyStitchedIsStitch | INoDS_convenience_functions.py:126-130 | reports that keep every reported day and fill the gaps between all neighbour pairs are the stitching |
| HealthTimeline.StitchWithinRange | INoDS_convenience_functions.py:126-130 | stitching only adds days between a node's first and last report |
| HealthTimeline.StitchHealthData | INoDS_convenience_functions.py:121-132 | every node's reports are stitched and the set of nodes is unchanged |
| HealthTimeline.GapUnique | INoDS_convenience_functions.py:126-130 | a day lies between at most one pair of consecutive reports |
| HealthTimeline.StitchUnique | INoDS_convenience_functions.py:121-132 | the stitching of a node's reports is determined by them: two stitchings are equal |
| HealthTimeline.StitchNoGaps | INoDS_convenience_functions.py:121-132 | stitched reports have no gap left to fill |
| HealthTimeline.StitchBetween | INoDS_convenience_functions.py:126-130 | after stitching, two reports in the same state more than a day apart have a report between them |
| HealthTimeline.StitchIdempotent | INoDS_convenience_functions.py:121-132 | stitching stitched reports changes nothing |
| HealthTimeline.SelectTimesShape | INoDS_convenience_functions.py:185-190 | there are as many intervals as the shorter of the start and end candidate lists; each interval starts at a day with no earlier report or whose largest earlier state is the other state, and ends at a day with no later report or whose smallest later state is the other state; starts and ends both ascend |
| HealthTimeline.PairedShape | INoDS_convenience_functions.py:188-190 | zipping two sorted candidate lists pairs, in ascending order, days that pass the start and the end tests |
| HealthTimeline.ZipSingle | INoDS_convenience_functions.py:190 | zipping with a one-element list keeps only the first pair |
| HealthTimeline.DaysIn | INoDS_convenience_functions.py:159-164 | lists, ascending and once each, exactly the days reported in a given state |
| HealthTimeline.FirstHealthyStarts | INoDS_convenience_functions.py:185 | with binary reports the earliest healthy day is the first start candidate |
| HealthTimeline.LastHealthyOnlyEnd | INoDS_convenience_functions.py:187 | with binary reports the latest healthy day is the only end candidate, because `min` over any later report that includes a healthy one is 0 |
| HealthTimeline.HealthyTimeExact | INoDS_convenience_functions.py:180-192 | with binary reports all healthy days merge into one interval from the first healthy day to the last |
| HealthTimeline.FirstSickOnlyStart | INoDS_convenience_functions.py:200 | with binary reports the earliest sick day is the only start candidate, because `max` over any earlier report that includes a sick one is 1 |
| HealthTimeline.SickEnd | INoDS_convenience_functions.py:201 | the first end candidate is the first sick day itself when a healthy report follows it, and otherwise the last sick day |
| HealthTimeline.SickTimesExact | INoDS_convenience_functions.py:195-206 | with binary reports there is exactly one sick interval: it starts at the first sick day and ends there if a healthy report follows, else at the last sick day |
| HealthTimeline.MonotoneSickTimes | INoDS_convenience_functions.py:195-206 | reports that are healthy up to a day and sick from that day on give the single interval from the first to the last sick day |
| HealthTimeline.RecurringSickness | INoDS_convenience_functions.py:185-204 | concrete case: reports healthy, sick, healthy, sick on days 1-4 give one healthy interval (1, 3) and one sick interval (2, 2), so the second sick episode is lost |
| HealthTimeline.CoveredLast | INoDS_convenience_functions.py:174-175 | a day is covered by a list of intervals exactly when the front covers it or it lies in the last interval |
| HealthTimeline.MarkSick | INoDS_convenience_functions.py:173-175 | the marked reports hold exactly the reported days and the days inside a sick interval; those inside are sick and the others keep their reported state |
| HealthTimeline.CollectDays | INoDS_convenience_functions.py:159-161 | the day loop lists each healthy day and each sick day exactly once |
| HealthTimeline.ListedOnce | INoDS_convenience_functions.py:159-161 | a duplicate-free list holding exactly the days of one state has that set's multiset |
| HealthTimeline.ExtractNode | INoDS_convenience_functions.py:156-175 | one node's intervals are present exactly when it has a day in that state and are then selected from those days in ascending order; sick intervals are marked in the returned reports |
| HealthTimeline.SelectIfReported | INoDS_convenience_functions.py:163-171 | the interval list is computed exactly when the day list is non-empty, and from the sorted day list |
| HealthTimeline.MarkSickDays | INoDS_convenience_functions.py:173-175 | the marking loop yields exactly the reports `MarkSick` describes |
| HealthTimeline.MarkSickNext | INoDS_convenience_functions.py:174-175 | marking one more interval fills its days, both ends included, with the sick state |
| HealthTimeline.ListedIffReported | INoDS_convenience_functions.py:163-169 | a day list is non-empty exactly when some day is reported in that state |
| HealthTimeline.ExtractHealth | INoDS_convenience_functions.py:152-178 | with diagnosis lag on, every node is extracted from its stitched reports, and otherwise from its reports unchanged; other nodes are neither added nor dropped |
| HealthTimeline.ExtractNodes | INoDS_convenience_functions.py:154-175 | the per-node loop extracts every node and only those |
| HealthTimeline.BinaryExtraction | INoDS_convenience_functions.py:154-178 | with binary reports each node ends up with at most one healthy interval and at most one sick interval, at the positions `HealthyTimeExact` and `SickTimesExact` give |
| HealthTimeline.PresentDays | INoDS_convenience_functions.py:163-171 | a present interval list comes from a non-empty list of days |
| HealthTimeline.SeedDateExists | INoDS_convenience_functions.py:250-263 | there is a seed date exactly when some node has a sick interval (otherwise `sick_dates[0]` raises) |
| HealthTimeline.SeedDateIsFirst | INoDS_convenience_functions.py:253-261 | the seed date starts some node's sick interval, and no sick interval of any node starts earlier |
| Imputation.SickNodes | INoDS_convenience_functions.py:212 | the node loop visits exactly the nodes that have a sick key |
| Imputation.SickDays | INoDS_convenience_functions.py:214-215 | a node's intervals are visited, in sorted order, exactly as listed |
| Imputation.LatestEndBeforeIs | INoDS_convenience_functions.py:219-222 | there is no healthy interval ending before `time1` exactly when none is found; otherwise the result is the latest such end |
| Imputation.DayStartIs | INoDS_convenience_functions.py:217-222 | the window starts at 0 without a healthy interval ending before `time1`, and otherwise at the latest such end |
| Imputation.ContactDays | INoDS_convenience_functions.py:225 | a missing timestep raises KeyError |
| Imputation.ContactDaysMeans | INoDS_convenience_functions.py:225 | the candidate days are defined exactly when the network has the timestep before every day of the window; they then ascend and are exactly the days of the window on whose previous timestep the node has an edge, the test the comment at line 224 intends (see "## Findings" for the test as written) |
| Imputation.ContactDaysAsWrittenPresent | INoDS_convenience_functions.py:225 | where the node is in every graph the window reads, the degree test as written gives the intended candidate list |
| Imputation.ContactDaysAsWrittenKeepsAll | INoDS_convenience_functions.py:225 | on a network without isolated nodes, the test as written removes no day: the list is the whole window, and it exists exactly when every previous timestep does |
| Imputation.ContactDaysAsWrittenOnObserved | INoDS_convenience_functions.py:225 | on the network read from the edge table, the list as written holds every day of the window |
| Imputation.ContactDaysAsWrittenAbsent | INoDS_convenience_functions.py:225 | a node absent from the previous timestep's graph keeps its day as written and loses it in the intended list |
| Imputation.WithKey | INoDS_convenience_functions.py:224-225 | setting one key in every network's table keeps the set of networks |
| Imputation.AllContactDaysFail | INoDS_convenience_functions.py:224-225 | a missing timestep in any network makes the whole step fail with KeyError |
| Imputation.AllContactDaysFrom | INoDS_convenience_functions.py:224-225 | when every network yields its candidate days, the step yields them all |
| Imputation.ReturnContactDays | INoDS_convenience_functions.py:209-227 | the nested loops build exactly the candidate table that `ContactDaylist` describes, or stop at the first KeyError |
| Imputation.NodeLoopContacts | INoDS_convenience_functions.py:212-225 | the node loop over the sorted sick nodes builds the tables that `NodeContacts` describes |
| Imputation.NodeCandidates | INoDS_convenience_functions.py:214-225 | the interval loop of one node skips the seed-date intervals, adds one key per interval, and keeps one table per network |
| Imputation.AddCandidates | INoDS_convenience_functions.py:224-225 | the network loop of one interval writes the candidate days into every network's table |
| Imputation.IntervalContactsStayFailed | INoDS_convenience_functions.py:215-225 | once the interval loop fails, later intervals change nothing |
| Imputation.NodeContactsStayFailed | INoDS_convenience_functions.py:212-225 | once the node loop fails, later nodes change nothing |
| Imputation.IntervalContactsKeys | INoDS_convenience_functions.py:211-225 | the loop keeps exactly one table per network |
| Imputation.IntervalContactsAt | INoDS_convenience_functions.py:214-225 | after one node's intervals, a key is in a network's table exactly when it was already there or names a non-seed interval of the node; a new key holds its candidate days; an old key keeps its value |
| Imputation.IntervalContactsOk | INoDS_convenience_functions.py:214-225 | when every non-seed interval's window is covered by every network, the loop does not fail |
| Imputation.NodeContactsAt | INoDS_convenience_functions.py:212-225 | after the node loop, a key is in a network's table exactly when it names a non-seed sick interval of a visited node, and it holds that interval's candidate days |
| Imputation.NodeContactsOk | INoDS_convenience_functions.py:212-225 | when every window is covered by every network, the node loop does not fail |
| Imputation.ContactEntry | INoDS_convenience_functions.py:209-227 | the result has a table per network; a key is present exactly for a sick interval not starting on the seed date; its days ascend and are exactly the days after the window start, up to `time1`, on whose previous timestep the node has an edge |
| Imputation.ContactDaylistDefined | INoDS_convenience_functions.py:209-227 | the function raises exactly when some network lacks a timestep that some window needs, and then it raises KeyError |
| Imputation.NodeContactsFailure | INoDS_convenience_functions.py:212-225 | the only failure of the node loop is KeyError |
| Imputation.IntervalContactsFailure | INoDS_convenience_functions.py:215-225 | the only failure of the interval loop is KeyError |
| Imputation.MinEndAfterIs | INoDS_convenience_functions.py:239-242 | the search finds nothing exactly when no healthy interval ends after `time1`; otherwise it finds the first interval with the least such end, as Python's `min` with a key does |
| Imputation.RecoveryDateAsWrittenStale | INoDS_convenience_functions.py:238-246 | concrete case: a node whose only healthy interval ends before its sick interval raises UnboundLocalError, or silently takes a stale `recovery_date`, where the bound should be `time_max` |
| Imputation.RecoveryDateAsWrittenAgrees | INoDS_convenience_functions.py:238-246 | wherever the code as written assigns `recovery_date`, it agrees with the corrected bound |
| Imputation.RecoveryBoundIs | INoDS_convenience_functions.py:238-246 | the bound is `time_max` when no healthy interval ends after `time1`; otherwise it is the start of the first healthy interval with the least end after `time1` |
| Imputation.ReturnRecoveryDates | INoDS_convenience_functions.py:230-248 | the nested loops build exactly the bound table that `RecoveryDaylist` describes |
| Imputation.NodeLoopBounds | INoDS_convenience_functions.py:235-246 | the node loop over the sorted sick nodes builds the table that `NodeBounds` describes |
| Imputation.NodeRecoveryDates | INoDS_convenience_functions.py:236-246 | the interval loop of one node adds one bound per sick interval |
| Imputation.IntervalBoundsAt | INoDS_convenience_functions.py:237-246 | after one node's intervals, a key is present exactly when it was already present or names one of them, and a named key holds its bound |
| Imputation.NodeBoundsAt | INoDS_convenience_functions.py:235-246 | after the node loop, a key is present exactly for a sick interval of a visited node and holds its bound |
| Imputation.RecoveryEntry | INoDS_convenience_functions.py:230-248 | a key is present exactly for every sick interval of every node, including those starting on the seed date, and holds that interval's recovery bound |
| Imputation.Ceil | INoDS_model.py:50 | the rounding of `randint.ppf` to the least integer not below its argument |
| Imputation.RankIsQuantile | INoDS_model.py:50 | a parameter in (0, 1] ranks at a valid index k of n candidates, and k < q * n <= k + 1 |
| Imputation.RankSingle | INoDS_model.py:50 | with one candidate every admissible parameter picks it |
| Imputation.ClampAsWrittenIsMin | INoDS_model.py:48 | the expression as written is just `min(num, 1)`: there is no lower clamp |
| Imputation.ClampAsWrittenLetsZeroThrough | INoDS_model.py:48-50 | concrete case: a zero parameter passes the clamp and ranks at -1 |
| Imputation.Clamp | INoDS_model.py:48 | the corrected clamp lands in [1e-6, 1] and leaves a parameter there unchanged |
| Imputation.ClampedRankInRange | INoDS_model.py:48-50 | a clamped parameter always ranks at a valid index of a non-empty candidate list |
| ParameterCodec.Size | INoDS_model.py:108-153 | a record has one float each for beta and alpha, one for gamma with recovery, `nsick_param` for the diagnosis lags, and one for model with null comparison |
| ParameterCodec.OffsetOf | INoDS_model.py:108-153 | a field found in the layout fits inside the vector |
| ParameterCodec.FieldsShape | INoDS_model.py:111-153 | each of the eight branches lays out beta, alpha, then the present optional fields in the order gamma, diag_lag, model |
| ParameterCodec.AppendLayout | INoDS_model.py:108-153 | in two layouts laid end to end, a field of the second part is shifted by the first part's width |
| ParameterCodec.Offsets | INoDS_model.py:108-153 | beta is at 0 and alpha at 1; gamma is at 2 when recovery is modelled; diag_lag follows the base fields with `nsick_param` slots; model is last; an absent field has no offset |
| ParameterCodec.ShapeOffset | INoDS_model.py:108-153 | the offset and width of every field, for every combination of the three switches |
| ParameterCodec.Layout | INoDS_model.py:108-153 | the named view reads beta at v[0], alpha at v[1], gamma at v[2] only with recovery, the diagnosis lags from the base width on only with lag, and model at the last slot only with null comparison |
| ParameterCodec.EncodeLayout | INoDS_model.py:108-153 | encoding writes the fields in the order beta, alpha, gamma, diag_lag, model |
| ParameterCodec.DecodeEncode | INoDS_model.py:108-153 | decoding an encoded named view gives it back, and the encoding has the record's size |
| ParameterCodec.EncodeDecode | INoDS_model.py:108-153 | encoding a decoded vector gives it back: the view loses nothing |
| ParameterCodec.SplitVector | INoDS_model.py:108-153 | a vector of the record's size is exactly its field slices laid end to end |
| ParameterCodec.LogPrior | INoDS_model.py:202-217 | a prior that is not -inf is the power-law log-density at 1 - alpha, and 1 - alpha then lies in (0, 1], where that density is finite |
| ParameterCodec.LogPriorRejects | INoDS_model.py:202-217 | the prior is -inf exactly when beta or alpha leaves its prior range, gamma leaves the recovery range, some diagnosis lag leaves [1e-6, 1], model leaves [1e-6, 1], or 1 - alpha lies outside (0, 1], where `ss.powerlaw.logpdf(1 - alpha, 4)` is itself -inf |
| ParameterCodec.AnyLagOutsideMeans | INoDS_model.py:211 | the `.any()` test holds exactly when some lag lies outside [1e-6, 1] |
| ParameterCodec.StartDimensions | INoDS_model.py:226-236 | `nsick_param` is the number of candidate keys with diagnosis lag on and 0 otherwise; `ndim_base` and `ndim` are the base width and the record size of the layout `to_params` uses |
| ParameterCodec.FillStartingGuess | INoDS_model.py:266-278 | the named view of the filled row holds the beta draw, 1 minus the power draw as alpha, the gamma draw only with recovery, the lag draws only with lag, and the model draw only with null comparison |
| ParameterCodec.GuessParams | INoDS_model.py:266-278 | a vector that holds each draw in its field's slots decodes to exactly those draws |
| Likelihood.KeyLeTotal | INoDS_convenience_functions.py:212-215 | Python's order on (node, day, day) tuples is total, so `sorted` is well defined |
| Likelihood.DateLeTotal | INoDS_model.py:79 | Python's order on (node, day) tuples is total |
| Utils.SumOfPermutation | INoDS_model.py:104-105 | a sum does not depend on the order of its summands |
| Likelihood.NeighborList | INoDS_model.py:104 | the neighbour loop visits every neighbour of the node exactly once |
| Likelihood.StrengthOrderFree | INoDS_model.py:102-105 | the strength is the same whatever order networkx lists the neighbours in |
| Likelihood.StrengthBounds | INoDS_model.py:102-105 | with non-negative weights the strength lies between 0 and the node's total edge weight |
| Likelihood.ContributionBounds | INoDS_model.py:104 | with a non-negative weight a neighbour contributes between 0 and its edge weight |
| Likelihood.StrengthNoSickNeighbor | INoDS_model.py:102-105 | a node with no neighbour sick at the timestep has strength 0 |
| Likelihood.StrengthAllSick | INoDS_model.py:102-105 | when every neighbour is sick, the strength is the node's total edge weight |
| Likelihood.StrengthDefined | INoDS_model.py:102-105 | the strength is defined exactly when every neighbour has a row in the health table, and it raises KeyError otherwise |
| Likelihood.InfectedDegreeEntry | INoDS_model.py:75-76 | every listed node has a pressure at every timestep; it is non-negative; it is 0 for a node absent from that timestep's graph and for a node with no sick neighbour |
| Likelihood.InfectedDegreeDefined | INoDS_model.py:75-76 | the pressure table is defined exactly when every neighbour of every listed node present in a graph has a health row |
| Likelihood.ChooseNetworkIn | INoDS_model.py:31-37 | with networks indexed 0 to n-1 and an admissible `model`, the index scored is a valid network index, and it is 0 without null comparison |
| Likelihood.ChooseSingleNetwork | INoDS_model.py:31-37 | with a single network every admissible `model` picks it |
| Likelihood.UniformDayBounds | INoDS_model.py:59 | the truncated uniform quantile lies between the infection day and the recovery bound |
| Likelihood.InfectionPick | INoDS_model.py:50-51 | the imputed infection day is one of the candidate days |
| Likelihood.InfectionPickSingle | INoDS_model.py:50-51 | a single candidate day is always the one imputed |
| Likelihood.DiagSteps | INoDS_model.py:49 | every key the loop visits has a candidate list |
| Likelihood.StepsLength | INoDS_model.py:49 | the loop makes as many passes as the shorter of the sorted keys and the lag parameters, as `zip` does |
| Likelihood.ImputeDiagLag | INoDS_model.py:46-66 | the diagnosis-lag branch yields exactly the imputation that `DiagLagImputation` describes |
| Likelihood.ImputeSteps | INoDS_model.py:49-66 | the imputation loop updates the copies pass by pass and stops at the first pass that returns -inf or raises |
| Likelihood.ImputePass | INoDS_model.py:50-66 | one pass of the loop body yields the outcome `ImputeStep` describes |
| Likelihood.ImputeAllStops | INoDS_model.py:49-66 | once a pass does not complete, the rest of the loop never runs |
| Likelihood.RecoveryDayBounds | INoDS_model.py:52-59 | without recovery the recovery day is `time2`; with it, a missing bound raises KeyError, a bound after the infection day gives a day between the two, and any other bound raises ValueError |
| Likelihood.ImputeStepInfeasible | INoDS_model.py:62 | a pass makes the likelihood -inf exactly when recovery is modelled and the imputed recovery day is not after `time2` |
| Likelihood.ReplaceNeverInfeasible | INoDS_model.py:63-66 | replacing an interval never returns -inf |
| Likelihood.ImputeStepInterval | INoDS_model.py:50-64 | a completed pass appends the imputed (node, day), and the day is a candidate; the recovery day is `time2` without recovery and after `time2` with it; the node's sick intervals lose the censored interval and end with the imputed one; healthy intervals and other nodes are unchanged |
| Likelihood.ImputeStepDate | INoDS_model.py:53 | a completed pass appends the imputed infection day to the infection dates |
| Likelihood.ImputeStepDays | INoDS_model.py:66 | a completed pass marks every day of the imputed interval sick, and changes no other day of the node and no other node |
| Likelihood.ImputeAllDates | INoDS_model.py:49-66 | a completed loop adds one infection date per pass after the earlier ones, naming that pass's node and one of its candidate days |
| Likelihood.ImputeAllFrame | INoDS_model.py:49-66 | a node no pass names keeps its health intervals and its reports |
| Likelihood.DiagLagImputationDates | INoDS_model.py:46-66 | a completed imputation has one infection date per pass, each for a key with a candidate list and one of its days |
| Likelihood.ImputeAllKeyed | INoDS_model.py:49-66 | every date the loop adds belongs to a key of the candidate table |
| Likelihood.DiagLagImputationFrame | INoDS_model.py:46-66 | a node without a candidate key keeps its health intervals and its reports |
| Likelihood.NoRecoveryFeasible | INoDS_model.py:56-62 | without recovery the imputation never returns -inf |
| Likelihood.StartsOf | INoDS_model.py:72 | the inner loop lists (node, `time1`) for each sick interval, in list order |
| Likelihood.NodeOrder | INoDS_model.py:69 | the node loop visits every node exactly once |
| Likelihood.InfectionStartsMeans | INoDS_model.py:69-72 | a date is listed exactly when it starts a sick interval of a visited node |
| Likelihood.ReportedInfectionsMeans | INoDS_model.py:68-72 | without diagnosis lag the infection dates are exactly the starts of every node's sick intervals |
| Likelihood.ReportedInfectionDates | INoDS_model.py:68-72 | the loop builds exactly the list `ReportedInfections` describes |
| Likelihood.StartsLoop | INoDS_model.py:69-72 | the outer loop appends the starts of each visited node in turn |
| Likelihood.AppendStarts | INoDS_model.py:72 | the inner loop appends one (node, `time1`) per sick interval |
| Likelihood.PressuresOfMeans | INoDS_model.py:79 | the learning pressures are defined exactly when every date has the previous day's pressure (otherwise KeyError); the i-th is the pressure of the i-th date's node on the day before that date |
| Likelihood.LearnDatesMeans | INoDS_model.py:79 | the learning dates are sorted, and hold each infection date as often as it occurs, except that a date on the seed day does not occur at all |
| Likelihood.KeysOf | INoDS_model.py:83 | the inner comprehension lists (node, day1, day2) for each healthy interval |
| Likelihood.HealthyKeysOverMeans | INoDS_model.py:83 | a key is listed exactly when it names a healthy interval of a visited node |
| Likelihood.HealthyKeysMeans | INoDS_model.py:83 | every healthy interval of every node is listed, and nothing else |
| Likelihood.DayPressuresMeans | INoDS_model.py:86 | one healthy interval's pressures are defined exactly when every day of it has the previous day's pressure (otherwise KeyError), one per day |
| Likelihood.DayPressureAt | INoDS_model.py:86 | the j-th entry is the node's pressure on the day before day `day1 + j` |
| Likelihood.NotLearnLoop | INoDS_model.py:85-87 | the loop appends one entry per healthy interval in sorted key order, or stops at the first KeyError |
| Likelihood.NotLearnStops | INoDS_model.py:85-87 | once the loop fails, later intervals change nothing |
| Likelihood.NotLearnOverMeans | INoDS_model.py:85-87 | the i-th entry holds the day pressures of the i-th healthy interval |
| Likelihood.NotLearnLength | INoDS_model.py:85-87 | a completed loop has one entry per healthy interval |
| Likelihood.ToParamsLayout | INoDS_model.py:28 | the named view has a diag_lag field exactly with diagnosis lag, a gamma field exactly with recovery, and a model field exactly with null comparison |
| Likelihood.LogLikelihoodTerms | INoDS_model.py:24-95 | the likelihood of a parameter vector is built from the terms `LikelihoodTerms` describes |
| Likelihood.ScoreSteps | INoDS_model.py:28-95 | choose the network, impute, then collect the terms, in that order, stopping at -inf or at the first exception |
| Likelihood.ImputeInfections | INoDS_model.py:45-72 | the infection dates and tables come from the imputation with diagnosis lag and from the reported sick intervals without it |
| Likelihood.CollectTerms | INoDS_model.py:75-87 | the pressure table, then the learning terms, then the non-learning terms |
| Likelihood.MinusInfOnlyFromRecovery | INoDS_model.py:24-95 | the likelihood returns -inf early, at line 62, only when both diagnosis lag and recovery are modelled |
| Likelihood.MinusInfNeedsFields | INoDS_model.py:46-66 | an early -inf return needs both the diag_lag and the gamma fields |
| Likelihood.TermsNeverMinusInf | INoDS_model.py:75-87 | collecting the terms never returns -inf by itself |
| Likelihood.NoRecoveryAll | INoDS_model.py:49-66 | without recovery no pass of the loop returns -inf |
| Likelihood.ScoredShape | INoDS_model.py:24-95 | a scored likelihood names a valid network (0 without null comparison) and a completed imputation, and has one learning term per non-seed infection date and one non-learning entry per healthy interval |
| Likelihood.TermsShape | INoDS_model.py:75-87 | the collected terms name the network scored, with one learning term per non-seed infection date and one non-learning entry per healthy interval |
| NullNetworks.BagRemove | INoDS_convenience_functions.py:74-76 | any edge's weight can be taken out of the weight bag first |
| NullNetworks.BagAgree | INoDS_convenience_functions.py:71-74 | the weight bag depends only on the weights of the edges it collects |
| NullNetworks.BagAdd | INoDS_convenience_functions.py:85 | a new edge adds exactly its weight to the bag |
| NullNetworks.BagSize | INoDS_convenience_functions.py:101 | the bag holds one weight per edge |
| NullNetworks.BagSplit | INoDS_convenience_functions.py:74-76 | collecting some edges and then the others collects them all |
| NullNetworks.RewireLoop | INoDS_convenience_functions.py:79-86 | the rejection loop consumes the proposals in order, accepted or rejected, and yields what `Rewire` describes |
| NullNetworks.RewireKeeps | INoDS_convenience_functions.py:79-86 | a completed loop keeps the nodes and every existing edge with its weight, stays well formed, and adds no edge that must be avoided |
| NullNetworks.RewireCount | INoDS_convenience_functions.py:79-86 | a completed loop adds exactly as many edges as needed, and needs at most as many weights as are supplied |
| NullNetworks.AddNewEdge | INoDS_convenience_functions.py:83 | adding a new edge between two existing nodes adds exactly one edge and no node |
| NullNetworks.RewireSpends | INoDS_convenience_functions.py:85 | the weights a completed loop assigns are the last `need` weights of the list, since `pop` takes from its end |
| NullNetworks.RewireFails | INoDS_convenience_functions.py:79-86 | the loop raises ValueError only with fewer than two nodes, and IndexError only when the weight list runs out |
| NullNetworks.FairLength | INoDS_convenience_functions.py:65-66 | a fair draw has one edge and one weight per edge of the graph |
| NullNetworks.TimestepsAt | INoDS_convenience_functions.py:60 | a completed per-timestep loop has built each timestep it visited, and no other |
| NullNetworks.TimestepsNext | INoDS_convenience_functions.py:60 | one more pass adds the next timestep's graph or stops the loop |
| NullNetworks.TimestepsStop | INoDS_convenience_functions.py:60 | once a prefix of the loop stops, the whole loop stops there |
| NullNetworks.Report | INoDS_convenience_functions.py:114 | the final mean temporal Jaccard raises whatever it raises except NaN, which is only printed; otherwise the built network is returned |
| NullNetworks.ReportedEdges | INoDS_convenience_functions.py:114 | a reported network is the built one, and has a defined Jaccard ratio at every shared timestep |
| NullNetworks.ReportedRunMean | INoDS_convenience_functions.py:114 | the mean Jaccard of a reported run is defined, or is NaN |
| NullNetworks.ReportedRunAt | INoDS_convenience_functions.py:114 | a reported run holds the built graph at each of its timesteps, each with a defined Jaccard ratio to the original |
| NullNetworks.RandomizeNetwork | INoDS_convenience_functions.py:95-118 | randomizing builds exactly the network `RandomizedNetwork` describes |
| NullNetworks.RandomizeTimesteps | INoDS_convenience_functions.py:98-111 | the loop randomizes each timestep in turn |
| NullNetworks.RandomizedGraphMeans | INoDS_convenience_functions.py:98-111 | a randomized graph keeps the node set, the number of edges and the multiset of weights, and shares no edge with the original |
| NullNetworks.RandomizedGraphFails | INoDS_convenience_functions.py:103-111 | randomizing a timestep raises only ValueError, and only for a graph with an edge but fewer than two nodes |
| NullNetworks.RandomizedNetworkAt | INoDS_convenience_functions.py:95-118 | every timestep of a randomized network keeps its nodes, its number of edges and its weights, and has Jaccard ratio 0 to the original |
| NullNetworks.RandomizedMeanJaccard | INoDS_convenience_functions.py:114 | the mean temporal Jaccard between a network and its randomization is 0, or NaN when there are no timesteps |
| NullNetworks.CopyLoop | INoDS_convenience_functions.py:68-73 | the copy loop yields what `Copy` describes |
| NullNetworks.CopyStops | INoDS_convenience_functions.py:68-73 | once the copy fails, later edges change nothing |
| NullNetworks.CopyEdges | INoDS_convenience_functions.py:68-73 | copying edges of the original succeeds; the result holds the old and the copied edges, the copied ones with their original weights; the tracked weights are those weights, in order |
| NullNetworks.CopyNodes | INoDS_convenience_functions.py:70 | the graph gains exactly the end nodes of the copied edges |
| NullNetworks.TrackBag | INoDS_convenience_functions.py:73-76 | the tracked weights of distinct copied edges are, as a multiset, the bag of those edges |
| NullNetworks.ElementsOfInit | INoDS_convenience_functions.py:69 | popping the last of distinct edges removes exactly that edge from the set |
| NullNetworks.Popped | INoDS_convenience_functions.py:68-69 | `pop` taken k times yields the last k elements, last first |
| NullNetworks.RemoveEach | INoDS_convenience_functions.py:76 | the removal loop yields what `RemoveAll` describes |
| NullNetworks.RemoveAllMeans | INoDS_convenience_functions.py:76 | removing weights that the list holds succeeds, and leaves the multiset difference |
| NullNetworks.PermuteGraph | INoDS_convenience_functions.py:60-88 | permuting one timestep yields what `PermutedGraph` describes |
| NullNetworks.SwapLoop | INoDS_convenience_functions.py:74-88 | the weight removal, the rejection loop and the Jaccard check run in that order |
| NullNetworks.KeptPhase | INoDS_convenience_functions.py:65-76 | the kept phase of a fair draw copies exactly the popped edges, with their weights, and the tracked weights are their bag |
| NullNetworks.PoppedEdges | INoDS_convenience_functions.py:65-69 | the popped edges are distinct edges of the graph |
| NullNetworks.KeptGraph | INoDS_convenience_functions.py:61-73 | the kept phase succeeds on the original node set and stays well formed |
| NullNetworks.LeftPhase | INoDS_convenience_functions.py:74-76 | removing the tracked weights from the full list succeeds and leaves the weights of the edges not kept |
| NullNetworks.SwapsBounds | INoDS_convenience_functions.py:63 | for a permutation share in [0, 1] the number of swaps is between 0 and the number of edges |
| NullNetworks.SwapPhase | INoDS_convenience_functions.py:63-86 | a completed swap phase keeps the nodes and the kept edges, and restores the number of edges and the multiset of weights |
| NullNetworks.RewireFinish | INoDS_convenience_functions.py:74-86 | the rejection loop places exactly the weights left over, as many as were removed |
| NullNetworks.PermutedGraphMeans | INoDS_convenience_functions.py:60-88 | a permuted graph keeps the nodes, the number of edges and the multiset of weights, and keeps the last `len - int(p * len)` shuffled edges with their weights |
| NullNetworks.PermutedGraphFails | INoDS_convenience_functions.py:60-88 | for a share in [0, 1], permuting raises only ValueError with fewer than two nodes, or ZeroDivisionError for an edgeless graph |
| NullNetworks.CheckedFails | INoDS_convenience_functions.py:79-88 | the rejection loop and the Jaccard check fail only in those two ways |
| NullNetworks.PermuteNetwork | INoDS_convenience_functions.py:56-91 | permuting builds exactly the network `PermutedNetwork` describes |
| NullNetworks.PermuteTimesteps | INoDS_convenience_functions.py:60-88 | the loop permutes each timestep in turn |
| NullNetworks.PermutedNetworkAt | INoDS_convenience_functions.py:56-91 | every timestep of a permuted network keeps its nodes, its number of edges and its weights, and keeps the last `len - int(p * len)` shuffled edges with their weights |
| NullNetworks.CountEdges | INoDS_convenience_functions.py:351-355 | the counting loop yields the total number of edges over the timesteps |
| NullNetworks.SliceFromMeans | INoDS_convenience_functions.py:365 | Python's slice `edgelist[k:]` is a suffix: all but the first k for k >= 0, and the last -k for k < 0 |
| NullNetworks.DeleteEdgeConnections | INoDS_convenience_functions.py:349-371 | thinning builds exactly the network `DeletedNetwork` describes |
| NullNetworks.ThinTimesteps | INoDS_convenience_functions.py:361-368 | the loop thins each timestep in turn |
| NullNetworks.DeletedNetworkAt | INoDS_convenience_functions.py:349-371 | a network with no timesteps raises; every timestep of the result holds exactly the edges of the shuffled slice, with their original weights, and the original timestep has an edge |
| NullNetworks.DeletedSteps | INoDS_convenience_functions.py:361-370 | every timestep of the result is the thinned graph of that timestep, with a defined Jaccard ratio to the original |
| NullNetworks.DefinedHasEdges | INoDS_convenience_functions.py:370 | a defined Jaccard ratio against a subgraph means the original has an edge |
| NullNetworks.ThinSlice | INoDS_convenience_functions.py:363-365 | the kept slice of a fair shuffle holds distinct edges of the graph |
| NullNetworks.ThinnedGraphMeans | INoDS_convenience_functions.py:361-368 | a thinned timestep succeeds and holds exactly the edges of the slice, with their original weights |
| NullNetworks.ThinnedCount | INoDS_convenience_functions.py:365 | a thinned timestep has `len - k` edges for a cut 0 <= k <= len, none for a larger cut, and min(-k, len) for a negative cut |
| NullNetworks.DistinctCount | INoDS_convenience_functions.py:365-366 | a map holding exactly the edges of a duplicate-free list has that many entries |
| NullNetworks.ThinnedNodes | INoDS_convenience_functions.py:366 | a thinned timestep holds exactly the nodes its edges touch, and is well formed |
| Utils.SortedSet | INoDS_convenience_functions.py:125 | `sorted` of a set lists each element exactly once, in ascending order |
| Utils.Sort | INoDS_convenience_functions.py:164 | `sorted` of a list rearranges it |
| Utils.SortSorted | INoDS_convenience_functions.py:164 | under a total order `sorted` yields an ascending list |
| Utils.SortedUnique | INoDS_convenience_functions.py:188-189 | two ascending rearrangements of one list are equal |
| Utils.SortOfSetList | INoDS_convenience_functions.py:164 | sorting a list that holds each element of a set once gives the set in ascending order |
| Utils.Filter | INoDS_convenience_functions.py:185 | a filtering comprehension keeps exactly the elements that pass the test |
| Utils.FilterPermutation | INoDS_model.py:79 | filtering two rearrangements of one list gives rearrangements of one list |
| Utils.Zip | INoDS_convenience_functions.py:190 | `zip` pairs elements by position and stops at the shorter list |
| Utils.Trunc | INoDS_convenience_functions.py:356-357 | `int()` truncates toward zero |
| Utils.RemoveFirstMeans | INoDS_convenience_functions.py:76 | `list.remove` succeeds exactly on a member and takes away one copy of it |
| Utils.StrLeTotal | INoDS_convenience_functions.py:212 | Python's order on strings is total |

## Definitions

The functions and predicates that define what the modelled code computes. Their properties are stated by the members named in the last column, each of which has a row under "## Model".

| definition | source | properties stated by |
|---|---|---|
| TemporalNetwork.Build | INoDS_convenience_functions.py:22-36 | TemporalNetwork.BuildShape, TemporalNetwork.BuildEdge, TemporalNetwork.BuildLastWins, TemporalNetwork.BuildNoIsolated |
| TemporalNetwork.DynamicNetwork | INoDS_convenience_functions.py:8-39 | TemporalNetwork.CreateDynamicNetwork, TemporalNetwork.TotalWeights, TemporalNetwork.AddRows, TemporalNetwork.DynamicNetworkNoIsolated |
| TemporalNetwork.EdgeWeights | INoDS_convenience_functions.py:36 | TemporalNetwork.NormalizedGraphSumOne |
| TemporalNetwork.RowEdgesAt | INoDS_convenience_functions.py:31-36 | TemporalNetwork.NormalizedEdgesAt, TemporalNetwork.RowEdgesFrom |
| TemporalNetwork.Carries | INoDS_convenience_functions.py:36 | TemporalNetwork.AddFreshEdge, TemporalNetwork.NormalizedEdgesAt |
| TemporalNetwork.HasContact | INoDS_convenience_functions.py:225 | Imputation.ContactDaysMeans |
| TemporalNetwork.Jaccard | INoDS_convenience_functions.py:266-274 | TemporalNetwork.JaccardDefined, TemporalNetwork.JaccardBoundsSymmetric, TemporalNetwork.JaccardOne, TemporalNetwork.JaccardZero |
| TemporalNetwork.RatiosOver | INoDS_convenience_functions.py:279-286 | TemporalNetwork.CollectRatios, TemporalNetwork.RatiosLength, TemporalNetwork.RatioAt, TemporalNetwork.RatiosFailure |
| TemporalNetwork.MeanJaccard | INoDS_convenience_functions.py:276-287 | TemporalNetwork.MeanTemporalJaccard, TemporalNetwork.MeanJaccardBounds, TemporalNetwork.MeanJaccardDisjoint, TemporalNetwork.MeanJaccardUndefined |
| HealthTimeline.IsStitchOf | INoDS_convenience_functions.py:121-132 | HealthTimeline.StitchReports, HealthTimeline.PartlyStitchedIsStitch, HealthTimeline.StitchUnique, HealthTimeline.StitchIdempotent |
| HealthTimeline.SelectTimes | INoDS_convenience_functions.py:185-190 | HealthTimeline.SelectTimesShape, HealthTimeline.PresentDays |
| HealthTimeline.SelectHealthyTime | INoDS_convenience_functions.py:180-192 | HealthTimeline.HealthyTimeExact, HealthTimeline.RecurringSickness |
| HealthTimeline.SelectSickTimes | INoDS_convenience_functions.py:195-206 | HealthTimeline.SickTimesExact, HealthTimeline.MonotoneSickTimes, HealthTimeline.RecurringSickness |
| HealthTimeline.Extracted | INoDS_convenience_functions.py:154-175 | HealthTimeline.ExtractNode, HealthTimeline.ExtractNodes, HealthTimeline.BinaryExtraction |
| HealthTimeline.FindSeedDate | INoDS_convenience_functions.py:250-263 | HealthTimeline.SeedDateExists, HealthTimeline.SeedDateIsFirst |
| Imputation.ContactDaylist | INoDS_convenience_functions.py:209-227 | Imputation.ReturnContactDays, Imputation.ContactEntry, Imputation.ContactDaylistDefined |
| Imputation.ContactDaysAsWritten | INoDS_convenience_functions.py:225 | Imputation.ContactDaysAsWrittenPresent, Imputation.ContactDaysAsWrittenKeepsAll, Imputation.ContactDaysAsWrittenAbsent |
| Imputation.RecoveryDateAsWritten | INoDS_convenience_functions.py:238-246 | Imputation.RecoveryDateAsWrittenStale, Imputation.RecoveryDateAsWrittenAgrees |
| Imputation.RecoveryBound | INoDS_convenience_functions.py:238-246 | Imputation.RecoveryBoundIs, Imputation.RecoveryDateAsWrittenAgrees |
| Imputation.RecoveryDaylist | INoDS_convenience_functions.py:230-248 | Imputation.ReturnRecoveryDates, Imputation.RecoveryEntry |
| Imputation.Rank | INoDS_model.py:50 | Imputation.RankIsQuantile, Imputation.RankSingle, Imputation.ClampedRankInRange |
| ParameterCodec.Fields | INoDS_model.py:111-153 | ParameterCodec.FieldsShape, ParameterCodec.Offsets, ParameterCodec.ShapeOffset |
| ParameterCodec.ToParams | INoDS_model.py:108-153 | ParameterCodec.Layout, ParameterCodec.DecodeEncode, ParameterCodec.EncodeDecode, ParameterCodec.SplitVector |
| Likelihood.InfectedStrength | INoDS_model.py:102-105 | Likelihood.StrengthOrderFree, Likelihood.StrengthBounds, Likelihood.StrengthNoSickNeighbor, Likelihood.StrengthAllSick, Likelihood.StrengthDefined |
| Likelihood.Pressure | INoDS_model.py:76 | Likelihood.InfectedDegreeEntry |
| Likelihood.InfectedDegree | INoDS_model.py:75-76 | Likelihood.InfectedDegreeEntry, Likelihood.InfectedDegreeDefined |
| Likelihood.ChooseNetwork | INoDS_model.py:31-37 | Likelihood.ChooseNetworkIn, Likelihood.ChooseSingleNetwork |
| Likelihood.UniformDay | INoDS_model.py:59 | Likelihood.UniformDayBounds |
| Likelihood.RecoveryDay | INoDS_model.py:52-59 | Likelihood.RecoveryDayBounds |
| Likelihood.Replace | INoDS_model.py:63-66 | Likelihood.ReplaceNeverInfeasible, Likelihood.ImputeStepInterval, Likelihood.ImputeStepDays |
| Likelihood.ImputeStep | INoDS_model.py:50-66 | Likelihood.ImputePass, Likelihood.ImputeStepInfeasible, Likelihood.ImputeStepInterval, Likelihood.ImputeStepDate, Likelihood.ImputeStepDays |
| Likelihood.ImputeAll | INoDS_model.py:49-66 | Likelihood.ImputeSteps, Likelihood.ImputeAllStops, Likelihood.ImputeAllDates, Likelihood.ImputeAllFrame, Likelihood.ImputeAllKeyed |
| Likelihood.DiagLagImputation | INoDS_model.py:46-66 | Likelihood.ImputeDiagLag, Likelihood.DiagLagImputationDates, Likelihood.DiagLagImputationFrame, Likelihood.NoRecoveryFeasible |
| Likelihood.ReportedInfections | INoDS_model.py:68-72 | Likelihood.ReportedInfectionDates, Likelihood.ReportedInfectionsMeans |
| Likelihood.LearnDates | INoDS_model.py:79 | Likelihood.LearnDatesMeans |
| Likelihood.LearnTerms | INoDS_model.py:79 | Likelihood.PressuresOfMeans, Likelihood.LearnDatesMeans, Likelihood.TermsShape |
| Likelihood.DayPressures | INoDS_model.py:86 | Likelihood.DayPressuresMeans, Likelihood.DayPressureAt |
| Likelihood.NotLearnTerms | INoDS_model.py:83-87 | Likelihood.NotLearnLoop, Likelihood.NotLearnOverMeans, Likelihood.NotLearnLength, Likelihood.HealthyKeysMeans |
| Likelihood.LikelihoodTerms | INoDS_model.py:24-95 | Likelihood.LogLikelihoodTerms, Likelihood.MinusInfOnlyFromRecovery, Likelihood.ScoredShape |
| Likelihood.ScoreOf | INoDS_model.py:28-95 | Likelihood.ScoreSteps, Likelihood.ImputeInfections, Likelihood.CollectTerms, Likelihood.MinusInfNeedsFields |
| NullNetworks.Rewire | INoDS_convenience_functions.py:79-86 | NullNetworks.RewireLoop, NullNetworks.RewireKeeps, NullNetworks.RewireCount, NullNetworks.RewireSpends, NullNetworks.RewireFails |
| NullNetworks.Reported | INoDS_convenience_functions.py:114 | NullNetworks.Report, NullNetworks.ReportedEdges, NullNetworks.ReportedRunMean, NullNetworks.ReportedRunAt |
| NullNetworks.RandomizedGraph | INoDS_convenience_functions.py:98-111 | NullNetworks.RandomizedGraphMeans, NullNetworks.RandomizedGraphFails |
| NullNetworks.RandomizedNetwork | INoDS_convenience_functions.py:95-118 | NullNetworks.RandomizeNetwork, NullNetworks.RandomizedNetworkAt, NullNetworks.RandomizedMeanJaccard |
| NullNetworks.PermutedGraph | INoDS_convenience_functions.py:60-88 | NullNetworks.PermuteGraph, NullNetworks.PermutedGraphMeans, NullNetworks.PermutedGraphFails |
| NullNetworks.Checked | INoDS_convenience_functions.py:88 | NullNetworks.CheckedFails |
| NullNetworks.PermutedNetwork | INoDS_convenience_functions.py:56-91 | NullNetworks.PermuteNetwork, NullNetworks.PermutedNetworkAt |
| NullNetworks.ThinnedGraph | INoDS_convenience_functions.py:361-368 | NullNetworks.ThinnedGraphMeans, NullNetworks.ThinnedCount, NullNetworks.ThinnedNodes |
| NullNetworks.DeletedNetwork | INoDS_convenience_functions.py:349-371 | NullNetworks.DeleteEdgeConnections, NullNetworks.DeletedNetworkAt, NullNetworks.DeletedSteps |

## Left out

- TemporalNetwork.NormalizedGraphSumOne: holds only when no node pair repeats within a timestep. A repeated pair counts every one of its weights in the timestep's total at line 23, but `add_edge` keeps only the last share, so the graph's weights then sum to less than 1 (`TemporalNetwork.RepeatedPairHalves`).
- File input: the two CSV tables are given to the model as their rows.
  - `create_dynamic_network` takes the edge rows as records.
  - `extract_health_data` starts from the reports after the table is read (lines 140-150).
  - The parse of a non-numeric timestep or diagnosis is not modelled.
  - A weight is modelled as a number, not as its text. With normalisation on, `int(row[2])` raises ValueError on any text that is not an integer literal. That includes a text such as `2.0`, whose value `Integral` accepts. The model therefore fails the first pass exactly for a weight whose value is not whole.
- The sampler is not modelled. This covers:
  - `start_nbda` beyond its dimension count and starting guess;
  - `PTSampler`, its threads and the temperature ladder;
  - the Bayes-factor and summary routines;
  - convergence checks;
  - plotting;
  - pickling, and all printing.
- The floating-point numerics are not modelled. The likelihood is modelled up to its terms:
  - the pressure behind each learning and non-learning term;
  - which network is scored;
  - `-inf` from the recovery check.

  `calculate_lambda1`, `np.log`, `np.exp`, the sums of logarithms, the final NaN test and the value of `ss.powerlaw.logpdf` are floating-point computations; a prior other than -inf is recorded as the point at which that density is taken.
- Random draws are inputs:
  - the lists produced by `shuffle`;
  - the proposals of `np.random.choice`;
  - the draws of `np.random.uniform` and `np.random.power`.

  The model constrains the shuffles only to list each edge once (`Lists`) and to list the same weights (`Fair`). A rejection loop that would never end on the supplied proposals is the outcome `Exhausted`, since an endless random loop cannot be a terminating function.
- Iteration order: `sorted` is modelled exactly. Any other iteration over a dict or a networkx graph is taken in ascending key order, which Python 2 and networkx 1.x do not promise. Every property proved also holds for the orders that matter:
  - the neighbour sum is order-free (`StrengthOrderFree`);
  - sets and maps are order-free;
  - `ImputeStepInterval` states only the multiset of a node's sick intervals, plus the new last entry.
- Printed warnings are not modelled: the Jaccard warnings at lines 115-116 and 370, and `check!!!` at line 84.
- `log_likelihood` refers to names it never defines: `contact_daylist` and `recovery_daylist` at lines 49 and 57, and `new_infection_date` at line 59. `start_nbda` passes an extra argument at line 284. The model follows the evident intent:
  - the candidate lists and recovery bounds of `start_nbda` are explicit inputs of `LikelihoodTerms`;
  - line 59 uses the infection day just imputed.
- `find_aggregate_timestep`, `check_edge_weights`, `check_init_pars`, `compute_diagnosis_lag_truth` and the plotting helpers are diagnostics outside the inference and are not modelled.
- `G[t].degree(node)` for a node absent from `G[t]`: networkx 1.x returns a dict, not a number. The dict holds the degrees of any nodes named by single characters of the node's name, because `nbunch_iter` iterates the string. Python 2 orders every dict above 0, so line 225 as written keeps that day. The model states this as written (`ContactDaysAsWritten`) and uses the intended test (`ContactDays`, no contact for an absent node); see "## Findings".
- `to_params` declares `diag_lag` with `nsick_param` slots. When `nsick_param` is 1, numpy of the Python 2 era makes that field a scalar rather than a one-element array. `p['diag_lag'][0]` at line 47 is then a float, and the comprehension at line 48 raises TypeError. `log_prior`'s `.any()` at line 211 accepts the scalar, so the sampler does reach the likelihood. The model follows the evident intent: `ToParams` gives a one-element lag list, and the imputation proceeds as it does for longer lists.
- The mean of no ratios in `calculate_mean_temporal_jaccard` is modelled as the failure value `NotANumber`, since numpy returns NaN and raises nothing. The null models only print it.
- The weight bags of the null models (`BagOver`, `WeightBag`) are ghost: they state the multiset of weights a graph carries and are not computed.
- Python 2 integer division does not arise in the modelled code: every division there has a float operand. `int()` is modelled as truncation toward zero (`Utils.Trunc`).
- The comment at INoDS_convenience_functions.py:183 says that a healthy interval starts when "the prior report was sick". The code at line 185 instead takes `max` over all earlier reports. The model follows the code, and `RecurringSickness` shows the difference.
- `create_dynamic_network`'s networkx graphs also keep the insertion order of their edges. The model keeps only the node set and the weight map.
- `delete_edge_connections` builds each new graph from its kept edges only, so an isolated node of the original is dropped. The model does the same (`ThinnedNodes`).
- ParameterCodec.LogPrior: does not model the value of the power-law log-density. It records only that a prior other than -inf is that density taken at 1 - alpha, which then lies in (0, 1].
- Likelihood.LogLikelihoodTerms: states the terms the likelihood sums, not their floating-point sum, and not the NaN check at line 94.
- Likelihood.MinusInfOnlyFromRecovery: states only the early return of -inf at line 62. The floating-point sum at line 91 is also -inf when a learning term has beta * pressure + alpha = 0, because `calculate_lambda1` is then 0 and `np.log(0)` is -inf. An example is alpha = 0, which an alpha prior starting at 0 admits, together with a learning date whose previous-day pressure is 0. Line 94 then returns -inf with neither diagnosis lag nor recovery modelled.
- NullNetworks.RandomizeNetwork: states the result for the supplied draws; the distribution of a random network is not modelled.
- NullNetworks.PermuteNetwork: states the result for the supplied draws; the distribution of a random network is not modelled.

## Findings

| source | as written | input that shows it | evidently intended | confidence | as-written member | corrected member |
|---|---|---|---|---|---|---|
| INoDS_model.py:48 | `max(num, 0.000001) and min(num, 1)` evaluates to `min(num, 1)`, because the first operand is always truthy; a lag parameter of 0 is not raised to 1e-6 | diag_lag 0.0 with 3 candidate days: `randint.ppf(0, 0, 3)` is -1, so line 51 takes the last candidate day instead of the first | clamp each lag into [1e-6, 1] | high for the expression, not executed | Imputation.ClampAsWrittenLetsZeroThrough | Imputation.ClampedRankInRange |
| INoDS_convenience_functions.py:238-246 | `recovery_date` is assigned only when the node has no healthy key, or has a healthy interval ending after `time1`; otherwise the previous interval's value is reused, or the name is unbound and raises | healthy [(0, 2)], sick interval starting on day 3, time_max 10: UnboundLocalError on the first interval, or a stale bound on a later one | `time_max` when no healthy interval ends after `time1` | medium, not executed | Imputation.RecoveryDateAsWrittenStale | Imputation.RecoveryBoundIs |
| INoDS_convenience_functions.py:225 | `G_raw[network][day-1].degree(node)>0` holds for a node absent from that graph, because networkx 1.x then returns a dict and Python 2 orders any dict above 0. Every node of the network `create_dynamic_network` builds has an edge, so on the observed network the filter never removes a day | network {0: graph with the single edge a-b}, node c, window [1, 1]: as written the candidate list is [1], although c has no contact at timestep 0 | keep only the days after a timestep in which the node has an edge, as the comment at line 224 says | medium, not executed | Imputation.ContactDaysAsWrittenAbsent | Imputation.ContactDaysMeans |
