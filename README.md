# Solution analyser of the optimal logistic network contest

This project models the analyser that scores a multi-commodity flow solution.
It also models the two conversions that feed the analyser its flows. It is
written in Dafny, and the verifier proves every property the "## Model" table
states.

A solution is a list of flows. Each flow has a source office, a destination
office, a volume and a node path. Building a `Solution` runs these steps in
order:

- **Transport legs.** Every path is cut into consecutive directed edges. Each
  edge is looked up in the distance/tariff matrix, and a leg collects the
  request and volume of every flow that uses the edge. An edge missing from
  the matrix is skipped, and the other edges and flows are still processed.
  Every leg is then priced: it gets `ceil(volume / capacity)` vehicles and
  costs vehicles × tariff × distance / 1000.
- **Request aggregate.** The volume of each request `(src, dst)` is summed.
- **KPIs.** These are totals over the legs plus the transfer cost. A transit
  node listed in the office table is charged volume × transfer price. The
  node-capacity findings report every listed node whose in-flow or out-flow
  exceeds its capacity. The remaining KPIs are:
  - utilisation, capped at 100 %;
  - the per-request and per-volume averages;
  - the number of underloaded legs;
  - the cost per m³, which is infinite when there is no volume.

`ValidateCoverage` compares the per-request volumes with a reference request
table, using a tolerance of 1e-3. It leaves the solution unchanged.

Two conversions surround the analyser:

- The structured format (`ExternalFormat`) stores a flow as a list of legs.
  `LoadFromExternalFormat` rebuilds the node path of each flow, checks that it
  runs from the flow's source to its destination, and builds a `Solution`.
- The flat-path table (`Validator`) turns each row's node list into legs. A
  row whose node list does not parse is dropped.

`FormatTime` renders a duration as days, hours and minutes.

Modules:

- `Types`: the entities — flows, edges, matrix rows, office rows, legs,
  findings — plus `Distinct` and `Elems`.
- `Aggregates`: a reference function for every quantity the analyser
  computes, and lemmas that say what those functions mean.
- `Mcf`: the `Solution` class.
  - Its inputs and everything it derives are fields set once, in the
    constructor. The Python object likewise fills its attributes in
    `__init__`.
  - Each loop of the analyser is a method, or a loop inside one. The exception
    is the coverage check's tally of per-request volumes, which reuses
    `ReconstructReqs`.
  - Each method's postcondition ties its result to the reference function.
  - Loop invariants carry the proof step by step.
- `ExternalFormat` and `Validator`: the two conversions and their round trips.
- `TimeFormat`: the duration rendering.

Python dicts keep insertion order, so a dict is modelled as a `seq` of keys in
first-insertion order together with a `map`. `FirstUseEdges` and `RequestOrder`
define that order for the legs and the requests. The office table is a `seq` of
rows, so findings come out in table order.

## Model

| member | source | states |
|---|---|---|
| Mcf.Solution.constructor | optimal-logistic-network-contest/MCF_lib_ext.py:92-111 | The inputs are stored, and the legs, the request aggregate and every KPI are the values the flows call for (`Valid()`). |
| Mcf.Solution.ReconstructTransportLegs | optimal-logistic-network-contest/MCF_lib_ext.py:124-159 | The result is the leg table of the flows: the legs are exactly the used edges that are in the matrix, each listed once, in first-use order (`FirstUseEdges`). Each leg carries the matrix row's distance, time and tariff, the contributions of every flow over that edge in order, their volume sum, ceiling vehicles and cost. The skipped edges are exactly the used edges missing from the matrix. |
| Mcf.Solution.AggregateFlowEdges | optimal-logistic-network-contest/MCF_lib_ext.py:128-152 | Adding one flow's edges turns the draft table of the earlier flows into the draft table that includes this flow. A missing edge is skipped and processing goes on. |
| Mcf.Solution.PriceLegs | optimal-logistic-network-contest/MCF_lib_ext.py:155-157 | The result has the same legs as the drafts, and every one of them is its draft priced. |
| Mcf.Solution.ReconstructReqs | optimal-logistic-network-contest/MCF_lib_ext.py:113-122 | Each request key appears once, in first-use order (`RequestOrder`). Its volume is the sum of the volumes of the flows serving it. The grand total equals the total flow volume. |
| Mcf.Solution.CalculateTransferCosts | optimal-logistic-network-contest/MCF_lib_ext.py:161-204 | The cost is the transfer charge of every transit node of every flow. In-flow equals out-flow, and both are each node's transit volume. The findings are the capacity findings. Without an office table the cost is 0 and there are no findings. |
| Mcf.Solution.AccumulateTransit | optimal-logistic-network-contest/MCF_lib_ext.py:170-187 | After the loop over the flows, the cost is the total transfer cost and the flow maps are the per-node transit volumes. |
| Mcf.Solution.VisitTransitNodes | optimal-logistic-network-contest/MCF_lib_ext.py:177-187 | For one flow: the cost grows by the charges of its transit nodes, and each transit node's in- and out-flow grows by the flow's volume per occurrence. |
| Mcf.Solution.TransferCharge | optimal-logistic-network-contest/MCF_lib_ext.py:181-183 | The charge is volume × transfer price for a node in the office table, and 0 for a node that is not listed or when there is no table. |
| Mcf.Solution.CheckNodeCapacities | optimal-logistic-network-contest/MCF_lib_ext.py:190-202 | The findings are those of every office row in table order: inbound, then outbound. |
| Mcf.Solution.ComputeMetrics | optimal-logistic-network-contest/MCF_lib_ext.py:206-246 | Each KPI is its formula over the flows, legs and requests. |
| Mcf.MetricsBounds | optimal-logistic-network-contest/MCF_lib_ext.py:227-246 | Total cost is transport plus transfer. Utilisation is at most 100; it is at least 0 unless the total volume is negative, and it is 0 without vehicles. The cost per m³ is infinite exactly when the total volume is at most 0. Time per volume divides by the total flow volume. The underloaded count is at most the number of legs. |
| Mcf.Solution.ValidateCoverage | optimal-logistic-network-contest/MCF_lib_ext.py:248-261 | The errors are the coverage findings of the reference table, at most one per entry. The solution is not modified (the method has no `modifies` clause). |
| Mcf.Solution.CountUnderloadedLegs | optimal-logistic-network-contest/MCF_lib_ext.py:263-269 | The count is the number of legs whose volume is below threshold × capacity. |
| Mcf.Solution.CountBelow | optimal-logistic-network-contest/MCF_lib_ext.py:264-269 | The count is the number of listed legs below the limit. |
| Mcf.Solution.ExternalFlowsToPaths | optimal-logistic-network-contest/MCF_lib_ext.py:396-416 | The result is Ok exactly when every flow rebuilds, and then path i is flow i rebuilt. Otherwise it is the error of the first flow that fails. |
| Mcf.Solution.LoadFromExternalFormat | optimal-logistic-network-contest/MCF_lib_ext.py:381-426 | A fresh, valid Solution over the rebuilt paths exactly when every flow rebuilds. Otherwise the result is the error of the first flow that fails: no legs, or an endpoint mismatch. |
| Aggregates.FirstUseEdgesExtends | optimal-logistic-network-contest/MCF_lib_ext.py:136-146 | Legs are created in first-use order: the leg order of a flow list is a prefix of the leg order of any longer flow list. |
| Aggregates.RequestOrderExtends | optimal-logistic-network-contest/MCF_lib_ext.py:116-120 | Requests are inserted in first-use order: the request order of a flow list is a prefix of the request order of any longer flow list. |
| Aggregates.CeilDiv | optimal-logistic-network-contest/MCF_lib_ext.py:156 | The vehicle count n satisfies (n − 1) × capacity < volume ≤ n × capacity. |
| Aggregates.ZeroVolumeNoVehicles | optimal-logistic-network-contest/MCF_lib_ext.py:156 | A leg with zero volume gets zero vehicles. |
| Aggregates.PricedDraftMatches | optimal-logistic-network-contest/MCF_lib_ext.py:140-157 | A priced leg is correct: its volume is the sum of its contributions, its vehicles are the ceiling, and its cost is vehicles × tariff × distance / 1000. |
| Aggregates.ContributionsNonEmptyIffUsed | optimal-logistic-network-contest/MCF_lib_ext.py:134-152 | An edge collects a contribution exactly when some flow's path uses it. |
| Aggregates.ContributionsUnused | optimal-logistic-network-contest/MCF_lib_ext.py:136-152 | An edge no path uses collects nothing. |
| Aggregates.ContributionFromFlow | optimal-logistic-network-contest/MCF_lib_ext.py:151-152 | Every contribution of a leg is the request and volume of a flow whose path uses the edge. |
| Aggregates.RequestVolumeAbsent | optimal-logistic-network-contest/MCF_lib_ext.py:257 | A request no flow serves has volume 0. |
| Aggregates.PartialFlowsMeaning | optimal-logistic-network-contest/MCF_lib_ext.py:179-187 | The accumulated flow map holds exactly the transit nodes seen so far, each with its transit volume plus the volume added for the nodes visited so far. |
| Aggregates.TransferCostZero | optimal-logistic-network-contest/MCF_lib_ext.py:177-183 | When no transit node is listed, the transfer cost is 0. This covers a missing office table and paths of at most two nodes. |
| Aggregates.TransferCostAppend | optimal-logistic-network-contest/MCF_lib_ext.py:170-183 | The transfer cost adds up over a split of the flow list. |
| Aggregates.InboundFindingIff | optimal-logistic-network-contest/MCF_lib_ext.py:194-197 | An in-flow finding appears exactly for a listed node whose in-flow strictly exceeds its capacity. |
| Aggregates.OutboundFindingIff | optimal-logistic-network-contest/MCF_lib_ext.py:199-202 | An out-flow finding appears exactly for a listed node whose out-flow strictly exceeds its capacity. |
| Aggregates.TableFindingsAppend | optimal-logistic-network-contest/MCF_lib_ext.py:191-202 | Findings follow office-table order. |
| Aggregates.InboundThenOutbound | optimal-logistic-network-contest/MCF_lib_ext.py:194-202 | With equal in- and out-flows, each in-flow finding is immediately followed by the out-flow finding for the same node. |
| Aggregates.CoverageFindingIff | optimal-logistic-network-contest/MCF_lib_ext.py:256-259 | A coverage error is reported exactly for a reference entry whose actual volume differs by more than 1e-3, with a missing request counting as 0. A request served only by flows is never reported. |
| Aggregates.UnderloadedMembers | optimal-logistic-network-contest/MCF_lib_ext.py:263-269 | The underloaded legs are exactly the listed legs with volume below the limit. |
| Aggregates.Utilization | optimal-logistic-network-contest/MCF_lib_ext.py:238-241 | Utilisation is at most 100, and 0 without capacity. For a volume below the fleet capacity it is exactly volume / capacity × 100, and at or above full capacity it is 100. |
| Aggregates.CostPerCubicMeter | optimal-logistic-network-contest/MCF_lib_ext.py:246 | The result is the infinite sentinel exactly when the volume is at most 0. Otherwise it times the volume gives the total cost. |
| Aggregates.Lookup | optimal-logistic-network-contest/MCF_lib_ext.py:181-182 | A row is found exactly when a row with that id exists, and the row found has that id. |
| Aggregates.Edges | optimal-logistic-network-contest/MCF_lib_ext.py:134 | A path of n nodes has n − 1 edges, and edge i runs from node i to node i + 1. |
| ExternalFormat.LegsOfPath | optimal-logistic-network-contest/validator_ext.py:68-71 | n nodes give n − 1 legs, and leg i runs from node i to node i + 1. |
| ExternalFormat.LegsOfPathChained | optimal-logistic-network-contest/validator_ext.py:68-71 | Each leg ends where the next one starts. |
| ExternalFormat.PathRoundTrip | optimal-logistic-network-contest/MCF_lib_ext.py:403-405 | A path of at least two nodes, cut into legs and rebuilt, is the original path. |
| ExternalFormat.LegsRoundTrip | optimal-logistic-network-contest/MCF_lib_ext.py:403-405 | A connected, non-empty leg list, turned into a path and cut again, is the original list. |
| ExternalFormat.RebuildCutPath | optimal-logistic-network-contest/MCF_lib_ext.py:403-409 | A flow whose legs were cut from a path behaves as follows. A path shorter than two nodes fails (`legs[0]`). Otherwise it rebuilds exactly when the endpoints match, and fails with the mismatch exactly when they do not. |
| Validator.LoadSolutionRows | optimal-logistic-network-contest/validator_ext.py:64-80 | The flows are the conversion of the parsable rows in order, and there are no more flows than rows. |
| Validator.ConvertRowsAppend | optimal-logistic-network-contest/validator_ext.py:64-80 | Conversion keeps row order: converting a split table gives the conversions of its parts, concatenated. |
| Validator.ConvertedFlowFromRow | optimal-logistic-network-contest/validator_ext.py:72-77 | Every flow comes from a parsable row. Src, dst and volume are copied unchanged, and the legs are cut from the row's nodes. |
| Validator.ConvertRowsAllParsed | optimal-logistic-network-contest/validator_ext.py:64-80 | When every row parses, no row is dropped and flow i is row i converted. |
| TimeFormat.SplitSeconds | optimal-logistic-network-contest/MCF_lib_ext.py:56-60 | Hours are below 24 and minutes below 60. The split accounts for the duration up to the dropped seconds (less than 60). |
| TimeFormat.TimeParts | optimal-logistic-network-contest/MCF_lib_ext.py:62-68 | At least one word, and no empty word. |
| TimeFormat.FormatTime | optimal-logistic-network-contest/MCF_lib_ext.py:55-69 | The text is the shown units joined by spaces. It is never empty, and it is "0 мин" below one minute. |

## Left out

- Logging: `EmojiHandler`, `setup_logger`, `logger.critical` and `logger.error` are not modelled. An edge missing from the matrix is returned in `skippedEdges` instead of being logged; the Python implementation only logs it.
- File I/O is not modelled: `save_to_csv`, `load_from_csv`, `save_to_json`, `load_from_json`, and the file loading, command line and printing of `validator_ext.py`. `load_from_json` also passes a `transport_legs` keyword that `__init__` does not accept.
- `__str__` and `detailed_report` only format floats as text and are not modelled.
- Python floats are modelled as exact reals, so rounding is not captured. `float('inf')` is the `Infinite` variant of `CostPerVolume`.
- Findings are records rather than formatted strings: node, value and limit, or request, expected and actual. The `:.2f` rendering is not modelled.
- Mcf.Solution.constructor: requires a vehicle capacity above 0. The Python implementation accepts other capacities. Its division by the capacity runs once per leg, so capacity 0 raises only when some leg exists, and `Solution([], 0.0)` succeeds. A negative capacity gives negative vehicle counts. None of these cases is modelled.
- Mcf.Solution.constructor: the distance matrix is a map and is always present. A missing matrix (`matrix_df=None`) raises `AttributeError` in the Python implementation rather than skipping the edge; this is not modelled.
- The office table lookup takes the first row with the node's id. A table with duplicate ids, which pandas would return as several rows, is not modelled.
- Mcf.Solution.CalculateTransferCosts: also returns the in-flow and out-flow maps, which the Python implementation keeps local, so that in-flow equals out-flow can be stated.
- Mcf.Solution.ReconstructReqs: the Python implementation reads `reqs.get(k, 0)` and writes the sum back; the model branches on whether the key is present, which computes the same value.
- Mcf.Solution.ValidateCoverage: recomputes the per-request totals with `ReconstructReqs`, which is the same sum the `actual` dictionary of `validate_coverage` builds.
- Mcf.Solution.ComputeMetrics: the KPIs are fields of one `Metrics` record computed once at construction; the Python implementation sets them as separate attributes.
- The `eval` of the path text in `validator_ext.py` is not modelled. Each row's node list arrives already parsed, as `Option<seq<NodeId>>`, with `None` for a row that fails.
- TimeFormat.FormatTime: takes whole seconds as a `nat`; fractional or negative durations are not modelled.
- `exam/assigment.py` is a standalone script and is not part of this model.
