/** The Solution analyser of a multi-commodity flow solution. It is built from a
    list of routed flows and the reference tables, and at construction it
    aggregates the flows into transport legs and requests and computes the
    network KPIs once; the coverage check can then be run against any
    reference request table without changing the solution. */
module Mcf {
  import opened Types
  import opened Aggregates
  import opened ExternalFormat

  /** Default underload threshold: a leg carrying less than 30% of one vehicle is underloaded. */
  const UnderloadThreshold: real := 0.3

  /** The network KPIs of a solution. */
  datatype Metrics = Metrics(
    totalVolume: real,                 // m3 over all flows
    totalVehicles: int,                // vehicles over all legs
    totalDistance: real,               // distance driven by all vehicles
    totalTime: real,                   // driving time of all vehicles
    transportCost: real,               // priced cost of all legs
    transferCost: real,                // transfer charges at transit offices
    transferViolations: seq<Violation>,
    totalCost: real,                   // transport plus transfer
    avgDeliveryTimePerReq: real,
    avgDeliveryTimePerVolume: real,
    pathsPerReq: real,
    vehicleUtilization: real,          // percent, capped at 100
    underloadedLegs: nat,
    costPerCubicMeter: CostPerVolume)

  /** `m` holds the KPIs of the flows, legs and requests: each one the formula the
      analyser evaluates over them. */
  ghost predicate IsMetrics(m: Metrics, paths: seq<Flow>, vehicleCapacity: real, offices: Option<seq<OfficeRow>>,
                            legOrder: seq<Edge>, legs: map<Edge, Leg>, reqOrder: seq<Request>, reqs: map<Request, real>)
    requires forall e :: e in legOrder ==> e in legs
    requires forall k :: k in reqOrder ==> k in reqs
  {
    && m.totalVolume == TotalVolume(paths)
    && m.totalVehicles == TotalVehicles(legOrder, legs)
    && m.totalDistance == SumLegs(legOrder, legs, VehicleDistance)
    && m.totalTime == SumLegs(legOrder, legs, VehicleTime)
    && m.transportCost == SumLegs(legOrder, legs, LegCost)
    && m.transferCost == TransferCost(paths, offices)
    && m.transferViolations == CapacityFindings(offices, TransitFlows(paths), TransitFlows(paths))
    && m.totalCost == m.transportCost + m.transferCost
    && m.avgDeliveryTimePerReq == (if |reqOrder| > 0 then m.totalTime / |reqOrder| as real else 0.0)
    && m.avgDeliveryTimePerVolume == (var s := SumOver(reqOrder, reqs); if s > 0.0 then m.totalTime / s else 0.0)
    && m.pathsPerReq == (if |reqOrder| > 0 then |paths| as real / |reqOrder| as real else 0.0)
    && m.vehicleUtilization == Utilization(m.totalVolume, m.totalVehicles, vehicleCapacity)
    && m.underloadedLegs == |Underloaded(legOrder, legs, UnderloadThreshold * vehicleCapacity)|
    && m.costPerCubicMeter == CostPerCubicMeter(m.totalCost, m.totalVolume)
  }

  /** What the KPIs promise: utilisation is a capped percentage, zero without
      vehicles; the cost per m3 is the infinite sentinel exactly when there is no
      volume; the time per
      volume divides by the total volume, since the requests add up to it; and the
      underloaded legs are among the legs. */
  lemma MetricsBounds(m: Metrics, paths: seq<Flow>, vehicleCapacity: real, offices: Option<seq<OfficeRow>>,
                      legOrder: seq<Edge>, legs: map<Edge, Leg>, reqOrder: seq<Request>, reqs: map<Request, real>)
    requires forall e :: e in legOrder ==> e in legs
    requires forall k :: k in reqOrder ==> k in reqs
    requires SumOver(reqOrder, reqs) == TotalVolume(paths)
    requires IsMetrics(m, paths, vehicleCapacity, offices, legOrder, legs, reqOrder, reqs)
    ensures 0.0 <= m.vehicleUtilization <= 100.0 || m.totalVolume < 0.0
    ensures m.totalVehicles == 0 ==> m.vehicleUtilization == 0.0
    ensures m.costPerCubicMeter.Infinite? <==> m.totalVolume <= 0.0
    ensures m.avgDeliveryTimePerVolume == if m.totalVolume > 0.0 then m.totalTime / m.totalVolume else 0.0
    ensures m.underloadedLegs <= |legOrder|
    ensures m.totalCost == m.transportCost + m.transferCost
  {
  }

  class Solution {
    // Inputs, fixed at construction.
    const paths: seq<Flow>
    const vehicleCapacity: real
    const matrix: map<Edge, EdgeInfo>
    const offices: Option<seq<OfficeRow>>

    // Transport legs, in first-use order, and the edges missing from the matrix;
    // set once at construction.
    const legOrder: seq<Edge>
    const transportLegs: map<Edge, Leg>
    const skippedEdges: set<Edge>

    // Request aggregate, in first-use order; set once at construction.
    const reqOrder: seq<Request>
    const reqs: map<Request, real>

    // Network KPIs, computed once at construction.
    const metrics: Metrics

    /** The legs are the leg table of the flows. */
    ghost predicate LegsReady()
    {
      && vehicleCapacity > 0.0
      && IsLegTable(legOrder, transportLegs, paths, matrix, vehicleCapacity)
      && legOrder == FirstUseEdges(paths, matrix)
      && skippedEdges == UsedEdges(paths) - matrix.Keys
    }

    /** The request aggregate is the request table of the flows. */
    ghost predicate ReqsReady()
    {
      && IsRequestTable(reqOrder, reqs, paths)
      && reqOrder == RequestOrder(paths)
      && SumOver(reqOrder, reqs) == TotalVolume(paths)
    }

    /** Every KPI holds the value computed from the legs, requests and flows. */
    ghost predicate MetricsReady()
    {
      && (forall e :: e in legOrder ==> e in transportLegs)
      && (forall k :: k in reqOrder ==> k in reqs)
      && IsMetrics(metrics, paths, vehicleCapacity, offices, legOrder, transportLegs, reqOrder, reqs)
    }

    ghost predicate Valid()
    {
      LegsReady() && ReqsReady() && MetricsReady()
    }

    /** Builds the analyser: stores the inputs, reconstructs legs and requests,
        and computes every KPI. */
    constructor (paths: seq<Flow>, vehicleCapacity: real, matrix: map<Edge, EdgeInfo>,
                 offices: Option<seq<OfficeRow>>)
      requires vehicleCapacity > 0.0
      ensures this.paths == paths && this.vehicleCapacity == vehicleCapacity
      ensures this.matrix == matrix && this.offices == offices
      ensures Valid()
    {
      this.paths := paths;
      this.vehicleCapacity := vehicleCapacity;
      this.matrix := matrix;
      this.offices := offices;
      var order, legs, skipped := ReconstructTransportLegs(paths, matrix, vehicleCapacity);
      this.legOrder, this.transportLegs, this.skippedEdges := order, legs, skipped;
      var requestOrder, requests := ReconstructReqs(paths);
      this.reqOrder, this.reqs := requestOrder, requests;
      assert forall e :: e in order ==> e in Elems(order);
      assert forall k :: k in requestOrder ==> k in Elems(requestOrder);
      var kpis := ComputeMetrics(paths, vehicleCapacity, offices, order, legs, requestOrder, requests);
      this.metrics := kpis;
      new;
    }

    /** Sums the volume of every request over the flows. */
    static method ReconstructReqs(paths: seq<Flow>) returns (order: seq<Request>, table: map<Request, real>)
      ensures IsRequestTable(order, table, paths)
      ensures order == RequestOrder(paths)
      ensures SumOver(order, table) == TotalVolume(paths)
    {
      order, table := [], map[];
      var i := 0;
      while i < |paths|
        invariant 0 <= i <= |paths|
        invariant IsRequestTable(order, table, paths[..i])
        invariant order == RequestOrder(paths[..i])
        invariant SumOver(order, table) == TotalVolume(paths[..i])
      {
        var f := paths[i];
        var k := (f.src, f.dst);
        PrefixSnoc(paths, i);
        RequestOrderStep(order, table, paths[..i], f, paths[..i + 1]);
        if k in table {
          ghost var table0 := table;
          table := table[k := table[k] + f.volume];
          RequestStepKnown(order, table0, paths[..i], f, table, paths[..i + 1]);
        } else {
          ghost var (order0, table0) := (order, table);
          table := table[k := 0.0 + f.volume];
          order := order + [k];
          RequestStepNew(order0, table0, paths[..i], f, order, table, paths[..i + 1]);
        }
        i := i + 1;
      }
      assert paths[..i] == paths;
    }

    /** Splits every path into edges and aggregates them into legs; an edge missing
        from the matrix is skipped (and reported in `skipped`), the other edges and
        flows are still processed. Then every leg is priced. */
    static method ReconstructTransportLegs(paths: seq<Flow>, matrix: map<Edge, EdgeInfo>, vehicleCapacity: real)
      returns (order: seq<Edge>, legs: map<Edge, Leg>, skipped: set<Edge>)
      requires vehicleCapacity > 0.0
      ensures IsLegTable(order, legs, paths, matrix, vehicleCapacity)
      ensures order == FirstUseEdges(paths, matrix)
      ensures skipped == UsedEdges(paths) - matrix.Keys
    {
      order, legs, skipped := [], map[], {};
      var i := 0;
      while i < |paths|
        invariant 0 <= i <= |paths|
        invariant IsDraftTable(order, legs, paths[..i], (0, 0), 0.0, [], matrix)
        invariant skipped == (UsedEdges(paths[..i]) + Elems<Edge>([])) - matrix.Keys
        invariant order == FirstUseEdges(paths[..i], matrix)
      {
        var f := paths[i];
        DraftTableNewFlow(order, legs, paths[..i], (0, 0), 0.0, f.Key(), f.volume, matrix);
        order, legs, skipped := AggregateFlowEdges(paths[..i], f, matrix, order, legs, skipped);
        DraftNextFlow(order, legs, paths[..i], f, (0, 0), 0.0, matrix);
        SkippedNextFlow(skipped, paths[..i], f, matrix);
        PrefixSnoc(paths, i);
        FirstUseEdgesSnoc(paths[..i], f, paths[..i + 1], matrix);
        i := i + 1;
      }
      assert paths[..i] == paths;

      // price every leg: vehicles = ceil(volume / capacity), cost from tariff and distance
      ghost var drafts := legs;
      legs := PriceLegs(order, legs, vehicleCapacity);
      PricingDone(legs, drafts, order, vehicleCapacity);
      PricedTable(order, drafts, legs, paths, (0, 0), 0.0, matrix, vehicleCapacity);
    }

    /** Adds one flow to the legs: each edge of its path gets the flow's request and
        volume, a leg being created (from the matrix row) the first time an edge is
        seen; an edge missing from the matrix is skipped. `flows` are the flows
        already aggregated. */
    static method AggregateFlowEdges(ghost flows: seq<Flow>, f: Flow, matrix: map<Edge, EdgeInfo>,
                                     order0: seq<Edge>, legs0: map<Edge, Leg>, skipped0: set<Edge>)
      returns (order: seq<Edge>, legs: map<Edge, Leg>, skipped: set<Edge>)
      requires IsDraftTable(order0, legs0, flows, f.Key(), f.volume, [], matrix)
      requires skipped0 == (UsedEdges(flows) + Elems<Edge>([])) - matrix.Keys
      ensures IsDraftTable(order, legs, flows, f.Key(), f.volume, Edges(f.path), matrix)
      ensures skipped == (UsedEdges(flows) + Elems(Edges(f.path))) - matrix.Keys
      ensures order == AppendNewEdges(order0, Edges(f.path), matrix)
    {
      order, legs, skipped := order0, legs0, skipped0;
      var es := Edges(f.path);
      var j := 0;
      assert es[..0] == [];
      while j < |es|
        invariant 0 <= j <= |es|
        invariant EdgeLoopState(order0, order, legs, skipped, flows, f.Key(), f.volume, es, j, matrix)
      {
        var key := es[j];
        ghost var (orderBefore, legsBefore) := (order, legs);
        if key !in legs {
          if key !in matrix {
            // the missing edge is logged and skipped
            EdgeStepSkip(order0, order, legs, skipped, flows, f.Key(), f.volume, es, j, matrix);
            skipped := skipped + {key};
            j := j + 1;
            continue;
          }
          legs := legs[key := DraftLeg(matrix[key], [])];
          order := order + [key];
        }
        ghost var legsCreated := legs;
        legs := legs[key := AddContribution(legs[key], (f.Key(), f.volume))];
        if key in legsBefore {
          EdgeStepBump(order0, order, legsBefore, legs, skipped, flows, f.Key(), f.volume, es, j, matrix);
        } else {
          EdgeStepInsert(order0, orderBefore, legsBefore, legsCreated, legs, skipped, flows, f.Key(), f.volume, es, j, matrix);
        }
        j := j + 1;
      }
      assert es[..j] == es;
    }

    /** The pricing pass over the aggregated legs: every leg gets
        vehicles = ceil(sum_volume / capacity) and sum_cost = vehicles * tariff * distance / 1000. */
    static method PriceLegs(order: seq<Edge>, drafts: map<Edge, Leg>, vehicleCapacity: real) returns (legs: map<Edge, Leg>)
      requires vehicleCapacity > 0.0
      requires Distinct(order) && drafts.Keys == Elems(order)
      ensures PricedUpTo(legs, drafts, order, |order|, vehicleCapacity)
    {
      legs := drafts;
      var k := 0;
      while k < |order|
        invariant 0 <= k <= |order|
        invariant PricedUpTo(legs, drafts, order, k, vehicleCapacity)
      {
        PricingStep(legs, drafts, order, k, vehicleCapacity);
        var e := order[k];
        legs := legs[e := PriceLeg(legs[e], vehicleCapacity)];
        k := k + 1;
      }
    }

    /** Charges the transfer price at every listed transit node, accumulates each
        transit node's in- and out-flow, and reports the listed nodes whose in- or
        out-flow exceeds their capacity. */
    static method CalculateTransferCosts(paths: seq<Flow>, offices: Option<seq<OfficeRow>>)
      returns (cost: real, violations: seq<Violation>, inFlow: map<NodeId, real>, outFlow: map<NodeId, real>)
      ensures cost == TransferCost(paths, offices)
      ensures inFlow == TransitFlows(paths) && outFlow == inFlow
      ensures violations == CapacityFindings(offices, inFlow, outFlow)
      ensures offices.None? ==> cost == 0.0 && violations == []
    {
      cost, inFlow, outFlow := AccumulateTransit(paths, offices);
      violations := [];
      if offices.Some? {
        violations := CheckNodeCapacities(offices.value, inFlow, outFlow);
      } else {
        TransferCostZero(paths, offices);
      }
    }

    /** The first pass of the transfer calculation: walks the transit nodes of every
        flow, charging listed nodes and accumulating each node's in- and out-flow. */
    static method AccumulateTransit(paths: seq<Flow>, offices: Option<seq<OfficeRow>>)
      returns (cost: real, inFlow: map<NodeId, real>, outFlow: map<NodeId, real>)
      ensures cost == TransferCost(paths, offices)
      ensures inFlow == TransitFlows(paths) && outFlow == inFlow
    {
      cost, inFlow, outFlow := 0.0, map[], map[];
      var i := 0;
      while i < |paths|
        invariant 0 <= i <= |paths|
        invariant cost == TransferCost(paths[..i], offices)
        invariant inFlow == TransitFlows(paths[..i]) && outFlow == inFlow
      {
        var f := paths[i];
        cost, inFlow, outFlow := VisitTransitNodes(paths[..i], f, offices, cost, inFlow, outFlow);
        PrefixSnoc(paths, i);
        TransferCostSnoc(paths[..i], f, paths[..i + 1], offices);
        PartialFlowsNextFlow(paths[..i], f, paths[..i + 1]);
        i := i + 1;
      }
      assert paths[..i] == paths;
    }

    /** One flow of the first pass: charges each of its transit nodes and adds its
        volume to each transit node's in- and out-flow. `flows` are the flows
        already accumulated. */
    static method VisitTransitNodes(ghost flows: seq<Flow>, f: Flow, offices: Option<seq<OfficeRow>>,
                                    cost0: real, inFlow0: map<NodeId, real>, outFlow0: map<NodeId, real>)
      returns (cost: real, inFlow: map<NodeId, real>, outFlow: map<NodeId, real>)
      requires inFlow0 == TransitFlows(flows) && outFlow0 == inFlow0
      ensures cost == cost0 + NodeCharges(Transit(f.path), f.volume, offices)
      ensures inFlow == PartialFlows(flows, f.volume, Transit(f.path)) && outFlow == inFlow
    {
      cost, inFlow, outFlow := cost0, inFlow0, outFlow0;
      var transit := Transit(f.path);
      var j := 0;
      while j < |transit|
        invariant 0 <= j <= |transit|
        invariant cost == cost0 + NodeCharges(transit[..j], f.volume, offices)
        invariant inFlow == PartialFlows(flows, f.volume, transit[..j]) && outFlow == inFlow
      {
        var node := transit[j];
        PrefixSnoc(transit, j);
        NodeChargesSnoc(transit[..j], node, transit[..j + 1], f.volume, offices);
        PartialFlowsSnoc(flows, f.volume, transit[..j], node, transit[..j + 1]);
        var charge := TransferCharge(offices, node, f.volume);
        cost := cost + charge;
        inFlow := inFlow[node := (if node in inFlow then inFlow[node] else 0.0) + f.volume];
        outFlow := outFlow[node := (if node in outFlow then outFlow[node] else 0.0) + f.volume];
        j := j + 1;
      }
      assert transit[..j] == transit;
    }

    /** The second pass of the transfer calculation: for every office row, in table
        order, an inbound and then an outbound finding when the node's flow exceeds
        its transfer capacity. */
    static method CheckNodeCapacities(rows: seq<OfficeRow>, inFlow: map<NodeId, real>, outFlow: map<NodeId, real>)
      returns (violations: seq<Violation>)
      ensures violations == TableFindings(rows, inFlow, outFlow)
    {
      violations := [];
      var r := 0;
      while r < |rows|
        invariant 0 <= r <= |rows|
        invariant violations == TableFindings(rows[..r], inFlow, outFlow)
      {
        var row := rows[r];
        assert rows[..r + 1][..r] == rows[..r];
        if row.id in inFlow && inFlow[row.id] > row.transferMax {
          violations := violations + [InboundExceeded(row.id, inFlow[row.id], row.transferMax)];
        }
        if row.id in outFlow && outFlow[row.id] > row.transferMax {
          violations := violations + [OutboundExceeded(row.id, outFlow[row.id], row.transferMax)];
        }
        r := r + 1;
      }
      assert rows[..r] == rows;
    }

    /** The transfer charge of `vol` passing through `node`: the node's transfer
        price times the volume when the node is listed in the office table, else 0. */
    static method TransferCharge(offices: Option<seq<OfficeRow>>, node: NodeId, vol: real) returns (charge: real)
      ensures charge == NodeCharge(node, vol, offices)
      ensures offices.None? || (forall i :: 0 <= i < |offices.value| ==> offices.value[i].id != node) ==> charge == 0.0
    {
      charge := 0.0;
      if offices.Some? {
        var row := Lookup(offices.value, node);
        if row.Some? {
          charge := vol * row.value.transferPrice;
        }
      }
    }

    /** Computes every KPI from the flows, the legs and the requests. */
    static method ComputeMetrics(paths: seq<Flow>, vehicleCapacity: real, offices: Option<seq<OfficeRow>>,
                                 legOrder: seq<Edge>, legs: map<Edge, Leg>, reqOrder: seq<Request>, reqs: map<Request, real>)
      returns (m: Metrics)
      requires forall e :: e in legOrder ==> e in legs
      requires forall k :: k in reqOrder ==> k in reqs
      requires SumOver(reqOrder, reqs) == TotalVolume(paths)
      ensures IsMetrics(m, paths, vehicleCapacity, offices, legOrder, legs, reqOrder, reqs)
    {
      var volume := TotalVolume(paths);
      var vehicles := TotalVehicles(legOrder, legs);
      var distance := SumLegs(legOrder, legs, VehicleDistance);
      var time := SumLegs(legOrder, legs, VehicleTime);
      var transport := SumLegs(legOrder, legs, LegCost);

      var transfer, violations, inFlow, outFlow := CalculateTransferCosts(paths, offices);
      var cost := transport + transfer;

      var perReq := if |reqOrder| > 0 then time / |reqOrder| as real else 0.0;
      var requested := SumOver(reqOrder, reqs);
      var perVolume := if requested > 0.0 then time / requested else 0.0;
      var perReqPaths := if |reqOrder| > 0 then |paths| as real / |reqOrder| as real else 0.0;

      var utilization := Utilization(volume, vehicles, vehicleCapacity);
      var underloaded := CountBelow(legOrder, legs, UnderloadThreshold * vehicleCapacity);
      var perCubicMeter := CostPerCubicMeter(cost, volume);

      m := Metrics(volume, vehicles, distance, time, transport, transfer, violations, cost,
                   perReq, perVolume, perReqPaths, utilization, underloaded, perCubicMeter);
    }

    /** Compares the flows' per-request volumes with a reference request table and
        reports every entry that is off by more than the tolerance. Reads the
        solution only. */
    method ValidateCoverage(reference: seq<(Request, real)>) returns (errors: seq<CoverageError>)
      ensures errors == CoverageFindings(reference, paths)
      ensures |errors| <= |reference|
    {
      // the per-request totals, recomputed from the flows as the analyser does
      var order, actual := ReconstructReqs(paths);
      errors := [];
      var i := 0;
      while i < |reference|
        invariant 0 <= i <= |reference|
        invariant errors == CoverageFindings(reference[..i], paths)
      {
        var (k, expected) := reference[i];
        assert reference[..i + 1][..i] == reference[..i];
        if k !in actual {
          RequestVolumeAbsent(paths, k);
        }
        var act := if k in actual then actual[k] else 0.0;
        if Abs(act - expected) > Tolerance {
          errors := errors + [CoverageError(k.0, k.1, expected, act)];
        }
        i := i + 1;
      }
      assert reference[..i] == reference;
    }

    /** Counts the legs whose volume is below `threshold` vehicles' capacity. */
    method CountUnderloadedLegs(threshold: real) returns (count: nat)
      requires forall e :: e in legOrder ==> e in transportLegs
      ensures count == |Underloaded(legOrder, transportLegs, threshold * vehicleCapacity)|
    {
      count := CountBelow(legOrder, transportLegs, threshold * vehicleCapacity);
    }

    /** Counts the legs of `order` whose volume is below `limit`. */
    static method CountBelow(order: seq<Edge>, legs: map<Edge, Leg>, limit: real) returns (count: nat)
      requires forall e :: e in order ==> e in legs
      ensures count == |Underloaded(order, legs, limit)|
    {
      count := 0;
      var k := 0;
      while k < |order|
        invariant 0 <= k <= |order|
        invariant count == |Underloaded(order[..k], legs, limit)|
      {
        assert order[..k + 1][..k] == order[..k];
        if legs[order[k]].sumVolume < limit {
          count := count + 1;
        }
        k := k + 1;
      }
      assert order[..k] == order;
    }

    /** Rebuilds the node path of every structured flow; fails on the first flow
        without legs or whose path does not run from its source to its destination. */
    static method ExternalFlowsToPaths(data: seq<ExternalFlow>) returns (r: Result<seq<Flow>, LoadError>)
      ensures r.Ok? <==> forall i :: 0 <= i < |data| ==> RebuildPath(data[i]).Ok?
      ensures r.Ok? ==> |r.value| == |data| && forall i :: 0 <= i < |data| ==> RebuildPath(data[i]) == Ok(r.value[i])
      ensures r.Err? ==> exists i :: 0 <= i < |data| && RebuildPath(data[i]) == Err(r.error) &&
                                    forall k :: 0 <= k < i ==> RebuildPath(data[k]).Ok?
    {
      var flows: seq<Flow> := [];
      var i := 0;
      while i < |data|
        invariant 0 <= i <= |data|
        invariant |flows| == i
        invariant forall k :: 0 <= k < i ==> RebuildPath(data[k]) == Ok(flows[k])
      {
        var flow := data[i];
        var legs := flow.legs;
        if |legs| == 0 {
          // `legs[0]` raises on an empty leg list
          return Err(NoLegs);
        }
        var pathNodes := [legs[0].fromOffice];
        var j := 0;
        while j < |legs|
          invariant 0 <= j <= |legs|
          invariant pathNodes == [legs[0].fromOffice] + Destinations(legs[..j])
        {
          assert legs[..j + 1][..j] == legs[..j];
          pathNodes := pathNodes + [legs[j].toOffice];
          j := j + 1;
        }
        assert legs[..j] == legs;
        if pathNodes[0] != flow.srcOfficeId || pathNodes[|pathNodes| - 1] != flow.dstOfficeId {
          return Err(EndpointMismatch(flow.srcOfficeId, flow.dstOfficeId, pathNodes));
        }
        flows := flows + [Flow(flow.srcOfficeId, flow.dstOfficeId, flow.qty, pathNodes)];
        i := i + 1;
      }
      return Ok(flows);
    }

    /** Builds a Solution from structured flows, or fails as the path rebuild does. */
    static method LoadFromExternalFormat(data: seq<ExternalFlow>, matrix: map<Edge, EdgeInfo>,
                                         offices: Option<seq<OfficeRow>>, vehicleCapacity: real)
      returns (r: Result<Solution, LoadError>)
      requires vehicleCapacity > 0.0
      ensures r.Ok? <==> forall i :: 0 <= i < |data| ==> RebuildPath(data[i]).Ok?
      ensures r.Ok? ==> fresh(r.value) && r.value.Valid()
      ensures r.Ok? ==> r.value.matrix == matrix && r.value.offices == offices && r.value.vehicleCapacity == vehicleCapacity
      ensures r.Ok? ==> |r.value.paths| == |data| &&
                        forall i :: 0 <= i < |data| ==> RebuildPath(data[i]) == Ok(r.value.paths[i])
      ensures r.Err? ==> exists i :: 0 <= i < |data| && RebuildPath(data[i]) == Err(r.error) &&
                                    forall k :: 0 <= k < i ==> RebuildPath(data[k]).Ok?
    {
      var flows := ExternalFlowsToPaths(data);
      if flows.Err? {
        return Err(flows.error);
      }
      var solution := new Solution(flows.value, vehicleCapacity, matrix, offices);
      return Ok(solution);
    }
  }
}
