/** The structured solution format: a flow carries its route as a list of legs
    (from office, to office). A node path becomes legs by pairing consecutive
    nodes; legs become a node path by taking the first leg's origin and then
    every leg's destination, and the path must start at the flow's source and
    end at its destination. */
module ExternalFormat {
  import opened Types

  /** One leg of a structured flow. */
  datatype LegRef = LegRef(fromOffice: NodeId, toOffice: NodeId)

  /** A flow in the structured format: `src_office_id`, `dst_office_id`,
      `avg_day_polybox_qty` and its legs. */
  datatype ExternalFlow = ExternalFlow(srcOfficeId: NodeId, dstOfficeId: NodeId, qty: real, legs: seq<LegRef>)

  /** Why a structured flow cannot be turned into a path. */
  datatype LoadError =
    | NoLegs                                                 // the leg list is empty: `legs[0]` does not exist
    | EndpointMismatch(src: NodeId, dst: NodeId, path: seq<NodeId>)  // the rebuilt path does not run src -> dst

  /** The legs of a node path: leg i runs from node i to node i + 1. */
  function LegsOfPath(nodes: seq<NodeId>): (legs: seq<LegRef>)
    ensures |legs| == if |nodes| == 0 then 0 else |nodes| - 1
    ensures forall i :: 0 <= i < |legs| ==> legs[i] == LegRef(nodes[i], nodes[i + 1])
  {
    if |nodes| <= 1 then []
    else seq(|nodes| - 1, i requires 0 <= i < |nodes| - 1 => LegRef(nodes[i], nodes[i + 1]))
  }

  /** Consecutive legs connect: each leg ends where the next one starts. */
  predicate Chained(legs: seq<LegRef>)
  {
    forall i :: 0 <= i < |legs| - 1 ==> legs[i].toOffice == legs[i + 1].fromOffice
  }

  /** The destinations of the legs, in order. */
  function Destinations(legs: seq<LegRef>): (ds: seq<NodeId>)
    ensures |ds| == |legs|
  {
    if |legs| == 0 then [] else Destinations(legs[..|legs| - 1]) + [legs[|legs| - 1].toOffice]
  }

  /** The node path of a non-empty leg list: the first origin, then every destination. */
  function PathOfLegs(legs: seq<LegRef>): (p: seq<NodeId>)
    requires |legs| > 0
    ensures |p| == |legs| + 1
  {
    [legs[0].fromOffice] + Destinations(legs)
  }

  /** A structured flow as a routed flow, or the error the conversion raises. */
  function RebuildPath(f: ExternalFlow): Result<Flow, LoadError>
  {
    if |f.legs| == 0 then Err(NoLegs)
    else
      var p := PathOfLegs(f.legs);
      if p[0] != f.srcOfficeId || p[|p| - 1] != f.dstOfficeId then Err(EndpointMismatch(f.srcOfficeId, f.dstOfficeId, p))
      else Ok(Flow(f.srcOfficeId, f.dstOfficeId, f.qty, p))
  }

  /** Legs cut from a path always connect. */
  lemma LegsOfPathChained(nodes: seq<NodeId>)
    ensures Chained(LegsOfPath(nodes))
  {
  }

  lemma {:induction false} DestinationsOfPathLegs(nodes: seq<NodeId>)
    requires |nodes| >= 2
    ensures Destinations(LegsOfPath(nodes)) == nodes[1..]
  {
    if |nodes| > 2 {
      var init := nodes[..|nodes| - 1];
      DestinationsOfPathLegs(init);
      assert LegsOfPath(nodes)[..|nodes| - 2] == LegsOfPath(init);
    } else {
      assert LegsOfPath(nodes) == [LegRef(nodes[0], nodes[1])];
    }
  }

  /** Round trip path -> legs -> path: a path of at least two nodes is rebuilt exactly. */
  lemma PathRoundTrip(nodes: seq<NodeId>)
    requires |nodes| >= 2
    ensures PathOfLegs(LegsOfPath(nodes)) == nodes
  {
    DestinationsOfPathLegs(nodes);
  }

  lemma {:induction false} DestinationsAt(legs: seq<LegRef>, i: nat)
    requires i < |legs|
    ensures Destinations(legs)[i] == legs[i].toOffice
  {
    if i < |legs| - 1 {
      DestinationsAt(legs[..|legs| - 1], i);
    }
  }

  /** Round trip legs -> path -> legs: a connected, non-empty leg list is rebuilt exactly. */
  lemma LegsRoundTrip(legs: seq<LegRef>)
    requires |legs| > 0 && Chained(legs)
    ensures LegsOfPath(PathOfLegs(legs)) == legs
  {
    var p := PathOfLegs(legs);
    forall i | 0 <= i < |legs|
      ensures LegsOfPath(p)[i] == legs[i]
    {
      DestinationsAt(legs, i);
      if i > 0 {
        DestinationsAt(legs, i - 1);
      }
    }
  }

  /** A flow whose legs were cut from `nodes`: it rebuilds to exactly `nodes` when the
      path has two nodes or more and runs from src to dst; a shorter path has no legs
      and fails; a path with wrong endpoints fails with the mismatch. */
  lemma RebuildCutPath(src: NodeId, dst: NodeId, qty: real, nodes: seq<NodeId>)
    ensures var r := RebuildPath(ExternalFlow(src, dst, qty, LegsOfPath(nodes)));
      && (|nodes| < 2 <==> r == Err(NoLegs))
      && (|nodes| >= 2 && nodes[0] == src && nodes[|nodes| - 1] == dst <==> r == Ok(Flow(src, dst, qty, nodes)))
      && (|nodes| >= 2 && (nodes[0] != src || nodes[|nodes| - 1] != dst) <==> r == Err(EndpointMismatch(src, dst, nodes)))
  {
    if |nodes| >= 2 {
      PathRoundTrip(nodes);
    }
  }
}
