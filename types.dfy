/** Value types shared by the analyser: flows, edge and office reference rows,
    aggregated transport legs and the findings the checks report. */
module Types {

  datatype Option<T> = None | Some(value: T)

  datatype Result<T, E> = Ok(value: T) | Err(error: E)

  /** Office (network node) identifier. */
  type NodeId = int

  /** A directed edge (from, to) of the transport network. */
  type Edge = (NodeId, NodeId)

  /** A request key: (source office, destination office). */
  type Request = (NodeId, NodeId)

  /** One entry of a leg's `reqs` list: the request served and the volume it puts on the leg. */
  type Contribution = (Request, real)

  /** One routed cargo flow: `src`, `dst`, `volume` (m3) and the node path it follows. */
  datatype Flow = Flow(src: NodeId, dst: NodeId, volume: real, path: seq<NodeId>)
  {
    /** The request this flow serves. */
    function Key(): Request { (src, dst) }
  }

  /** A row of the distance matrix: distance (m), travel time (s) and tariff per km. */
  datatype EdgeInfo = EdgeInfo(distance: real, time: real, pricePerKm: real)

  /** A row of the office table: transfer price per m3 and transfer capacity. */
  datatype OfficeRow = OfficeRow(id: NodeId, transferPrice: real, transferMax: real)

  /** An aggregated transport leg (one used edge). `vehicles` and `sumCost` are
      zero while the leg is being aggregated and are priced afterwards. */
  datatype Leg = Leg(
    distance: real,
    time: real,
    costPerKm: real,
    sumVolume: real,
    reqs: seq<Contribution>,
    vehicles: int,
    sumCost: real)

  /** A node-capacity finding: the node, its transit volume and its capacity. */
  datatype Violation =
    | InboundExceeded(node: NodeId, actual: real, limit: real)
    | OutboundExceeded(node: NodeId, actual: real, limit: real)

  /** A coverage finding: the request, the expected and the actual volume. */
  datatype CoverageError = CoverageError(src: NodeId, dst: NodeId, expected: real, actual: real)

  /** Cost per cubic metre; `Infinite` stands for the +infinity sentinel of an empty solution. */
  datatype CostPerVolume = Finite(value: real) | Infinite

  /** No element occurs twice: each element is absent from the elements before it. */
  predicate Distinct<T(==)>(s: seq<T>)
  {
    |s| == 0 || (Distinct(s[..|s| - 1]) && s[|s| - 1] !in s[..|s| - 1])
  }

  /** In a duplicate-free sequence no element occurs before its own position. */
  lemma {:induction false} DistinctAt<T>(s: seq<T>, k: nat)
    requires Distinct(s) && k < |s|
    ensures s[k] !in s[..k]
  {
    if k < |s| - 1 {
      DistinctAt(s[..|s| - 1], k);
      assert s[..|s| - 1][..k] == s[..k];
    }
  }

  /** Appending an element not yet present keeps a sequence duplicate-free. */
  lemma DistinctSnoc<T>(s: seq<T>, x: T)
    requires Distinct(s) && x !in s
    ensures Distinct(s + [x])
  {
    assert (s + [x])[..|s|] == s;
  }

  /** The set of elements of a sequence, built front to back. */
  function Elems<T(!new)>(s: seq<T>): (r: set<T>)
    ensures forall x :: x in r <==> x in s
  {
    if |s| == 0 then {} else Elems(s[..|s| - 1]) + {s[|s| - 1]}
  }
}
