/** Reference definitions of everything the Solution analyser computes, written
    as functions over the flow list, and the lemmas that say what they mean.
    The class in mcf.dfy is proved to compute exactly these values. */
module Aggregates {
  import opened Types

  // ---------------------------------------------------------------------------
  // Paths, edges and transit nodes
  // ---------------------------------------------------------------------------

  /** The consecutive directed edges of a node path. */
  function Edges(p: seq<NodeId>): (es: seq<Edge>)
    ensures |es| == if |p| == 0 then 0 else |p| - 1
    ensures forall i :: 0 <= i < |es| ==> es[i].0 == p[i] && es[i].1 == p[i + 1]
  {
    if |p| <= 1 then [] else seq(|p| - 1, i requires 0 <= i < |p| - 1 => (p[i], p[i + 1]))
  }

  /** The transit nodes of a path: every node except the first and the last. */
  function Transit(p: seq<NodeId>): seq<NodeId>
  {
    if |p| > 2 then p[1..|p| - 1] else []
  }

  /** Every edge that occurs on the path of some flow. */
  function UsedEdges(flows: seq<Flow>): set<Edge>
  {
    if |flows| == 0 then {}
    else UsedEdges(flows[..|flows| - 1]) + Elems(Edges(flows[|flows| - 1].path))
  }

  // ---------------------------------------------------------------------------
  // Leg aggregation
  // ---------------------------------------------------------------------------

  /** One contribution (key, vol) for every occurrence of edge `e` in `es`, in order. */
  function EdgeContribs(key: Request, vol: real, es: seq<Edge>, e: Edge): seq<Contribution>
  {
    if |es| == 0 then []
    else EdgeContribs(key, vol, es[..|es| - 1], e) + (if es[|es| - 1] == e then [(key, vol)] else [])
  }

  /** The contributions edge `e` collects from all flows, flow by flow and edge by edge. */
  function Contributions(flows: seq<Flow>, e: Edge): seq<Contribution>
  {
    if |flows| == 0 then []
    else
      var f := flows[|flows| - 1];
      Contributions(flows[..|flows| - 1], e) + EdgeContribs(f.Key(), f.volume, Edges(f.path), e)
  }

  /** The first k + 1 elements are the first k and then element k. */
  lemma PrefixSnoc<T>(s: seq<T>, k: nat)
    requires k < |s|
    ensures s[..k + 1] == s[..k] + [s[k]]
  {
  }

  /** The sum of the volumes of a contribution list. */
  function SumVolumes(cs: seq<Contribution>): real
  {
    if |cs| == 0 then 0.0 else SumVolumes(cs[..|cs| - 1]) + cs[|cs| - 1].1
  }

  /** The number of vehicles a volume needs: the ceiling of volume / capacity. */
  function CeilDiv(volume: real, capacity: real): (n: int)
    requires capacity > 0.0
    ensures (n - 1) as real * capacity < volume <= n as real * capacity
  {
    var q := volume / capacity;
    var f := q.Floor;
    var n := if f as real == q then f else f + 1;
    CeilBounds(volume, capacity, q, n);
    n
  }

  /** If n is the least integer not below q = volume / capacity, then n vehicles
      carry the volume and n - 1 do not. */
  lemma CeilBounds(volume: real, capacity: real, q: real, n: int)
    requires capacity > 0.0 && q * capacity == volume
    requires (n - 1) as real < q <= n as real
    ensures (n - 1) as real * capacity < volume <= n as real * capacity
  {
    ProductSign(q - (n - 1) as real, capacity);
    ProductSign(n as real - q, capacity);
    assert (q - (n - 1) as real) * capacity == volume - (n - 1) as real * capacity;
    assert (n as real - q) * capacity == n as real * capacity - volume;
  }

  /** A leg record as first inserted and then fed contributions `cs`, before pricing. */
  function DraftLeg(info: EdgeInfo, cs: seq<Contribution>): Leg
  {
    Leg(info.distance, info.time, info.pricePerKm, SumVolumes(cs), cs, 0, 0.0)
  }

  /** Appends one contribution to a leg and adds its volume to the leg's volume. */
  function AddContribution(leg: Leg, c: Contribution): Leg
  {
    leg.(reqs := leg.reqs + [c], sumVolume := leg.sumVolume + c.1)
  }

  lemma DraftLegAdd(info: EdgeInfo, cs: seq<Contribution>, c: Contribution)
    ensures AddContribution(DraftLeg(info, cs), c) == DraftLeg(info, cs + [c])
  {
    assert (cs + [c])[..|cs|] == cs;
  }

  /** A priced draft leg is the leg its contributions call for. */
  lemma PricedDraftMatches(info: EdgeInfo, cs: seq<Contribution>, capacity: real)
    requires capacity > 0.0
    ensures LegMatches(PriceLeg(DraftLeg(info, cs), capacity), info, cs, capacity)
  {
  }

  /** The leg table part-way through aggregation: all of `flows` and the edges `es`
      of the next flow (serving request `key` with volume `vol`) are aggregated,
      and no leg is priced yet. */
  ghost predicate IsDraftTable(order: seq<Edge>, legs: map<Edge, Leg>, flows: seq<Flow>,
                               key: Request, vol: real, es: seq<Edge>, matrix: map<Edge, EdgeInfo>)
  {
    && Distinct(order)
    && Elems(order) == legs.Keys
    && legs.Keys == (UsedEdges(flows) + Elems(es)) * matrix.Keys
    && forall e :: e in legs ==> legs[e] == DraftLeg(matrix[e], Contributions(flows, e) + EdgeContribs(key, vol, es, e))
  }

  lemma ElemsSnoc<T(!new)>(s: seq<T>, x: T)
    ensures Elems(s + [x]) == Elems(s) + {x}
  {
  }

  lemma EdgeContribsSnoc(key: Request, vol: real, es: seq<Edge>, e: Edge, x: Edge)
    ensures EdgeContribs(key, vol, es + [e], x) == EdgeContribs(key, vol, es, x) + (if e == x then [(key, vol)] else [])
  {
    assert (es + [e])[..|es|] == es;
  }

  /** Folds the four facts that make up a draft table. */
  lemma DraftTableIntro(order: seq<Edge>, legs: map<Edge, Leg>, flows: seq<Flow>,
                        key: Request, vol: real, es: seq<Edge>, matrix: map<Edge, EdgeInfo>)
    requires Distinct(order)
    requires Elems(order) == legs.Keys
    requires legs.Keys == (UsedEdges(flows) + Elems(es)) * matrix.Keys
    requires forall x :: x in legs ==> legs[x] == DraftLeg(matrix[x], Contributions(flows, x) + EdgeContribs(key, vol, es, x))
    ensures IsDraftTable(order, legs, flows, key, vol, es, matrix)
  {
  }

  /** Appending a new key to a duplicate-free order keeps it duplicate-free. */
  lemma OrderSnoc<T(!new)>(order: seq<T>, keys: set<T>, x: T)
    requires Distinct(order) && Elems(order) == keys && x !in keys
    ensures Distinct(order + [x]) && Elems(order + [x]) == keys + {x}
  {
    ElemsSnoc(order, x);
    DistinctSnoc(order, x);
  }

  lemma DraftKeysSnoc(keys: set<Edge>, flows: seq<Flow>, es: seq<Edge>, e: Edge, matrix: map<Edge, EdgeInfo>)
    requires keys == (UsedEdges(flows) + Elems(es)) * matrix.Keys
    ensures e !in matrix ==> keys == (UsedEdges(flows) + Elems(es + [e])) * matrix.Keys
    ensures e in matrix ==> keys + {e} == (UsedEdges(flows) + Elems(es + [e])) * matrix.Keys
  {
    ElemsSnoc(es, e);
  }

  /** One draft leg across an aggregation step on edge `e`: unchanged for another
      edge, one contribution longer for `e` itself. */
  lemma DraftEntrySnoc(x: Edge, leg: Leg, info: EdgeInfo, flows: seq<Flow>, key: Request, vol: real,
                       es: seq<Edge>, e: Edge)
    requires leg == DraftLeg(info, Contributions(flows, x) + EdgeContribs(key, vol, es, x))
    ensures x != e ==> leg == DraftLeg(info, Contributions(flows, x) + EdgeContribs(key, vol, es + [e], x))
    ensures x == e ==> AddContribution(leg, (key, vol)) == DraftLeg(info, Contributions(flows, x) + EdgeContribs(key, vol, es + [e], x))
  {
    EdgeContribsSnoc(key, vol, es, e, x);
    if x == e {
      var cs := Contributions(flows, x) + EdgeContribs(key, vol, es, x);
      DraftLegAdd(info, cs, (key, vol));
      assert cs + [(key, vol)] == Contributions(flows, x) + (EdgeContribs(key, vol, es, x) + [(key, vol)]);
    } else {
      assert EdgeContribs(key, vol, es, x) + [] == EdgeContribs(key, vol, es, x);
    }
  }

  /** A leg inserted for an edge not yet aggregated starts as the empty draft. */
  lemma DraftEntryNew(x: Edge, info: EdgeInfo, flows: seq<Flow>, key: Request, vol: real, es: seq<Edge>)
    requires x !in UsedEdges(flows) && x !in Elems(es)
    ensures DraftLeg(info, []) == DraftLeg(info, Contributions(flows, x) + EdgeContribs(key, vol, es, x))
  {
    ContributionsUnused(flows, x);
    EdgeContribsUnused(key, vol, es, x);
  }

  /** Aggregation step for an edge missing from the matrix: skipping it keeps the draft table. */
  lemma DraftStepSkip(order: seq<Edge>, legs: map<Edge, Leg>, flows: seq<Flow>,
                      key: Request, vol: real, es: seq<Edge>, e: Edge, matrix: map<Edge, EdgeInfo>)
    requires IsDraftTable(order, legs, flows, key, vol, es, matrix)
    requires e !in matrix
    ensures IsDraftTable(order, legs, flows, key, vol, es + [e], matrix)
  {
    DraftKeysSnoc(legs.Keys, flows, es, e, matrix);
    forall x | x in legs
      ensures legs[x] == DraftLeg(matrix[x], Contributions(flows, x) + EdgeContribs(key, vol, es + [e], x))
    {
      DraftEntrySnoc(x, legs[x], matrix[x], flows, key, vol, es, e);
    }
  }

  /** Inserting the empty draft leg of a matrix edge not yet in the table. */
  lemma DraftInsert(order: seq<Edge>, legs: map<Edge, Leg>, legs1: map<Edge, Leg>, flows: seq<Flow>,
                    key: Request, vol: real, es: seq<Edge>, e: Edge, matrix: map<Edge, EdgeInfo>)
    requires IsDraftTable(order, legs, flows, key, vol, es, matrix)
    requires e in matrix && e !in legs
    requires legs1 == legs[e := DraftLeg(matrix[e], [])]
    ensures Distinct(order + [e]) && Elems(order + [e]) == legs.Keys + {e}
    ensures e in legs1 && legs1.Keys <= matrix.Keys
    ensures forall x :: x in legs1 ==> legs1[x] == DraftLeg(matrix[x], Contributions(flows, x) + EdgeContribs(key, vol, es, x))
  {
    OrderSnoc(order, legs.Keys, e);
    forall x | x in legs1
      ensures legs1[x] == DraftLeg(matrix[x], Contributions(flows, x) + EdgeContribs(key, vol, es, x))
    {
      if x == e {
        DraftEntryNew(e, matrix[e], flows, key, vol, es);
      }
    }
  }

  /** The draft leg of every edge after the step on `e`, given the legs before it and
      the leg `e` had before its contribution was added. */
  lemma DraftEntriesAfterAdd(legs1: map<Edge, Leg>, legs2: map<Edge, Leg>, flows: seq<Flow>, key: Request, vol: real,
                             es: seq<Edge>, e: Edge, matrix: map<Edge, EdgeInfo>)
    requires e in legs1 && legs1.Keys <= matrix.Keys
    requires forall x :: x in legs1 ==> legs1[x] == DraftLeg(matrix[x], Contributions(flows, x) + EdgeContribs(key, vol, es, x))
    requires legs2 == legs1[e := AddContribution(legs1[e], (key, vol))]
    ensures forall x :: x in legs2 ==> legs2[x] == DraftLeg(matrix[x], Contributions(flows, x) + EdgeContribs(key, vol, es + [e], x))
  {
    forall x | x in legs2
      ensures legs2[x] == DraftLeg(matrix[x], Contributions(flows, x) + EdgeContribs(key, vol, es + [e], x))
    {
      DraftEntrySnoc(x, legs1[x], matrix[x], flows, key, vol, es, e);
    }
  }

  /** Aggregation step for an edge that already has a leg: adding the contribution keeps the draft table. */
  lemma DraftStepBump(order: seq<Edge>, legs: map<Edge, Leg>, flows: seq<Flow>,
                      key: Request, vol: real, es: seq<Edge>, e: Edge, matrix: map<Edge, EdgeInfo>)
    requires IsDraftTable(order, legs, flows, key, vol, es, matrix)
    requires e in legs
    ensures IsDraftTable(order, legs[e := AddContribution(legs[e], (key, vol))], flows, key, vol, es + [e], matrix)
  {
    var legs2 := legs[e := AddContribution(legs[e], (key, vol))];
    assert legs2.Keys == legs.Keys;
    assert legs2.Keys == (UsedEdges(flows) + Elems(es + [e])) * matrix.Keys by {
      DraftKeysSnoc(legs.Keys, flows, es, e, matrix);
    }
    assert forall x :: x in legs2 ==> legs2[x] == DraftLeg(matrix[x], Contributions(flows, x) + EdgeContribs(key, vol, es + [e], x)) by {
      DraftEntriesAfterAdd(legs, legs2, flows, key, vol, es, e, matrix);
    }
    DraftTableIntro(order, legs2, flows, key, vol, es + [e], matrix);
  }

  /** Aggregation step for a matrix edge without a leg yet: inserting its empty leg and
      adding the contribution keeps the draft table, with the edge appended to the order. */
  lemma DraftStepInsert(order: seq<Edge>, legs: map<Edge, Leg>, legs1: map<Edge, Leg>, legs2: map<Edge, Leg>, flows: seq<Flow>,
                        key: Request, vol: real, es: seq<Edge>, e: Edge, matrix: map<Edge, EdgeInfo>)
    requires IsDraftTable(order, legs, flows, key, vol, es, matrix)
    requires e in matrix && e !in legs
    requires legs1 == legs[e := DraftLeg(matrix[e], [])]
    requires legs2 == legs1[e := AddContribution(legs1[e], (key, vol))]
    ensures IsDraftTable(order + [e], legs2, flows, key, vol, es + [e], matrix)
  {
    assert legs2.Keys == legs.Keys + {e};
    assert Distinct(order + [e]) && Elems(order + [e]) == legs2.Keys by {
      DraftInsert(order, legs, legs1, flows, key, vol, es, e, matrix);
    }
    assert legs2.Keys == (UsedEdges(flows) + Elems(es + [e])) * matrix.Keys by {
      DraftKeysSnoc(legs.Keys, flows, es, e, matrix);
    }
    assert forall x :: x in legs2 ==> legs2[x] == DraftLeg(matrix[x], Contributions(flows, x) + EdgeContribs(key, vol, es + [e], x)) by {
      DraftInsert(order, legs, legs1, flows, key, vol, es, e, matrix);
      DraftEntriesAfterAdd(legs1, legs2, flows, key, vol, es, e, matrix);
    }
    DraftTableIntro(order + [e], legs2, flows, key, vol, es + [e], matrix);
  }

  lemma UsedEdgesSnoc(flows: seq<Flow>, f: Flow)
    ensures UsedEdges(flows + [f]) == UsedEdges(flows) + Elems(Edges(f.path))
  {
    assert (flows + [f])[..|flows|] == flows;
  }

  lemma ContributionsSnoc(flows: seq<Flow>, f: Flow, x: Edge)
    ensures Contributions(flows + [f], x) == Contributions(flows, x) + EdgeContribs(f.Key(), f.volume, Edges(f.path), x)
  {
    assert (flows + [f])[..|flows|] == flows;
  }

  lemma DraftEntryNextFlow(x: Edge, leg: Leg, info: EdgeInfo, flows: seq<Flow>, f: Flow, key: Request, vol: real)
    requires leg == DraftLeg(info, Contributions(flows, x) + EdgeContribs(f.Key(), f.volume, Edges(f.path), x))
    ensures leg == DraftLeg(info, Contributions(flows + [f], x) + EdgeContribs(key, vol, [], x))
  {
    ContributionsSnoc(flows, f, x);
    assert Contributions(flows + [f], x) + [] == Contributions(flows + [f], x);
  }

  lemma DraftKeysNextFlow(keys: set<Edge>, flows: seq<Flow>, f: Flow, matrix: map<Edge, EdgeInfo>)
    requires keys == (UsedEdges(flows) + Elems(Edges(f.path))) * matrix.Keys
    ensures keys == (UsedEdges(flows + [f]) + Elems<Edge>([])) * matrix.Keys
  {
    UsedEdgesSnoc(flows, f);
  }

  /** Once every edge of flow `f` is aggregated, the draft table covers `flows + [f]`. */
  lemma DraftNextFlow(order: seq<Edge>, legs: map<Edge, Leg>, flows: seq<Flow>, f: Flow,
                      key: Request, vol: real, matrix: map<Edge, EdgeInfo>)
    requires IsDraftTable(order, legs, flows, f.Key(), f.volume, Edges(f.path), matrix)
    ensures IsDraftTable(order, legs, flows + [f], key, vol, [], matrix)
  {
    DraftKeysNextFlow(legs.Keys, flows, f, matrix);
    forall x | x in legs
      ensures legs[x] == DraftLeg(matrix[x], Contributions(flows + [f], x) + EdgeContribs(key, vol, [], x))
    {
      DraftEntryNextFlow(x, legs[x], matrix[x], flows, f, key, vol);
    }
  }

  /** A finished flow's edge list is forgotten: the same table with no pending edges
      of any next flow. */
  lemma DraftTableNewFlow(order: seq<Edge>, legs: map<Edge, Leg>, flows: seq<Flow>,
                          key: Request, vol: real, key': Request, vol': real, matrix: map<Edge, EdgeInfo>)
    requires IsDraftTable(order, legs, flows, key, vol, [], matrix)
    ensures IsDraftTable(order, legs, flows, key', vol', [], matrix)
  {
  }

  /** The skipped-edge set across an aggregation step on edge `e`. */
  lemma SkippedSnoc(skipped: set<Edge>, flows: seq<Flow>, es: seq<Edge>, e: Edge, matrix: map<Edge, EdgeInfo>)
    requires skipped == (UsedEdges(flows) + Elems(es)) - matrix.Keys
    ensures e in matrix ==> skipped == (UsedEdges(flows) + Elems(es + [e])) - matrix.Keys
    ensures e !in matrix ==> skipped + {e} == (UsedEdges(flows) + Elems(es + [e])) - matrix.Keys
  {
    ElemsSnoc(es, e);
  }

  /** The state of the edge loop of one flow after its first `j` edges `es[..j]`:
      the draft table, the skipped edges and the leg order (`order0` before the flow). */
  ghost predicate EdgeLoopState(order0: seq<Edge>, order: seq<Edge>, legs: map<Edge, Leg>, skipped: set<Edge>,
                                flows: seq<Flow>, key: Request, vol: real, es: seq<Edge>, j: nat,
                                matrix: map<Edge, EdgeInfo>)
    requires j <= |es|
  {
    && IsDraftTable(order, legs, flows, key, vol, es[..j], matrix)
    && skipped == (UsedEdges(flows) + Elems(es[..j])) - matrix.Keys
    && order == AppendNewEdges(order0, es[..j], matrix)
  }

  /** An edge missing from the matrix is only recorded as skipped. */
  lemma EdgeStepSkip(order0: seq<Edge>, order: seq<Edge>, legs: map<Edge, Leg>, skipped: set<Edge>,
                     flows: seq<Flow>, key: Request, vol: real, es: seq<Edge>, j: nat, matrix: map<Edge, EdgeInfo>)
    requires j < |es| && EdgeLoopState(order0, order, legs, skipped, flows, key, vol, es, j, matrix)
    requires es[j] !in legs && es[j] !in matrix
    ensures EdgeLoopState(order0, order, legs, skipped + {es[j]}, flows, key, vol, es, j + 1, matrix)
  {
    PrefixSnoc(es, j);
    SkippedSnoc(skipped, flows, es[..j], es[j], matrix);
    AppendNewEdgesStep(order0, es, j, order, legs, flows, key, vol, matrix);
    DraftStepSkip(order, legs, flows, key, vol, es[..j], es[j], matrix);
  }

  /** An edge that already has a leg adds its contribution to that leg. */
  lemma EdgeStepBump(order0: seq<Edge>, order: seq<Edge>, legs: map<Edge, Leg>, legs': map<Edge, Leg>, skipped: set<Edge>,
                     flows: seq<Flow>, key: Request, vol: real, es: seq<Edge>, j: nat, matrix: map<Edge, EdgeInfo>)
    requires j < |es| && EdgeLoopState(order0, order, legs, skipped, flows, key, vol, es, j, matrix)
    requires es[j] in legs
    requires legs' == legs[es[j] := AddContribution(legs[es[j]], (key, vol))]
    ensures EdgeLoopState(order0, order, legs', skipped, flows, key, vol, es, j + 1, matrix)
  {
    PrefixSnoc(es, j);
    assert es[j] in matrix;
    SkippedSnoc(skipped, flows, es[..j], es[j], matrix);
    AppendNewEdgesStep(order0, es, j, order, legs, flows, key, vol, matrix);
    DraftStepBump(order, legs, flows, key, vol, es[..j], es[j], matrix);
  }

  /** A new edge present in the matrix gets a leg, listed last, holding its contribution. */
  lemma EdgeStepInsert(order0: seq<Edge>, order: seq<Edge>, legs: map<Edge, Leg>, legs1: map<Edge, Leg>,
                       legs2: map<Edge, Leg>, skipped: set<Edge>,
                       flows: seq<Flow>, key: Request, vol: real, es: seq<Edge>, j: nat, matrix: map<Edge, EdgeInfo>)
    requires j < |es| && EdgeLoopState(order0, order, legs, skipped, flows, key, vol, es, j, matrix)
    requires es[j] !in legs && es[j] in matrix
    requires legs1 == legs[es[j] := DraftLeg(matrix[es[j]], [])]
    requires legs2 == legs1[es[j] := AddContribution(legs1[es[j]], (key, vol))]
    ensures EdgeLoopState(order0, order + [es[j]], legs2, skipped, flows, key, vol, es, j + 1, matrix)
  {
    PrefixSnoc(es, j);
    SkippedSnoc(skipped, flows, es[..j], es[j], matrix);
    AppendNewEdgesStep(order0, es, j, order, legs, flows, key, vol, matrix);
    DraftStepInsert(order, legs, legs1, legs2, flows, key, vol, es[..j], es[j], matrix);
  }

  lemma SkippedNextFlow(skipped: set<Edge>, flows: seq<Flow>, f: Flow, matrix: map<Edge, EdgeInfo>)
    requires skipped == (UsedEdges(flows) + Elems(Edges(f.path))) - matrix.Keys
    ensures skipped == (UsedEdges(flows + [f]) + Elems<Edge>([])) - matrix.Keys
  {
    UsedEdgesSnoc(flows, f);
  }

  /** Part-way through pricing: the legs of `order[..k]` are priced, the others are still drafts. */
  ghost predicate PricedUpTo(legs: map<Edge, Leg>, drafts: map<Edge, Leg>, order: seq<Edge>, k: nat, capacity: real)
    requires capacity > 0.0 && k <= |order|
  {
    && Distinct(order)
    && legs.Keys == drafts.Keys == Elems(order)
    && forall e :: e in legs ==> legs[e] == if e in order[..k] then PriceLeg(drafts[e], capacity) else drafts[e]
  }

  /** Pricing the next leg of the order extends the priced prefix by one. */
  lemma PricingStep(legs: map<Edge, Leg>, drafts: map<Edge, Leg>, order: seq<Edge>, k: nat, capacity: real)
    requires capacity > 0.0 && k < |order|
    requires PricedUpTo(legs, drafts, order, k, capacity)
    ensures order[k] in legs
    ensures PricedUpTo(legs[order[k] := PriceLeg(legs[order[k]], capacity)], drafts, order, k + 1, capacity)
  {
    var e := order[k];
    assert order[..k + 1] == order[..k] + [e];
    assert e in Elems(order);
    DistinctAt(order, k);
  }

  /** With every leg priced, the legs are the priced drafts. */
  lemma PricingDone(legs: map<Edge, Leg>, drafts: map<Edge, Leg>, order: seq<Edge>, capacity: real)
    requires capacity > 0.0
    requires PricedUpTo(legs, drafts, order, |order|, capacity)
    ensures legs.Keys == drafts.Keys
    ensures forall e :: e in legs ==> legs[e] == PriceLeg(drafts[e], capacity)
  {
    assert order[..|order|] == order;
  }

  /** Pricing every leg of a finished draft table yields the leg table. */
  lemma PricedTable(order: seq<Edge>, drafts: map<Edge, Leg>, legs: map<Edge, Leg>, flows: seq<Flow>,
                    key: Request, vol: real, matrix: map<Edge, EdgeInfo>, capacity: real)
    requires capacity > 0.0
    requires IsDraftTable(order, drafts, flows, key, vol, [], matrix)
    requires legs.Keys == drafts.Keys
    requires forall e :: e in legs ==> legs[e] == PriceLeg(drafts[e], capacity)
    ensures IsLegTable(order, legs, flows, matrix, capacity)
  {
    assert legs.Keys == UsedEdges(flows) * matrix.Keys by {
      assert Elems<Edge>([]) == {};
    }
    PricedEntries(drafts, legs, flows, key, vol, matrix, capacity);
    LegTableIntro(order, legs, flows, matrix, capacity);
  }

  /** Pricing every draft leg gives, for each edge, the leg its contributions call for. */
  lemma PricedEntries(drafts: map<Edge, Leg>, legs: map<Edge, Leg>, flows: seq<Flow>,
                      key: Request, vol: real, matrix: map<Edge, EdgeInfo>, capacity: real)
    requires capacity > 0.0
    requires drafts.Keys <= matrix.Keys && legs.Keys == drafts.Keys
    requires forall e :: e in drafts ==> drafts[e] == DraftLeg(matrix[e], Contributions(flows, e) + EdgeContribs(key, vol, [], e))
    requires forall e :: e in legs ==> legs[e] == PriceLeg(drafts[e], capacity)
    ensures forall e :: e in legs ==> LegMatches(legs[e], matrix[e], Contributions(flows, e), capacity)
  {
    forall e | e in legs
      ensures LegMatches(legs[e], matrix[e], Contributions(flows, e), capacity)
    {
      var cs := Contributions(flows, e);
      assert EdgeContribs(key, vol, [], e) == [];
      assert cs + [] == cs;
      PricedEntry(drafts[e], legs[e], matrix[e], cs, capacity);
    }
  }

  lemma LegTableIntro(order: seq<Edge>, legs: map<Edge, Leg>, flows: seq<Flow>, matrix: map<Edge, EdgeInfo>, capacity: real)
    requires Distinct(order) && Elems(order) == legs.Keys
    requires legs.Keys == UsedEdges(flows) * matrix.Keys
    requires forall e :: e in legs ==> LegMatches(legs[e], matrix[e], Contributions(flows, e), capacity)
    ensures IsLegTable(order, legs, flows, matrix, capacity)
  {
  }

  lemma PricedEntry(draft: Leg, leg: Leg, info: EdgeInfo, cs: seq<Contribution>, capacity: real)
    requires capacity > 0.0
    requires draft == DraftLeg(info, cs) && leg == PriceLeg(draft, capacity)
    ensures LegMatches(leg, info, cs, capacity)
  {
    PricedDraftMatches(info, cs, capacity);
  }

  /** Prices a leg: vehicles = ceil(sum_volume / capacity), cost = vehicles * tariff * distance / 1000. */
  function PriceLeg(leg: Leg, capacity: real): Leg
    requires capacity > 0.0
  {
    var n := CeilDiv(leg.sumVolume, capacity);
    leg.(vehicles := n, sumCost := n as real * leg.costPerKm * leg.distance / 1000.0)
  }

  /** The leg for an edge with table row `info` and contributions `cs`: its attributes
      come from the table, its volume is the sum of its contributions, and it is priced. */
  predicate LegMatches(leg: Leg, info: EdgeInfo, cs: seq<Contribution>, capacity: real)
  {
    && capacity > 0.0
    && leg.distance == info.distance
    && leg.time == info.time
    && leg.costPerKm == info.pricePerKm
    && leg.reqs == cs
    && leg.sumVolume == SumVolumes(cs)
    && (leg.vehicles - 1) as real * capacity < leg.sumVolume <= leg.vehicles as real * capacity
    && leg.sumCost == leg.vehicles as real * leg.costPerKm * leg.distance / 1000.0
  }

  /** The leg table of a flow list: one leg per used edge present in the distance
      matrix (in first-use order), each matching its contributions. */
  ghost predicate IsLegTable(order: seq<Edge>, legs: map<Edge, Leg>, flows: seq<Flow>,
                             matrix: map<Edge, EdgeInfo>, capacity: real)
  {
    && Distinct(order)
    && Elems(order) == legs.Keys
    && legs.Keys == UsedEdges(flows) * matrix.Keys
    && forall e :: e in legs ==> LegMatches(legs[e], matrix[e], Contributions(flows, e), capacity)
  }

  /** `order` followed by the edges of `es` that are in the matrix and not yet
      listed, each at its first occurrence. */
  function AppendNewEdges(order: seq<Edge>, es: seq<Edge>, matrix: map<Edge, EdgeInfo>): seq<Edge>
  {
    if |es| == 0 then order
    else
      var listed := AppendNewEdges(order, es[..|es| - 1], matrix);
      var e := es[|es| - 1];
      if e in matrix && e !in listed then listed + [e] else listed
  }

  /** The order of the legs: every used edge present in the matrix, at its first
      use, flow by flow and edge by edge. */
  function FirstUseEdges(flows: seq<Flow>, matrix: map<Edge, EdgeInfo>): seq<Edge>
  {
    if |flows| == 0 then []
    else AppendNewEdges(FirstUseEdges(flows[..|flows| - 1], matrix), Edges(flows[|flows| - 1].path), matrix)
  }

  lemma AppendNewEdgesSnoc(order: seq<Edge>, es: seq<Edge>, j: nat, matrix: map<Edge, EdgeInfo>, listed: seq<Edge>)
    requires j < |es|
    requires listed == AppendNewEdges(order, es[..j], matrix)
    ensures AppendNewEdges(order, es[..j + 1], matrix) ==
            if es[j] in matrix && es[j] !in listed then listed + [es[j]] else listed
  {
    assert es[..j + 1][..j] == es[..j];
  }

  lemma FirstUseEdgesSnoc(flows: seq<Flow>, f: Flow, flows': seq<Flow>, matrix: map<Edge, EdgeInfo>)
    requires flows' == flows + [f]
    ensures FirstUseEdges(flows', matrix) == AppendNewEdges(FirstUseEdges(flows, matrix), Edges(f.path), matrix)
  {
    assert flows'[..|flows|] == flows;
  }

  /** The next edge of a flow is listed exactly when the draft table has no leg for it yet
      and the matrix has a row for it. */
  lemma AppendNewEdgesStep(order0: seq<Edge>, es: seq<Edge>, j: nat, order: seq<Edge>, legs: map<Edge, Leg>,
                           flows: seq<Flow>, key: Request, vol: real, matrix: map<Edge, EdgeInfo>)
    requires j < |es|
    requires IsDraftTable(order, legs, flows, key, vol, es[..j], matrix)
    requires order == AppendNewEdges(order0, es[..j], matrix)
    ensures AppendNewEdges(order0, es[..j + 1], matrix) ==
            if es[j] !in legs && es[j] in matrix then order + [es[j]] else order
  {
    AppendNewEdgesSnoc(order0, es, j, matrix, order);
  }

  /** Listing new edges never reorders or drops the legs listed before. */
  lemma {:induction false} AppendNewEdgesExtends(order: seq<Edge>, es: seq<Edge>, matrix: map<Edge, EdgeInfo>)
    ensures order <= AppendNewEdges(order, es, matrix)
  {
    if |es| > 0 {
      AppendNewEdgesExtends(order, es[..|es| - 1], matrix);
    }
  }

  /** The legs of earlier flows come first: the leg order of a flow list is a prefix
      of the leg order of any longer flow list. */
  lemma {:induction false} FirstUseEdgesExtends(flows: seq<Flow>, more: seq<Flow>, matrix: map<Edge, EdgeInfo>)
    ensures FirstUseEdges(flows, matrix) <= FirstUseEdges(flows + more, matrix)
  {
    if |more| > 0 {
      var init := more[..|more| - 1];
      var f := more[|more| - 1];
      assert flows + more == (flows + init) + [f];
      FirstUseEdgesExtends(flows, init, matrix);
      var before := FirstUseEdges(flows + init, matrix);
      FirstUseEdgesSnoc(flows + init, f, flows + more, matrix);
      AppendNewEdgesExtends(before, Edges(f.path), matrix);
      PrefixTransitive(FirstUseEdges(flows, matrix), before, FirstUseEdges(flows + more, matrix));
    } else {
      assert flows + more == flows;
    }
  }

  lemma {:induction false} EdgeContribsUnused(key: Request, vol: real, es: seq<Edge>, e: Edge)
    requires e !in es
    ensures EdgeContribs(key, vol, es, e) == []
  {
    if |es| > 0 {
      EdgeContribsUnused(key, vol, es[..|es| - 1], e);
    }
  }

  /** An edge no flow uses collects no contribution. */
  lemma {:induction false} ContributionsUnused(flows: seq<Flow>, e: Edge)
    requires e !in UsedEdges(flows)
    ensures Contributions(flows, e) == []
  {
    if |flows| > 0 {
      var f := flows[|flows| - 1];
      ContributionsUnused(flows[..|flows| - 1], e);
      EdgeContribsUnused(f.Key(), f.volume, Edges(f.path), e);
    }
  }

  lemma {:induction false} EdgeContribsUsed(key: Request, vol: real, es: seq<Edge>, e: Edge)
    requires e in es
    ensures (key, vol) in EdgeContribs(key, vol, es, e)
  {
    if es[|es| - 1] != e {
      assert e in es[..|es| - 1] by {
        var k :| 0 <= k < |es| && es[k] == e;
        assert es[..|es| - 1][k] == e;
      }
      EdgeContribsUsed(key, vol, es[..|es| - 1], e);
    }
  }

  lemma {:induction false} EdgeContribsFrom(key: Request, vol: real, es: seq<Edge>, e: Edge, c: Contribution)
    requires c in EdgeContribs(key, vol, es, e)
    ensures c == (key, vol) && e in es
  {
    if |es| > 0 {
      if c in EdgeContribs(key, vol, es[..|es| - 1], e) {
        EdgeContribsFrom(key, vol, es[..|es| - 1], e, c);
      }
    }
  }

  /** A leg exists for exactly the used edges: `e` collects a contribution iff some flow's path uses it. */
  lemma {:induction false} ContributionsNonEmptyIffUsed(flows: seq<Flow>, e: Edge)
    ensures Contributions(flows, e) != [] <==> e in UsedEdges(flows)
  {
    if |flows| > 0 {
      var f := flows[|flows| - 1];
      ContributionsNonEmptyIffUsed(flows[..|flows| - 1], e);
      if e in Edges(f.path) {
        EdgeContribsUsed(f.Key(), f.volume, Edges(f.path), e);
      } else {
        EdgeContribsUnused(f.Key(), f.volume, Edges(f.path), e);
      }
    }
  }

  /** Every contribution of a leg names a flow whose path uses that edge, with that flow's volume. */
  lemma {:induction false} ContributionFromFlow(flows: seq<Flow>, e: Edge, c: Contribution)
    requires c in Contributions(flows, e)
    ensures exists i :: 0 <= i < |flows| && c == (flows[i].Key(), flows[i].volume) && e in Edges(flows[i].path)
  {
    var init := flows[..|flows| - 1];
    var f := flows[|flows| - 1];
    if c in Contributions(init, e) {
      ContributionFromFlow(init, e, c);
      var i :| 0 <= i < |init| && c == (init[i].Key(), init[i].volume) && e in Edges(init[i].path);
      assert flows[i] == init[i];
    } else {
      EdgeContribsFrom(f.Key(), f.volume, Edges(f.path), e, c);
    }
  }

  /** Vehicles for zero volume: none. */
  lemma ZeroVolumeNoVehicles(capacity: real)
    requires capacity > 0.0
    ensures CeilDiv(0.0, capacity) == 0
  {
    var n := CeilDiv(0.0, capacity);
    ProductSign(n as real, capacity);
    ProductSign((n - 1) as real, capacity);
  }

  /** A product with a positive factor has the sign of the other factor. */
  lemma ProductSign(a: real, c: real)
    requires c > 0.0
    ensures a * c < 0.0 <==> a < 0.0
    ensures a * c > 0.0 <==> a > 0.0
  {
  }

  // ---------------------------------------------------------------------------
  // Request aggregate
  // ---------------------------------------------------------------------------

  /** The request keys of a flow list. */
  function RequestKeys(flows: seq<Flow>): set<Request>
  {
    if |flows| == 0 then {} else RequestKeys(flows[..|flows| - 1]) + {flows[|flows| - 1].Key()}
  }

  /** A prefix of a prefix is a prefix. */
  lemma PrefixTransitive<T>(a: seq<T>, b: seq<T>, c: seq<T>)
    requires a <= b && b <= c
    ensures a <= c
  {
    assert c[..|b|][..|a|] == c[..|a|];
  }

  /** The order of the requests: every request key at the first flow that serves it. */
  function RequestOrder(flows: seq<Flow>): seq<Request>
  {
    if |flows| == 0 then []
    else
      var listed := RequestOrder(flows[..|flows| - 1]);
      var k := flows[|flows| - 1].Key();
      if k in listed then listed else listed + [k]
  }

  lemma RequestOrderSnoc(flows: seq<Flow>, f: Flow, flows': seq<Flow>)
    requires flows' == flows + [f]
    ensures RequestOrder(flows') == if f.Key() in RequestOrder(flows) then RequestOrder(flows) else RequestOrder(flows) + [f.Key()]
  {
    assert flows'[..|flows|] == flows;
  }

  /** The next flow's request is listed exactly when the request table has no entry for it yet. */
  lemma RequestOrderStep(order: seq<Request>, table: map<Request, real>, flows: seq<Flow>, f: Flow, flows': seq<Flow>)
    requires IsRequestTable(order, table, flows) && order == RequestOrder(flows)
    requires flows' == flows + [f]
    ensures RequestOrder(flows') == if f.Key() in table then order else order + [f.Key()]
  {
    RequestOrderSnoc(flows, f, flows');
  }

  /** The requests of earlier flows come first: the request order of a flow list is
      a prefix of the request order of any longer flow list. */
  lemma {:induction false} RequestOrderExtends(flows: seq<Flow>, more: seq<Flow>)
    ensures RequestOrder(flows) <= RequestOrder(flows + more)
  {
    if |more| > 0 {
      var init := more[..|more| - 1];
      RequestOrderExtends(flows, init);
      assert flows + more == (flows + init) + [more[|more| - 1]];
      RequestOrderSnoc(flows + init, more[|more| - 1], flows + more);
      PrefixTransitive(RequestOrder(flows), RequestOrder(flows + init), RequestOrder(flows + more));
    } else {
      assert flows + more == flows;
    }
  }

  /** The total volume of the flows that serve request `k`. */
  function RequestVolume(flows: seq<Flow>, k: Request): real
  {
    if |flows| == 0 then 0.0
    else
      var f := flows[|flows| - 1];
      RequestVolume(flows[..|flows| - 1], k) + (if f.Key() == k then f.volume else 0.0)
  }

  /** The total volume of all flows. */
  function TotalVolume(flows: seq<Flow>): real
  {
    if |flows| == 0 then 0.0 else TotalVolume(flows[..|flows| - 1]) + flows[|flows| - 1].volume
  }

  /** The sum of the values of `m` at the keys listed in `order`. */
  function SumOver<K>(order: seq<K>, m: map<K, real>): real
    requires forall k :: k in order ==> k in m
  {
    if |order| == 0 then 0.0 else SumOver(order[..|order| - 1], m) + m[order[|order| - 1]]
  }

  /** The request table of a flow list: every request key once (first-use order),
      mapped to the total volume of its flows. */
  ghost predicate IsRequestTable(order: seq<Request>, reqs: map<Request, real>, flows: seq<Flow>)
  {
    && Distinct(order)
    && Elems(order) == reqs.Keys
    && reqs.Keys == RequestKeys(flows)
    && forall k :: k in reqs ==> reqs[k] == RequestVolume(flows, k)
  }

  lemma RequestTableIntro(order: seq<Request>, reqs: map<Request, real>, flows: seq<Flow>)
    requires Distinct(order)
    requires Elems(order) == reqs.Keys
    requires reqs.Keys == RequestKeys(flows)
    requires forall k :: k in reqs ==> reqs[k] == RequestVolume(flows, k)
    ensures IsRequestTable(order, reqs, flows)
  {
  }

  lemma RequestSnoc(flows: seq<Flow>, f: Flow, flows': seq<Flow>)
    requires flows' == flows + [f]
    ensures RequestKeys(flows') == RequestKeys(flows) + {f.Key()}
    ensures TotalVolume(flows') == TotalVolume(flows) + f.volume
    ensures forall k :: RequestVolume(flows', k) == RequestVolume(flows, k) + (if f.Key() == k then f.volume else 0.0)
  {
    assert flows'[..|flows|] == flows;
  }

  /** Adding a flow of a request already in the table bumps that request's total;
      the grand total grows by the flow's volume. */
  lemma RequestStepKnown(order: seq<Request>, table: map<Request, real>, flows: seq<Flow>, f: Flow,
                         table': map<Request, real>, flows': seq<Flow>)
    requires IsRequestTable(order, table, flows) && SumOver(order, table) == TotalVolume(flows)
    requires f.Key() in table
    requires flows' == flows + [f]
    requires table' == table[f.Key() := table[f.Key()] + f.volume]
    ensures IsRequestTable(order, table', flows') && SumOver(order, table') == TotalVolume(flows')
  {
    RequestSnoc(flows, f, flows');
    assert table'.Keys == table.Keys;
    SumOverBump(order, table, f.Key(), f.volume);
    RequestTableIntro(order, table', flows');
  }

  /** Adding a flow of a new request appends the request with the flow's volume;
      the grand total grows by the flow's volume. */
  lemma RequestStepNew(order: seq<Request>, table: map<Request, real>, flows: seq<Flow>, f: Flow,
                       order': seq<Request>, table': map<Request, real>, flows': seq<Flow>)
    requires IsRequestTable(order, table, flows) && SumOver(order, table) == TotalVolume(flows)
    requires f.Key() !in table
    requires flows' == flows + [f]
    requires table' == table[f.Key() := 0.0 + f.volume]
    requires order' == order + [f.Key()]
    ensures IsRequestTable(order', table', flows') && SumOver(order', table') == TotalVolume(flows')
  {
    var k := f.Key();
    RequestSnoc(flows, f, flows');
    assert table'.Keys == table.Keys + {k};
    OrderSnoc(order, table.Keys, k);
    RequestVolumeAbsent(flows, k);
    assert SumOver(order', table') == TotalVolume(flows') by {
      SumOverOtherKey(order, table, k, 0.0 + f.volume);
      assert order'[..|order|] == order;
    }
    RequestTableIntro(order', table', flows');
  }

  /** A request no flow serves has volume 0 (a missing key counts as 0). */
  lemma {:induction false} RequestVolumeAbsent(flows: seq<Flow>, k: Request)
    requires k !in RequestKeys(flows)
    ensures RequestVolume(flows, k) == 0.0
  {
    if |flows| > 0 {
      RequestVolumeAbsent(flows[..|flows| - 1], k);
    }
  }

  /** Changing the value of a key that `order` does not list leaves the sum unchanged. */
  lemma {:induction false} SumOverOtherKey<K>(order: seq<K>, m: map<K, real>, k: K, v: real)
    requires forall x :: x in order ==> x in m
    requires k !in order
    ensures SumOver(order, m[k := v]) == SumOver(order, m)
  {
    if |order| > 0 {
      SumOverOtherKey(order[..|order| - 1], m, k, v);
    }
  }

  /** Adding `d` to the value of a key listed once in `order` adds `d` to the sum. */
  lemma {:induction false} SumOverBump<K>(order: seq<K>, m: map<K, real>, k: K, d: real)
    requires forall x :: x in order ==> x in m
    requires Distinct(order) && k in order
    ensures SumOver(order, m[k := m[k] + d]) == SumOver(order, m) + d
  {
    var init := order[..|order| - 1];
    var last := order[|order| - 1];
    if last == k {
      SumOverOtherKey(init, m, k, m[k] + d);
    } else {
      assert k in init by {
        var i :| 0 <= i < |order| && order[i] == k;
        assert init[i] == k;
      }
      SumOverBump(init, m, k, d);
    }
  }

  // ---------------------------------------------------------------------------
  // Transfer cost and node throughput
  // ---------------------------------------------------------------------------

  /** The first office row with id `n`, if any (the office table's index lookup). */
  function Lookup(rows: seq<OfficeRow>, n: NodeId): (r: Option<OfficeRow>)
    ensures r.Some? <==> exists i :: 0 <= i < |rows| && rows[i].id == n
    ensures r.Some? ==> r.value in rows && r.value.id == n
  {
    if |rows| == 0 then None
    else if rows[0].id == n then Some(rows[0])
    else
      var r := Lookup(rows[1..], n);
      assert forall x :: x in rows[1..] ==> x in rows;
      assert forall i :: 1 <= i < |rows| ==> rows[i] == rows[1..][i - 1];
      r
  }

  /** The transfer charge of one pass through node `n` with volume `vol`:
      volume * transfer price when the node is in the office table, else nothing. */
  function NodeCharge(n: NodeId, vol: real, offices: Option<seq<OfficeRow>>): real
  {
    if offices.Some? && Lookup(offices.value, n).Some?
    then vol * Lookup(offices.value, n).value.transferPrice
    else 0.0
  }

  /** The transfer charges of a list of transit nodes. */
  function NodeCharges(nodes: seq<NodeId>, vol: real, offices: Option<seq<OfficeRow>>): real
  {
    if |nodes| == 0 then 0.0
    else NodeCharges(nodes[..|nodes| - 1], vol, offices) + NodeCharge(nodes[|nodes| - 1], vol, offices)
  }

  /** The total transfer cost of a flow list: every transit node of every flow is charged. */
  function TransferCost(flows: seq<Flow>, offices: Option<seq<OfficeRow>>): real
  {
    if |flows| == 0 then 0.0
    else
      var f := flows[|flows| - 1];
      TransferCost(flows[..|flows| - 1], offices) + NodeCharges(Transit(f.path), f.volume, offices)
  }

  /** `vol` once for every occurrence of `n` in `nodes`. */
  function NodeVolume(nodes: seq<NodeId>, vol: real, n: NodeId): real
  {
    if |nodes| == 0 then 0.0
    else NodeVolume(nodes[..|nodes| - 1], vol, n) + (if nodes[|nodes| - 1] == n then vol else 0.0)
  }

  /** The volume passing through node `n` as a transit node, over all flows. */
  function TransitVolume(flows: seq<Flow>, n: NodeId): real
  {
    if |flows| == 0 then 0.0
    else
      var f := flows[|flows| - 1];
      TransitVolume(flows[..|flows| - 1], n) + NodeVolume(Transit(f.path), f.volume, n)
  }

  /** The nodes that are a transit node of some flow. */
  function TransitNodes(flows: seq<Flow>): set<NodeId>
  {
    if |flows| == 0 then {}
    else TransitNodes(flows[..|flows| - 1]) + Elems(Transit(flows[|flows| - 1].path))
  }

  /** The per-node transit volume of a flow list (both its in-flow and its out-flow). */
  function TransitFlows(flows: seq<Flow>): map<NodeId, real>
  {
    map n | n in TransitNodes(flows) :: TransitVolume(flows, n)
  }

  lemma {:induction false} NodeVolumeAbsent(nodes: seq<NodeId>, vol: real, n: NodeId)
    requires n !in nodes
    ensures NodeVolume(nodes, vol, n) == 0.0
  {
    if |nodes| > 0 {
      NodeVolumeAbsent(nodes[..|nodes| - 1], vol, n);
    }
  }

  /** A node no flow transits has no transit volume. */
  lemma {:induction false} TransitVolumeAbsent(flows: seq<Flow>, n: NodeId)
    requires n !in TransitNodes(flows)
    ensures TransitVolume(flows, n) == 0.0
  {
    if |flows| > 0 {
      var f := flows[|flows| - 1];
      TransitVolumeAbsent(flows[..|flows| - 1], n);
      NodeVolumeAbsent(Transit(f.path), f.volume, n);
    }
  }

  /** A per-node volume table with `vol` more at node `n` (a new node starts from 0). */
  function AddVolume(m: map<NodeId, real>, n: NodeId, vol: real): (r: map<NodeId, real>)
    ensures r.Keys == m.Keys + {n}
  {
    m[n := (if n in m then m[n] else 0.0) + vol]
  }

  /** The per-node table built by accumulating, on top of the transit flows of
      `flows`, the volume `vol` at each of `nodes` in turn. */
  function PartialFlows(flows: seq<Flow>, vol: real, nodes: seq<NodeId>): map<NodeId, real>
  {
    if |nodes| == 0 then TransitFlows(flows)
    else AddVolume(PartialFlows(flows, vol, nodes[..|nodes| - 1]), nodes[|nodes| - 1], vol)
  }

  lemma NodeVolumeSnoc(nodes: seq<NodeId>, vol: real, node: NodeId, n: NodeId)
    ensures NodeVolume(nodes + [node], vol, n) == NodeVolume(nodes, vol, n) + (if node == n then vol else 0.0)
  {
    assert (nodes + [node])[..|nodes|] == nodes;
  }

  /** One more node adds `vol` to its entry. */
  lemma PartialFlowsSnoc(flows: seq<Flow>, vol: real, nodes: seq<NodeId>, node: NodeId, nodes': seq<NodeId>)
    requires nodes' == nodes + [node]
    ensures PartialFlows(flows, vol, nodes') == AddVolume(PartialFlows(flows, vol, nodes), node, vol)
  {
    assert nodes'[..|nodes|] == nodes;
  }

  /** The accumulated table holds, for every node transited by `flows` or listed in
      `nodes`, its transit volume plus `vol` per occurrence in `nodes`. */
  lemma {:induction false} PartialFlowsMeaning(flows: seq<Flow>, vol: real, nodes: seq<NodeId>)
    ensures PartialFlows(flows, vol, nodes).Keys == TransitNodes(flows) + Elems(nodes)
    ensures forall n :: n in PartialFlows(flows, vol, nodes) ==>
      PartialFlows(flows, vol, nodes)[n] == TransitVolume(flows, n) + NodeVolume(nodes, vol, n)
  {
    if |nodes| > 0 {
      var init := nodes[..|nodes| - 1];
      var node := nodes[|nodes| - 1];
      assert nodes == init + [node];
      PartialFlowsMeaning(flows, vol, init);
      ElemsSnoc(init, node);
      var p := PartialFlows(flows, vol, init);
      forall n | n in PartialFlows(flows, vol, nodes)
        ensures PartialFlows(flows, vol, nodes)[n] == TransitVolume(flows, n) + NodeVolume(nodes, vol, n)
      {
        NodeVolumeSnoc(init, vol, node, n);
        if n == node && node !in p {
          TransitVolumeAbsent(flows, node);
          NodeVolumeAbsent(init, vol, node);
        }
      }
    }
  }

  lemma TransitNodesSnoc(flows: seq<Flow>, f: Flow)
    ensures TransitNodes(flows + [f]) == TransitNodes(flows) + Elems(Transit(f.path))
  {
    assert (flows + [f])[..|flows|] == flows;
  }

  lemma TransitVolumeSnoc(flows: seq<Flow>, f: Flow, n: NodeId)
    ensures TransitVolume(flows + [f], n) == TransitVolume(flows, n) + NodeVolume(Transit(f.path), f.volume, n)
  {
    assert (flows + [f])[..|flows|] == flows;
  }

  /** Accumulating a flow's volume at each of its transit nodes, on top of the
      transit flows of `flows`, gives the transit flows of `flows + [f]`. */
  lemma PartialFlowsNextFlow(flows: seq<Flow>, f: Flow, flows': seq<Flow>)
    requires flows' == flows + [f]
    ensures PartialFlows(flows, f.volume, Transit(f.path)) == TransitFlows(flows')
  {
    var p := PartialFlows(flows, f.volume, Transit(f.path));
    var q := TransitFlows(flows');
    PartialFlowsMeaning(flows, f.volume, Transit(f.path));
    TransitNodesSnoc(flows, f);
    assert p.Keys == q.Keys;
    forall n | n in p
      ensures p[n] == q[n]
    {
      TransitVolumeSnoc(flows, f, n);
    }
  }

  /** Charging one more transit node adds its charge. */
  lemma NodeChargesSnoc(nodes: seq<NodeId>, node: NodeId, nodes': seq<NodeId>, vol: real, offices: Option<seq<OfficeRow>>)
    requires nodes' == nodes + [node]
    ensures NodeCharges(nodes', vol, offices) == NodeCharges(nodes, vol, offices) + NodeCharge(node, vol, offices)
  {
    assert nodes'[..|nodes|] == nodes;
  }

  /** A flow adds the charges of its transit nodes to the transfer cost. */
  lemma TransferCostSnoc(flows: seq<Flow>, f: Flow, flows': seq<Flow>, offices: Option<seq<OfficeRow>>)
    requires flows' == flows + [f]
    ensures TransferCost(flows', offices) == TransferCost(flows, offices) + NodeCharges(Transit(f.path), f.volume, offices)
  {
    assert flows'[..|flows|] == flows;
  }

  /** Transit nodes that are not in the office table cost nothing: when no transit
      node of any flow is listed (in particular when there is no office table, or
      every path has two nodes or fewer), the transfer cost is zero. */
  lemma {:induction false} TransferCostZero(flows: seq<Flow>, offices: Option<seq<OfficeRow>>)
    requires forall i, n :: 0 <= i < |flows| && n in Transit(flows[i].path) ==>
               offices.None? || Lookup(offices.value, n).None?
    ensures TransferCost(flows, offices) == 0.0
  {
    if |flows| > 0 {
      var f := flows[|flows| - 1];
      TransferCostZero(flows[..|flows| - 1], offices);
      NodeChargesZero(Transit(f.path), f.volume, offices);
    }
  }

  lemma {:induction false} NodeChargesZero(nodes: seq<NodeId>, vol: real, offices: Option<seq<OfficeRow>>)
    requires forall n :: n in nodes ==> offices.None? || Lookup(offices.value, n).None?
    ensures NodeCharges(nodes, vol, offices) == 0.0
  {
    if |nodes| > 0 {
      NodeChargesZero(nodes[..|nodes| - 1], vol, offices);
    }
  }

  /** Transfer cost is additive over a split of the flow list, so the order in which
      flows are processed does not matter for the total. */
  lemma {:induction false} TransferCostAppend(a: seq<Flow>, b: seq<Flow>, offices: Option<seq<OfficeRow>>)
    ensures TransferCost(a + b, offices) == TransferCost(a, offices) + TransferCost(b, offices)
  {
    if |b| > 0 {
      var f := b[|b| - 1];
      assert (a + b)[..|a + b| - 1] == a + b[..|b| - 1];
      TransferCostAppend(a, b[..|b| - 1], offices);
    } else {
      assert a + b == a;
    }
  }

  // ---------------------------------------------------------------------------
  // Node capacity findings
  // ---------------------------------------------------------------------------

  /** The findings for one office row: in-flow then out-flow, each when it exceeds the capacity. */
  function RowFindings(row: OfficeRow, inFlow: map<NodeId, real>, outFlow: map<NodeId, real>): seq<Violation>
  {
    (if row.id in inFlow && inFlow[row.id] > row.transferMax
     then [InboundExceeded(row.id, inFlow[row.id], row.transferMax)] else [])
    + (if row.id in outFlow && outFlow[row.id] > row.transferMax
       then [OutboundExceeded(row.id, outFlow[row.id], row.transferMax)] else [])
  }

  /** The findings for a list of office rows, row by row. */
  function TableFindings(rows: seq<OfficeRow>, inFlow: map<NodeId, real>, outFlow: map<NodeId, real>): seq<Violation>
  {
    if |rows| == 0 then []
    else TableFindings(rows[..|rows| - 1], inFlow, outFlow) + RowFindings(rows[|rows| - 1], inFlow, outFlow)
  }

  /** The node-capacity findings: none without an office table. */
  function CapacityFindings(offices: Option<seq<OfficeRow>>, inFlow: map<NodeId, real>,
                            outFlow: map<NodeId, real>): seq<Violation>
  {
    if offices.None? then [] else TableFindings(offices.value, inFlow, outFlow)
  }

  /** An in-flow finding is reported exactly for a listed node whose in-flow strictly exceeds its capacity. */
  lemma {:induction false} InboundFindingIff(rows: seq<OfficeRow>, inFlow: map<NodeId, real>,
                                             outFlow: map<NodeId, real>, n: NodeId, a: real, m: real)
    ensures InboundExceeded(n, a, m) in TableFindings(rows, inFlow, outFlow) <==>
      && n in inFlow && inFlow[n] == a && a > m
      && exists i :: 0 <= i < |rows| && rows[i].id == n && rows[i].transferMax == m
  {
    if |rows| > 0 {
      var init := rows[..|rows| - 1];
      InboundFindingIff(init, inFlow, outFlow, n, a, m);
      if exists i :: 0 <= i < |init| && init[i].id == n && init[i].transferMax == m {
        var i :| 0 <= i < |init| && init[i].id == n && init[i].transferMax == m;
        assert rows[i] == init[i];
      }
      if exists i :: 0 <= i < |rows| && rows[i].id == n && rows[i].transferMax == m {
        var i :| 0 <= i < |rows| && rows[i].id == n && rows[i].transferMax == m;
        if i < |init| {
          assert init[i] == rows[i];
        }
      }
    }
  }

  /** An out-flow finding is reported exactly for a listed node whose out-flow strictly exceeds its capacity. */
  lemma {:induction false} OutboundFindingIff(rows: seq<OfficeRow>, inFlow: map<NodeId, real>,
                                              outFlow: map<NodeId, real>, n: NodeId, a: real, m: real)
    ensures OutboundExceeded(n, a, m) in TableFindings(rows, inFlow, outFlow) <==>
      && n in outFlow && outFlow[n] == a && a > m
      && exists i :: 0 <= i < |rows| && rows[i].id == n && rows[i].transferMax == m
  {
    if |rows| > 0 {
      var init := rows[..|rows| - 1];
      OutboundFindingIff(init, inFlow, outFlow, n, a, m);
      if exists i :: 0 <= i < |init| && init[i].id == n && init[i].transferMax == m {
        var i :| 0 <= i < |init| && init[i].id == n && init[i].transferMax == m;
        assert rows[i] == init[i];
      }
      if exists i :: 0 <= i < |rows| && rows[i].id == n && rows[i].transferMax == m {
        var i :| 0 <= i < |rows| && rows[i].id == n && rows[i].transferMax == m;
        if i < |init| {
          assert init[i] == rows[i];
        }
      }
    }
  }

  /** Findings follow office-table order: the findings of a split table are those of
      its first part followed by those of its second part. */
  lemma {:induction false} TableFindingsAppend(a: seq<OfficeRow>, b: seq<OfficeRow>,
                                               inFlow: map<NodeId, real>, outFlow: map<NodeId, real>)
    ensures TableFindings(a + b, inFlow, outFlow) == TableFindings(a, inFlow, outFlow) + TableFindings(b, inFlow, outFlow)
  {
    if |b| > 0 {
      assert (a + b)[..|a + b| - 1] == a + b[..|b| - 1];
      TableFindingsAppend(a, b[..|b| - 1], inFlow, outFlow);
    } else {
      assert a + b == a;
    }
  }

  /** With equal in- and out-flows, every in-flow finding is immediately followed by
      the out-flow finding for the same node, value and capacity. */
  lemma {:induction false} InboundThenOutbound(rows: seq<OfficeRow>, flow: map<NodeId, real>, j: nat)
    requires j < |TableFindings(rows, flow, flow)|
    requires TableFindings(rows, flow, flow)[j].InboundExceeded?
    ensures j + 1 < |TableFindings(rows, flow, flow)|
    ensures var v := TableFindings(rows, flow, flow)[j];
            TableFindings(rows, flow, flow)[j + 1] == OutboundExceeded(v.node, v.actual, v.limit)
  {
    var init := TableFindings(rows[..|rows| - 1], flow, flow);
    var last := RowFindings(rows[|rows| - 1], flow, flow);
    assert TableFindings(rows, flow, flow) == init + last;
    if j < |init| {
      assert init[j] == TableFindings(rows, flow, flow)[j];
      InboundThenOutbound(rows[..|rows| - 1], flow, j);
    }
  }

  // ---------------------------------------------------------------------------
  // Request coverage
  // ---------------------------------------------------------------------------

  /** The absolute tolerance of the coverage check. */
  const Tolerance: real := 0.001

  function Abs(x: real): real { if x < 0.0 then -x else x }

  /** The coverage findings against a reference table of (request, expected volume)
      entries, in table order. */
  function CoverageFindings(reference: seq<(Request, real)>, flows: seq<Flow>): (errs: seq<CoverageError>)
    ensures |errs| <= |reference|
  {
    if |reference| == 0 then []
    else
      var (k, expected) := reference[|reference| - 1];
      var actual := RequestVolume(flows, k);
      CoverageFindings(reference[..|reference| - 1], flows)
      + (if Abs(actual - expected) > Tolerance then [CoverageError(k.0, k.1, expected, actual)] else [])
  }

  /** A coverage finding is reported exactly for a reference entry whose actual volume
      (0 when no flow serves the request) differs from the expected one by more than
      the tolerance; so a request served only by flows is never reported. */
  lemma {:induction false} CoverageFindingIff(reference: seq<(Request, real)>, flows: seq<Flow>, err: CoverageError)
    ensures err in CoverageFindings(reference, flows) <==>
      && err.actual == RequestVolume(flows, (err.src, err.dst))
      && Abs(err.actual - err.expected) > Tolerance
      && exists i :: 0 <= i < |reference| && reference[i] == ((err.src, err.dst), err.expected)
  {
    if |reference| > 0 {
      var init := reference[..|reference| - 1];
      CoverageFindingIff(init, flows, err);
      if exists i :: 0 <= i < |init| && init[i] == ((err.src, err.dst), err.expected) {
        var i :| 0 <= i < |init| && init[i] == ((err.src, err.dst), err.expected);
        assert reference[i] == init[i];
      }
      if exists i :: 0 <= i < |reference| && reference[i] == ((err.src, err.dst), err.expected) {
        var i :| 0 <= i < |reference| && reference[i] == ((err.src, err.dst), err.expected);
        if i < |init| {
          assert init[i] == reference[i];
        }
      }
    }
  }

  // ---------------------------------------------------------------------------
  // Network KPIs
  // ---------------------------------------------------------------------------

  /** The sum of `measure` over the legs listed in `order`. */
  function SumLegs(order: seq<Edge>, legs: map<Edge, Leg>, measure: Leg -> real): real
    requires forall e :: e in order ==> e in legs
  {
    if |order| == 0 then 0.0
    else SumLegs(order[..|order| - 1], legs, measure) + measure(legs[order[|order| - 1]])
  }

  /** Distance driven on a leg by all its vehicles. */
  function VehicleDistance(leg: Leg): real { leg.distance * leg.vehicles as real }

  /** Driving time on a leg summed over all its vehicles. */
  function VehicleTime(leg: Leg): real { leg.time * leg.vehicles as real }

  /** The transport cost of a leg. */
  function LegCost(leg: Leg): real { leg.sumCost }

  /** The total number of vehicles of the legs listed in `order`. */
  function TotalVehicles(order: seq<Edge>, legs: map<Edge, Leg>): int
    requires forall e :: e in order ==> e in legs
  {
    if |order| == 0 then 0
    else TotalVehicles(order[..|order| - 1], legs) + legs[order[|order| - 1]].vehicles
  }

  /** Vehicle utilisation in percent: volume over vehicle capacity, capped at 100,
      and 0 when there is no capacity (no vehicles). */
  function Utilization(totalVolume: real, totalVehicles: int, capacity: real): (u: real)
    ensures u <= 100.0
    ensures totalVehicles as real * capacity <= 0.0 ==> u == 0.0
    ensures totalVehicles as real * capacity > 0.0 && totalVolume >= 0.0 ==> u >= 0.0
    ensures totalVehicles as real * capacity > 0.0 && totalVolume >= totalVehicles as real * capacity ==> u == 100.0
    ensures totalVehicles as real * capacity > 0.0 && u < 100.0 ==>
              u * (totalVehicles as real * capacity) == totalVolume * 100.0
    ensures totalVehicles as real * capacity > 0.0 && totalVolume < totalVehicles as real * capacity ==>
              u * (totalVehicles as real * capacity) == totalVolume * 100.0
  {
    var totalCapacity := totalVehicles as real * capacity;
    var ratio := if totalCapacity > 0.0 then Percent(totalVolume, totalCapacity) else 0.0;
    if ratio < 100.0 then ratio else 100.0
  }

  /** `part` as a percentage of `whole`. */
  function Percent(part: real, whole: real): (p: real)
    requires whole > 0.0
    ensures p * whole == part * 100.0
    ensures part >= 0.0 ==> p >= 0.0
    ensures part >= whole ==> p >= 100.0
    ensures part < whole ==> p < 100.0
  {
    var q := part / whole;
    assert q * whole == part;
    assert part >= whole ==> q >= 1.0;
    assert part < whole ==> q < 1.0;
    q * 100.0
  }

  /** Cost per cubic metre: the infinite sentinel exactly when there is no volume;
      otherwise the value that, times the volume, gives the total cost. */
  function CostPerCubicMeter(totalCost: real, totalVolume: real): (c: CostPerVolume)
    ensures c.Infinite? <==> totalVolume <= 0.0
    ensures c.Finite? ==> c.value * totalVolume == totalCost
  {
    if totalVolume > 0.0 then Finite(totalCost / totalVolume) else Infinite
  }

  /** The legs of `order` whose volume is below `limit`, in order. */
  function Underloaded(order: seq<Edge>, legs: map<Edge, Leg>, limit: real): (r: seq<Edge>)
    requires forall e :: e in order ==> e in legs
    ensures |r| <= |order|
  {
    if |order| == 0 then []
    else
      var e := order[|order| - 1];
      Underloaded(order[..|order| - 1], legs, limit) + (if legs[e].sumVolume < limit then [e] else [])
  }

  /** The underloaded legs are exactly the listed legs whose volume is below the limit. */
  lemma {:induction false} UnderloadedMembers(order: seq<Edge>, legs: map<Edge, Leg>, limit: real)
    requires forall e :: e in order ==> e in legs
    ensures forall e :: e in Underloaded(order, legs, limit) <==> e in order && legs[e].sumVolume < limit
  {
    if |order| > 0 {
      var init := order[..|order| - 1];
      UnderloadedMembers(init, legs, limit);
      assert order == init + [order[|order| - 1]];
    }
  }
}
