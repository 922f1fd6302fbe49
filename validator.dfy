/** The flat-path solution format: each row gives src, dst, volume and a node
    list. Every row whose node list parses becomes a structured flow whose legs
    pair consecutive nodes; a row whose node list fails to parse is dropped (the
    error is logged) and the remaining rows are still converted. */
module Validator {
  import opened Types
  import opened ExternalFormat

  /** A row of the flat-path table; `pathNodes` is None when the node list text does not parse. */
  datatype CsvRow = CsvRow(src: NodeId, dst: NodeId, volume: real, pathNodes: Option<seq<NodeId>>)

  /** The structured flow of a row whose node list parsed to `nodes`. */
  function RowToFlow(row: CsvRow, nodes: seq<NodeId>): ExternalFlow
  {
    ExternalFlow(row.src, row.dst, row.volume, LegsOfPath(nodes))
  }

  /** The structured flows of a table: one per parsable row, in row order. */
  function ConvertRows(rows: seq<CsvRow>): seq<ExternalFlow>
  {
    if |rows| == 0 then []
    else
      var row := rows[|rows| - 1];
      ConvertRows(rows[..|rows| - 1]) + (if row.pathNodes.Some? then [RowToFlow(row, row.pathNodes.value)] else [])
  }

  /** Converts the rows of the flat-path table, skipping rows whose path does not parse. */
  method LoadSolutionRows(rows: seq<CsvRow>) returns (flows: seq<ExternalFlow>)
    ensures flows == ConvertRows(rows)
    ensures |flows| <= |rows|
  {
    flows := [];
    var i := 0;
    while i < |rows|
      invariant 0 <= i <= |rows|
      invariant flows == ConvertRows(rows[..i])
      invariant |flows| <= i
    {
      var row := rows[i];
      assert rows[..i + 1][..i] == rows[..i];
      match row.pathNodes {
        case None =>
          // the parse error is logged and the conversion goes on with the next row
        case Some(nodes) =>
          var legs := LegsOfPath(nodes);
          flows := flows + [ExternalFlow(row.src, row.dst, row.volume, legs)];
      }
      i := i + 1;
    }
    assert rows[..i] == rows;
  }

  /** Surviving rows keep their order: converting a split table is converting each part. */
  lemma {:induction false} ConvertRowsAppend(a: seq<CsvRow>, b: seq<CsvRow>)
    ensures ConvertRows(a + b) == ConvertRows(a) + ConvertRows(b)
  {
    if |b| > 0 {
      assert (a + b)[..|a + b| - 1] == a + b[..|b| - 1];
      ConvertRowsAppend(a, b[..|b| - 1]);
    } else {
      assert a + b == a;
    }
  }

  /** Every converted flow comes from a parsable row, with src, dst and volume copied
      unchanged and one leg per consecutive node pair. */
  lemma {:induction false} ConvertedFlowFromRow(rows: seq<CsvRow>, j: nat)
    requires j < |ConvertRows(rows)|
    ensures exists i :: (0 <= i < |rows| && rows[i].pathNodes.Some? &&
      ConvertRows(rows)[j] == ExternalFlow(rows[i].src, rows[i].dst, rows[i].volume, LegsOfPath(rows[i].pathNodes.value)))
  {
    var init := rows[..|rows| - 1];
    if j < |ConvertRows(init)| {
      ConvertedFlowFromRow(init, j);
      var i :| 0 <= i < |init| && init[i].pathNodes.Some? &&
        ConvertRows(init)[j] == ExternalFlow(init[i].src, init[i].dst, init[i].volume, LegsOfPath(init[i].pathNodes.value));
      assert rows[i] == init[i];
    }
  }

  /** When every row parses, no row is dropped and flow i is row i converted. */
  lemma {:induction false} ConvertRowsAllParsed(rows: seq<CsvRow>)
    requires forall i :: 0 <= i < |rows| ==> rows[i].pathNodes.Some?
    ensures |ConvertRows(rows)| == |rows|
    ensures forall i :: 0 <= i < |rows| ==>
      ConvertRows(rows)[i] == ExternalFlow(rows[i].src, rows[i].dst, rows[i].volume, LegsOfPath(rows[i].pathNodes.value))
  {
    if |rows| > 0 {
      var init := rows[..|rows| - 1];
      ConvertRowsAllParsed(init);
      forall i | 0 <= i < |rows|
        ensures ConvertRows(rows)[i] == ExternalFlow(rows[i].src, rows[i].dst, rows[i].volume, LegsOfPath(rows[i].pathNodes.value))
      {
        if i < |init| {
          assert rows[i] == init[i];
        }
      }
    }
  }
}
