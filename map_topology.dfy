/**
 * Stage 1 of act generation: the row/column skeleton. Row r gets a node count
 * drawn from the range of its row class, and that many fresh nodes of the
 * default type, unconnected, without an instance.
 */
module MapTopology {

  import opened Wrappers
  import opened SeedRandom
  import opened MapConfig
  import opened MapGraph

  /** The count range of a row: row 0 is the first row, row maxRowIndex the final one, the rest are normal. */
  function RowRange(cfg: Config, row: int): (int, int) {
    var n := cfg.nodeCountPerRow;
    if row == 0 then (n.firstRowMin, n.firstRowMax)
    else if row == cfg.maxRowIndex then (n.finalRowMin, n.finalRowMax)
    else (n.normalRowMin, n.normalRowMax)
  }

  /** The node count `nextInt` draws for `row` from state s. */
  function RowCount(cfg: Config, row: int, s: int): int
    requires IsState(s)
  {
    DrawInt(s, RowRange(cfg, row).0, RowRange(cfg, row).1)
  }

  /** A node as the topology stage creates it. */
  function NewNode(actId: int, row: int, col: int): MapNode {
    MapNode(NodeId(actId, row, col), row, col, Enemy, [], [], None)
  }

  /** The nodes the `col < nodeCount` loop creates (none for a count below one). */
  function NewRow(actId: int, row: int, count: int): seq<MapNode> {
    seq(if count > 0 then count else 0, col => NewNode(actId, row, col))
  }

  /**
   * The rows the topology stage appends from row `row` on, from state s, and
   * the state it leaves: one draw per row, in row order.
   */
  function Topology(cfg: Config, actId: int, row: int, s: int): (res: (Rows, int))
    requires IsState(s)
    ensures IsState(res.1)
    decreases cfg.maxRowIndex + 1 - row
  {
    if row > cfg.maxRowIndex then ([], s)
    else
      var (rest, t) := Topology(cfg, actId, row + 1, Step(s));
      ([NewRow(actId, row, RowCount(cfg, row, s))] + rest, t)
  }

  /** Row row + i of the rows from `row` on gets its size from the state after i draws; one draw per row. */
  lemma {:induction false} TopologyClosedForm(cfg: Config, actId: int, row: int, s: int)
    requires IsState(s) && 0 <= row <= cfg.maxRowIndex + 1
    ensures |Topology(cfg, actId, row, s).0| == cfg.maxRowIndex + 1 - row
    ensures forall i :: 0 <= i < cfg.maxRowIndex + 1 - row ==>
      Topology(cfg, actId, row, s).0[i] == NewRow(actId, row + i, RowCount(cfg, row + i, Advance(s, i)))
    ensures Topology(cfg, actId, row, s).1 == Advance(s, cfg.maxRowIndex + 1 - row)
    decreases cfg.maxRowIndex + 1 - row
  {
    if row <= cfg.maxRowIndex {
      TopologyClosedForm(cfg, actId, row + 1, Step(s));
      var (rest, t) := Topology(cfg, actId, row + 1, Step(s));
      var rows := Topology(cfg, actId, row, s).0;
      assert rows == [NewRow(actId, row, RowCount(cfg, row, s))] + rest;
      forall i | 0 < i < |rows|
        ensures rows[i] == NewRow(actId, row + i, RowCount(cfg, row + i, Advance(s, i)))
      {
        assert rows[i] == rest[i - 1];
        AdvanceStepFirst(s, i - 1);
      }
      AdvanceStepFirst(s, cfg.maxRowIndex - row);
    }
  }

  /** Nodes exactly as created: default type, no connections, no instance. */
  predicate Fresh(rows: Rows) {
    forall r, c :: 0 <= r < |rows| && 0 <= c < |rows[r]| ==>
      && rows[r][c].nodeType == Enemy
      && rows[r][c].prevConnectedNodes == []
      && rows[r][c].nextConnectedNodes == []
      && rows[r][c].nodeInstance == None
  }

  /**
   * The topology stage yields maxRowIndex + 1 rows; each row's size lies in
   * the range of its class and is the value drawn for it; every node is
   * fresh and placed at its own (row, column); exactly one draw per row.
   */
  lemma TopologyShape(cfg: Config, actId: int, s: int)
    requires IsState(s) && WellFormed(cfg)
    ensures var (rows, s') := Topology(cfg, actId, 0, s);
      && |rows| == cfg.maxRowIndex + 1
      && (forall r :: 0 <= r < |rows| ==>
            && |rows[r]| == RowCount(cfg, r, Advance(s, r))
            && RowRange(cfg, r).0 <= |rows[r]| <= RowRange(cfg, r).1)
      && Laid(rows, actId)
      && Fresh(rows)
      && s' == Advance(s, cfg.maxRowIndex + 1)
  {
    TopologyClosedForm(cfg, actId, 0, s);
    var rows := Topology(cfg, actId, 0, s).0;
    forall r | 0 <= r < |rows|
      ensures |rows[r]| == RowCount(cfg, r, Advance(s, r))
      ensures RowRange(cfg, r).0 <= |rows[r]| <= RowRange(cfg, r).1
    {
      ScaleInRange(Step(Advance(s, r)), RowRange(cfg, r).0, RowRange(cfg, r).1);
    }
  }

  /** The part of TopologyShape the wiring stage needs: the right number of rows, none empty. */
  lemma TopologyNonEmpty(cfg: Config, actId: int, s: int)
    requires IsState(s) && WellFormed(cfg)
    ensures |Topology(cfg, actId, 0, s).0| == cfg.maxRowIndex + 1
    ensures NonEmptyRows(Topology(cfg, actId, 0, s).0)
  {
    TopologyShape(cfg, actId, s);
    var rows := Topology(cfg, actId, 0, s).0;
    forall r | 0 <= r < |rows|
      ensures |rows[r]| > 0
    {
      assert RowRange(cfg, r).0 <= |rows[r]|;
    }
  }

  /** Under the shipped configuration the first row holds 2 to 4 nodes, the last exactly one, the others 1 to 6. */
  lemma ShippedTopologySizes(actId: int, s: int)
    requires IsState(s)
    ensures var rows := Topology(MAP_CONFIG, actId, 0, s).0;
      && |rows| == 16
      && 2 <= |rows[0]| <= 4
      && |rows[15]| == 1
      && forall r :: 1 <= r < 15 ==> 1 <= |rows[r]| <= 6
  {
    MapConfigWellFormed();
    TopologyShape(MAP_CONFIG, actId, s);
  }
}
