/**
 * The run map's data: nodes, acts and the game map, with the graph held as an
 * arena. Row `r` of an act is `rows[r]`, ordered by column; a node's
 * `prevConnectedNodes` holds column indices into row `r - 1` and its
 * `nextConnectedNodes` column indices into row `r + 1`, so the arena position
 * (row, column) plays the part of the source's node reference.
 */
module MapGraph {

  import opened Wrappers
  import opened MapConfig

  /** The identity the source spells `act_<act>_row_<row>_col_<col>`. */
  datatype NodeId = NodeId(act: int, row: int, col: int)

  /** An opaque tag for the game component `createNodeInstance` builds for a type. */
  datatype NodeInstance = EnemyNodeInstance | EliteEnemyNodeInstance | RestNodeInstance | BossNodeInstance

  function CreateNodeInstance(t: NodeType): NodeInstance {
    match t
    case Enemy => EnemyNodeInstance
    case EliteEnemy => EliteEnemyNodeInstance
    case Rest => RestNodeInstance
    case Boss => BossNodeInstance
  }

  datatype MapNode = MapNode(
    nodeId: NodeId,
    row: int,
    col: int,
    nodeType: NodeType,
    prevConnectedNodes: seq<int>,
    nextConnectedNodes: seq<int>,
    nodeInstance: Option<NodeInstance>)

  type Rows = seq<seq<MapNode>>

  datatype ActMap = ActMap(actId: int, rows: Rows)

  datatype GameMap = GameMap(seed: int, actMaps: seq<ActMap>)

  /** An arena reference to a node. */
  datatype Pos = Pos(row: int, col: int)

  predicate ValidPos(rows: Rows, p: Pos) {
    0 <= p.row < |rows| && 0 <= p.col < |rows[p.row]|
  }

  /** Every row holds at least one node. */
  predicate NonEmptyRows(rows: Rows) {
    forall r :: 0 <= r < |rows| ==> |rows[r]| > 0
  }

  predicate SameSizes(a: Rows, b: Rows) {
    |a| == |b| && forall r :: 0 <= r < |a| ==> |a[r]| == |b[r]|
  }

  /** Each node knows its own position and identity. */
  predicate Laid(rows: Rows, actId: int) {
    forall r, c :: 0 <= r < |rows| && 0 <= c < |rows[r]| ==>
      rows[r][c].row == r && rows[r][c].col == c && rows[r][c].nodeId == NodeId(actId, r, c)
  }

  /** Two nodes agree on everything but their type and instance. */
  predicate SameWiring(a: MapNode, b: MapNode) {
    && a.nodeId == b.nodeId && a.row == b.row && a.col == b.col
    && a.prevConnectedNodes == b.prevConnectedNodes
    && a.nextConnectedNodes == b.nextConnectedNodes
  }

  /** The arenas differ at most in node types and instances. */
  predicate SameGraph(a: Rows, b: Rows) {
    SameSizes(a, b) &&
    forall r, c :: 0 <= r < |a| && 0 <= c < |a[r]| ==> SameWiring(a[r][c], b[r][c])
  }

  // ---------------------------------------------------------------------
  // The edges between row r and row r + 1
  // ---------------------------------------------------------------------

  /** Every index in the lists between an upper row and the row below it names a node of the other row. */
  predicate PairInRange(upper: seq<MapNode>, lower: seq<MapNode>) {
    && (forall c, x :: 0 <= c < |upper| && x in upper[c].nextConnectedNodes ==> 0 <= x < |lower|)
    && (forall x, c :: 0 <= x < |lower| && c in lower[x].prevConnectedNodes ==> 0 <= c < |upper|)
  }

  /** b is a successor of a exactly when a is a predecessor of b. */
  predicate PairMirrored(upper: seq<MapNode>, lower: seq<MapNode>) {
    forall c, x :: 0 <= c < |upper| && 0 <= x < |lower| ==>
      (x in upper[c].nextConnectedNodes <==> c in lower[x].prevConnectedNodes)
  }

  /** No two edges between the rows cross: a left source never reaches further right than a right source. */
  predicate PairNonCrossing(upper: seq<MapNode>) {
    forall a, c, b, d ::
      0 <= a < c < |upper| && b in upper[a].nextConnectedNodes && d in upper[c].nextConnectedNodes ==>
        b <= d
  }

  /** Every node of the upper row has a successor and every node of the lower row a predecessor. */
  predicate PairCovered(upper: seq<MapNode>, lower: seq<MapNode>) {
    && (forall c :: 0 <= c < |upper| ==> |upper[c].nextConnectedNodes| > 0)
    && (forall x :: 0 <= x < |lower| ==> |lower[x].prevConnectedNodes| > 0)
  }

  /** Rows r and r + 1 are wired as the path generator promises. */
  predicate PairOk(rows: Rows, r: int)
    requires 0 <= r && r + 1 < |rows|
  {
    && PairInRange(rows[r], rows[r + 1])
    && PairMirrored(rows[r], rows[r + 1])
    && PairNonCrossing(rows[r])
    && PairCovered(rows[r], rows[r + 1])
  }

  predicate NoPrev(row: seq<MapNode>) {
    forall c :: 0 <= c < |row| ==> row[c].prevConnectedNodes == []
  }

  predicate NoNext(row: seq<MapNode>) {
    forall c :: 0 <= c < |row| ==> row[c].nextConnectedNodes == []
  }

  /** The whole act is wired: every adjacent pair is, and nothing points above row 0 or below the last row. */
  predicate Connected(rows: Rows) {
    && |rows| > 0
    && NoPrev(rows[0])
    && NoNext(rows[|rows| - 1])
    && (forall r :: 0 <= r < |rows| - 1 ==> PairOk(rows, r))
  }

  /** Retyping nodes leaves the wiring, and with it every wiring property, as it was. */
  lemma SameGraphConnected(a: Rows, b: Rows)
    requires SameGraph(a, b) && Connected(a)
    ensures Connected(b)
  {
    assert |b| > 0;
    forall r | 0 <= r < |b| - 1
      ensures PairOk(b, r)
    {
      assert PairOk(a, r);
    }
  }

  lemma SameGraphLaid(a: Rows, b: Rows, actId: int)
    requires SameGraph(a, b) && Laid(a, actId)
    ensures Laid(b, actId)
  {
  }

  // ---------------------------------------------------------------------
  // Counting nodes by type
  // ---------------------------------------------------------------------

  function CountInRow(row: seq<MapNode>, t: NodeType): (n: nat)
    ensures n <= |row|
  {
    if row == [] then 0
    else CountInRow(row[..|row| - 1], t) + (if row[|row| - 1].nodeType == t then 1 else 0)
  }

  /** The number of nodes of type t in the act (the source counts the flattened rows). */
  function CountType(rows: Rows, t: NodeType): nat {
    if rows == [] then 0 else CountType(rows[..|rows| - 1], t) + CountInRow(rows[|rows| - 1], t)
  }

  function TotalNodes(rows: Rows): nat {
    if rows == [] then 0 else TotalNodes(rows[..|rows| - 1]) + |rows[|rows| - 1]|
  }

  /** Every node has exactly one of the four types. */
  lemma {:induction false} RowTypesPartition(row: seq<MapNode>)
    ensures CountInRow(row, Enemy) + CountInRow(row, EliteEnemy) + CountInRow(row, Rest) + CountInRow(row, Boss) == |row|
  {
    if row != [] {
      RowTypesPartition(row[..|row| - 1]);
    }
  }

  lemma {:induction false} TypesPartition(rows: Rows)
    ensures CountType(rows, Enemy) + CountType(rows, EliteEnemy) + CountType(rows, Rest) + CountType(rows, Boss)
         == TotalNodes(rows)
  {
    if rows != [] {
      TypesPartition(rows[..|rows| - 1]);
      RowTypesPartition(rows[|rows| - 1]);
    }
  }

  /** Replacing one node changes the row's count by what the two types contribute. */
  lemma {:induction false} CountInRowUpdate(row: seq<MapNode>, c: int, n: MapNode, t: NodeType)
    requires 0 <= c < |row|
    ensures CountInRow(row[c := n], t)
         == CountInRow(row, t) - (if row[c].nodeType == t then 1 else 0) + (if n.nodeType == t then 1 else 0)
  {
    var last := |row| - 1;
    if c < last {
      assert row[c := n][..last] == row[..last][c := n];
      CountInRowUpdate(row[..last], c, n, t);
    } else {
      assert row[c := n][..last] == row[..last];
    }
  }

  /** Replacing one row changes the act's count by what the two rows contribute. */
  lemma {:induction false} CountTypeUpdate(rows: Rows, r: int, row: seq<MapNode>, t: NodeType)
    requires 0 <= r < |rows|
    ensures CountType(rows[r := row], t) == CountType(rows, t) - CountInRow(rows[r], t) + CountInRow(row, t)
  {
    var last := |rows| - 1;
    if r < last {
      assert rows[r := row][..last] == rows[..last][r := row];
      CountTypeUpdate(rows[..last], r, row, t);
    } else {
      assert rows[r := row][..last] == rows[..last];
    }
  }

  /** A row whose nodes all have one type counts all its nodes for that type and none for any other. */
  lemma {:induction false} CountInUniformRow(row: seq<MapNode>, u: NodeType, t: NodeType)
    requires forall c :: 0 <= c < |row| ==> row[c].nodeType == u
    ensures CountInRow(row, t) == if t == u then |row| else 0
  {
    if row != [] {
      CountInUniformRow(row[..|row| - 1], u, t);
    }
  }

  lemma {:induction false} CountInRowSameTypes(a: seq<MapNode>, b: seq<MapNode>, t: NodeType)
    requires |a| == |b| && forall c :: 0 <= c < |a| ==> a[c].nodeType == b[c].nodeType
    ensures CountInRow(a, t) == CountInRow(b, t)
  {
    if a != [] {
      CountInRowSameTypes(a[..|a| - 1], b[..|b| - 1], t);
    }
  }

  /** In an act whose nodes are all of one type, that type counts every node. */
  lemma {:induction false} CountTypeUniform(rows: Rows, u: NodeType, t: NodeType)
    requires forall r, c :: 0 <= r < |rows| && 0 <= c < |rows[r]| ==> rows[r][c].nodeType == u
    ensures CountType(rows, t) == if t == u then TotalNodes(rows) else 0
  {
    if rows != [] {
      CountTypeUniform(rows[..|rows| - 1], u, t);
      CountInUniformRow(rows[|rows| - 1], u, t);
    }
  }

  /** A row with no node of type t counts none. */
  lemma {:induction false} CountInRowNone(row: seq<MapNode>, t: NodeType)
    requires forall c :: 0 <= c < |row| ==> row[c].nodeType != t
    ensures CountInRow(row, t) == 0
  {
    if row != [] {
      CountInRowNone(row[..|row| - 1], t);
    }
  }

  /** Acts whose rows count t alike count t alike. */
  lemma {:induction false} CountTypeRowwise(a: Rows, b: Rows, t: NodeType)
    requires |a| == |b| && forall r :: 0 <= r < |a| ==> CountInRow(a[r], t) == CountInRow(b[r], t)
    ensures CountType(a, t) == CountType(b, t)
  {
    if a != [] {
      CountTypeRowwise(a[..|a| - 1], b[..|b| - 1], t);
    }
  }

  /** When only row r can hold nodes of type t, the act's count of t is that row's. */
  lemma {:induction false} CountTypeAt(rows: Rows, t: NodeType, r: int)
    requires 0 <= r < |rows|
    requires forall q :: 0 <= q < |rows| && q != r ==> CountInRow(rows[q], t) == 0
    ensures CountType(rows, t) == CountInRow(rows[r], t)
  {
    var last := |rows| - 1;
    if r < last {
      CountTypeAt(rows[..last], t, r);
    } else {
      CountTypeNone(rows[..last], t);
    }
  }

  /** An act none of whose rows holds type t counts none. */
  lemma {:induction false} CountTypeNone(rows: Rows, t: NodeType)
    requires forall q :: 0 <= q < |rows| ==> CountInRow(rows[q], t) == 0
    ensures CountType(rows, t) == 0
  {
    if rows != [] {
      CountTypeNone(rows[..|rows| - 1], t);
    }
  }
}
