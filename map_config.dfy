/**
 * The map generator's configuration: the node types and the constant
 * MAP_CONFIG (row-count ranges, rows with a forced type, per-type limits),
 * with the well-formedness conditions the generator relies on.
 */
module MapConfig {

  import opened Wrappers

  /** The node types, in declaration order (the order `Object.values` lists them). */
  datatype NodeType = Enemy | EliteEnemy | Rest | Boss

  const NODE_TYPES: seq<NodeType> := [Enemy, EliteEnemy, Rest, Boss]

  /** Inclusive node-count ranges for the three row classes. */
  datatype NodeCountPerRow = NodeCountPerRow(
    normalRowMin: int, normalRowMax: int,
    firstRowMin: int, firstRowMax: int,
    finalRowMin: int, finalRowMax: int)

  /** The placement limits of one node type. */
  datatype NodeLimit = NodeLimit(maxCount: int, disabledRows: seq<int>, disableConsecutive: bool)

  /** One limit per node type (the source's `Record<NodeType, NodeLimit>`). */
  datatype NodeLimits = NodeLimits(enemy: NodeLimit, eliteEnemy: NodeLimit, rest: NodeLimit, boss: NodeLimit)
  {
    function Of(t: NodeType): NodeLimit {
      match t
      case Enemy => enemy
      case EliteEnemy => eliteEnemy
      case Rest => rest
      case Boss => boss
    }
  }

  /** An entry of `specialRowNodeLimit`: every node of `row` is forced to `nodeType`. */
  datatype FixedRow = FixedRow(row: int, nodeType: NodeType)

  /**
   * `specialRowNodeLimit` is kept as its entries in the order `Object.entries`
   * visits integer keys: ascending.
   */
  datatype Config = Config(
    actCount: int,
    maxRowIndex: int,
    nodeCountPerRow: NodeCountPerRow,
    specialRowNodeLimit: seq<FixedRow>,
    nodeLimit: NodeLimits)

  const MAX_ROW_INDEX: int := 15

  /** JavaScript's Number.MAX_SAFE_INTEGER, 2^53 - 1. */
  const MAX_SAFE_INTEGER: int := 9007199254740991

  const MAP_CONFIG: Config := Config(
    3,
    MAX_ROW_INDEX,
    NodeCountPerRow(1, 6, 2, 4, 1, 1),
    [FixedRow(0, Enemy), FixedRow(MAX_ROW_INDEX - 1, Rest), FixedRow(MAX_ROW_INDEX, Boss)],
    NodeLimits(
      NodeLimit(MAX_SAFE_INTEGER, [], false),
      NodeLimit(5, [0, 1, 2, 3], true),
      NodeLimit(10, [], true),
      NodeLimit(1, [], true)))

  /** The forced type of `row`, if `specialRowNodeLimit` has an entry for it. */
  function FixedTypeOf(fixed: seq<FixedRow>, row: int): (r: Option<NodeType>)
    ensures r.Some? <==> exists k :: 0 <= k < |fixed| && fixed[k].row == row
    ensures r.Some? ==> exists k :: 0 <= k < |fixed| && fixed[k] == FixedRow(row, r.value)
  {
    if fixed == [] then None
    else if fixed[0].row == row then Some(fixed[0].nodeType)
    else
      var r := FixedTypeOf(fixed[1..], row);
      assert forall k :: 0 <= k < |fixed| - 1 ==> fixed[1..][k] == fixed[k + 1];
      r
  }

  predicate IsFixedRow(cfg: Config, row: int) {
    FixedTypeOf(cfg.specialRowNodeLimit, row).Some?
  }

  /** A range the topology stage can draw a node count from: 1 <= min <= max. */
  predicate GoodRange(min: int, max: int) {
    1 <= min <= max
  }

  /**
   * What generation relies on: every row gets at least one node, and the rows
   * with a forced type exist, each listed once, in ascending order.
   */
  predicate WellFormed(cfg: Config) {
    && cfg.actCount >= 0
    && cfg.maxRowIndex >= 0
    && GoodRange(cfg.nodeCountPerRow.firstRowMin, cfg.nodeCountPerRow.firstRowMax)
    && GoodRange(cfg.nodeCountPerRow.normalRowMin, cfg.nodeCountPerRow.normalRowMax)
    && GoodRange(cfg.nodeCountPerRow.finalRowMin, cfg.nodeCountPerRow.finalRowMax)
    && (forall k :: 0 <= k < |cfg.specialRowNodeLimit| ==>
          0 <= cfg.specialRowNodeLimit[k].row <= cfg.maxRowIndex)
    && (forall k, l :: 0 <= k < l < |cfg.specialRowNodeLimit| ==>
          cfg.specialRowNodeLimit[k].row < cfg.specialRowNodeLimit[l].row)
  }

  /** The shipped configuration is well formed. */
  lemma MapConfigWellFormed()
    ensures WellFormed(MAP_CONFIG)
  {
  }

  /** The shipped constants: three acts of sixteen rows; the last row holds exactly one node. */
  lemma MapConfigShape()
    ensures MAP_CONFIG.actCount == 3 && MAP_CONFIG.maxRowIndex == 15
    ensures MAP_CONFIG.nodeCountPerRow.firstRowMin == 2 && MAP_CONFIG.nodeCountPerRow.firstRowMax == 4
    ensures MAP_CONFIG.nodeCountPerRow.normalRowMin == 1 && MAP_CONFIG.nodeCountPerRow.normalRowMax == 6
    ensures MAP_CONFIG.nodeCountPerRow.finalRowMin == 1 == MAP_CONFIG.nodeCountPerRow.finalRowMax
  {
  }

  /** Rows 0, 14 and 15 are forced to Enemy, Rest and Boss; no other row is. */
  lemma MapConfigFixedRows(row: int)
    ensures FixedTypeOf(MAP_CONFIG.specialRowNodeLimit, 0) == Some(Enemy)
    ensures FixedTypeOf(MAP_CONFIG.specialRowNodeLimit, 14) == Some(Rest)
    ensures FixedTypeOf(MAP_CONFIG.specialRowNodeLimit, 15) == Some(Boss)
    ensures row != 0 && row != 14 && row != 15 ==> !IsFixedRow(MAP_CONFIG, row)
  {
    var fixed := MAP_CONFIG.specialRowNodeLimit;
    assert fixed[1..] == [FixedRow(14, Rest), FixedRow(15, Boss)];
    assert fixed[1..][1..] == [FixedRow(15, Boss)];
    assert FixedTypeOf(fixed[1..][1..], 15) == Some(Boss);
    assert FixedTypeOf(fixed[1..], 15) == Some(Boss);
  }

  /** The per-type limits of the shipped configuration. */
  lemma MapConfigLimits()
    ensures MAP_CONFIG.nodeLimit.Of(EliteEnemy) == NodeLimit(5, [0, 1, 2, 3], true)
    ensures MAP_CONFIG.nodeLimit.Of(Rest) == NodeLimit(10, [], true)
    ensures MAP_CONFIG.nodeLimit.Of(Enemy) == NodeLimit(MAX_SAFE_INTEGER, [], false)
    ensures MAP_CONFIG.nodeLimit.Of(Boss) == NodeLimit(1, [], true)
  {
  }
}
