/**
 * The map manager object: it owns the run map and the seeded generator, and
 * builds the acts with loops that update rows, counters and the generator
 * step by step. Every method is proved to compute exactly what the
 * corresponding specification function of the other modules describes, so
 * the properties proved there hold of what the methods produce.
 *
 * Nodes live in an arena (`Rows`); where the source mutates a node object
 * reachable from two places, a method here returns the updated rows.
 */
module MapManager {

  import opened Wrappers
  import opened SeedRandom
  import opened MapConfig
  import opened MapGraph
  import opened MapTopology
  import opened MapSplit
  import opened MapPaths
  import opened MapNodeTypes
  import opened MapGeneration

  class MapManager {
    var gameMap: GameMap
    /** Unset until the first `initMap` (the source declares it with `!`). */
    var random: SeededRandom?

    ghost predicate Valid()
      reads this, random
    {
      random != null && random.Valid()
    }

    /** `new MapManager(seed?)`: an empty map, then `initMap(seed || 12345)`. */
    constructor (seed: Option<int>)
      ensures Valid() && gameMap == InitialMap(MAP_CONFIG, ConstructorSeed(seed))
    {
      gameMap := GameMap(0, []);
      random := null;
      new;
      var _ := InitMap(ConstructorSeed(seed));
    }

    /**
     * `initMap(seed)`: store the seed, start a fresh generator, clear the acts
     * and generate acts 1 .. actCount in order, appending each.
     */
    method InitMap(seed: int) returns (actMaps: seq<ActMap>)
      modifies this
      ensures Valid() && fresh(random)
      ensures gameMap == InitialMap(MAP_CONFIG, seed) && actMaps == gameMap.actMaps
    {
      MapConfigWellFormed();
      gameMap := gameMap.(seed := seed);
      random := new SeededRandom(seed);
      gameMap := gameMap.(actMaps := []);
      var actId := 1;
      ghost var all := GenerateActs(MAP_CONFIG, 1, MAP_CONFIG.actCount, InitialState(seed));
      ghost var left := MAP_CONFIG.actCount;
      while actId <= MAP_CONFIG.actCount
        invariant 1 <= actId <= MAP_CONFIG.actCount + 1 && left == MAP_CONFIG.actCount - actId + 1
        invariant Valid() && fresh(random) && gameMap.seed == seed
        invariant gameMap.actMaps + GenerateActs(MAP_CONFIG, actId, left, random.seed) == all
      {
        GenerateActsStep(MAP_CONFIG, actId, left, random.seed, gameMap.actMaps, all);
        var actMap := GenerateSingleAct(actId);
        if actMap.None? {
          break;
        }
        gameMap := gameMap.(actMaps := gameMap.actMaps + [actMap.value]);
        actId, left := actId + 1, left - 1;
      }
      actMaps := gameMap.actMaps;
    }

    /** `generateSingleAct(actId)`: topology, then paths, then node types. */
    method GenerateSingleAct(actId: int) returns (actMap: Option<ActMap>)
      requires Valid()
      modifies random
      ensures Valid()
      ensures var spec := GenerateAct(MAP_CONFIG, actId, old(random.seed));
        && (actMap.Some? <==> spec.Some?)
        && (actMap.Some? ==> actMap.value == spec.value.0 && random.seed == spec.value.1)
    {
      MapConfigWellFormed();
      ghost var s0 := random.seed;
      var rows := GenerateTopologyNodes(actId);
      TopologyShape(MAP_CONFIG, actId, s0);
      var wired, ok := GenerateValidPaths(rows);
      if !ok {
        return None;
      }
      var typed, _ := AssignNodeTypes(wired);
      actMap := Some(ActMap(actId, typed));
    }

    /** `generateTopologyNodes`: one row per index, each of nodeCount fresh nodes, nodeCount drawn from the row's range. */
    method GenerateTopologyNodes(actId: int) returns (rows: Rows)
      requires Valid()
      modifies random
      ensures Valid()
      ensures (rows, random.seed) == Topology(MAP_CONFIG, actId, 0, old(random.seed))
    {
      rows := TopologyRows(MAP_CONFIG, actId);
    }

    /** The loop of `generateTopologyNodes`, over the row ranges of `cfg`. */
    method TopologyRows(cfg: Config, actId: int) returns (rows: Rows)
      requires Valid()
      modifies random
      ensures Valid()
      ensures (rows, random.seed) == Topology(cfg, actId, 0, old(random.seed))
    {
      ghost var goal := Topology(cfg, actId, 0, random.seed);
      var maxRowIndex := cfg.maxRowIndex;
      rows := [];
      var row := 0;
      while row <= maxRowIndex
        invariant 0 <= row
        invariant Valid()
        invariant rows + Topology(cfg, actId, row, random.seed).0 == goal.0
        invariant Topology(cfg, actId, row, random.seed).1 == goal.1
      {
        ghost var s := random.seed;
        var nodeCount := DrawRowCount(cfg, row);
        var currentRow: seq<MapNode>;
        currentRow := CreateRowNodes(actId, row, nodeCount);
        ghost var rest := Topology(cfg, actId, row + 1, random.seed).0;
        assert Topology(cfg, actId, row, s).0 == [currentRow] + rest;
        assert rows + ([currentRow] + rest) == (rows + [currentRow]) + rest;
        rows := rows + [currentRow];
        row := row + 1;
      }
      assert rows == rows + Topology(cfg, actId, row, random.seed).0;
    }

    /** The node count of one row of `generateTopologyNodes`: first, final and other rows draw from their own ranges. */
    method DrawRowCount(cfg: Config, row: int) returns (nodeCount: int)
      requires Valid()
      modifies random
      ensures Valid() && random.seed == Step(old(random.seed))
      ensures nodeCount == RowCount(cfg, row, old(random.seed))
    {
      var nodeCountPerRow := cfg.nodeCountPerRow;
      if row == 0 {
        nodeCount := random.NextInt(nodeCountPerRow.firstRowMin, nodeCountPerRow.firstRowMax);
      } else if row == cfg.maxRowIndex {
        nodeCount := random.NextInt(nodeCountPerRow.finalRowMin, nodeCountPerRow.finalRowMax);
      } else {
        nodeCount := random.NextInt(nodeCountPerRow.normalRowMin, nodeCountPerRow.normalRowMax);
      }
    }

    /** The inner loop of `generateTopologyNodes`: nodes (row, 0) .. (row, nodeCount - 1), fresh. */
    static method CreateRowNodes(actId: int, row: int, nodeCount: int) returns (currentRow: seq<MapNode>)
      ensures currentRow == NewRow(actId, row, nodeCount)
    {
      currentRow := [];
      var col := 0;
      while col < nodeCount
        invariant 0 <= col && (col <= nodeCount || col == 0) && |currentRow| == col
        invariant forall c :: 0 <= c < col ==> currentRow[c] == NewNode(actId, row, c)
      {
        var node := MapNode(NodeId(actId, row, col), row, col, Enemy, [], [], None);
        currentRow := currentRow + [node];
        col := col + 1;
      }
    }

    /** `generateValidPaths`: wire rows (0, 1), (1, 2), ... in order. */
    method GenerateValidPaths(rows: Rows) returns (rows': Rows, ok: bool)
      requires Valid() && NonEmptyRows(rows)
      modifies random
      ensures Valid()
      ensures var spec := ConnectFrom(rows, 0, old(random.seed));
        && (ok <==> spec.Some?)
        && (ok ==> (rows', random.seed) == spec.value)
    {
      rows' := rows;
      var row: nat := 0;
      while row + 1 < |rows'|
        invariant Valid() && SameSizes(rows', rows) && NonEmptyRows(rows')
        invariant ConnectFrom(rows', row, random.seed) == ConnectFrom(rows, 0, old(random.seed))
        decreases |rows'| - row
      {
        var currentRow, nextRow := rows'[row], rows'[row + 1];
        var current', next', pairOk := GenerateValidPathForTwoRows(currentRow, nextRow, false);
        if !pairOk {
          return rows', false;
        }
        rows' := rows'[row := current'][row + 1 := next'];
        row := row + 1;
      }
      ok := true;
    }

    /** `generateValidPathForTwoRows`; see WireRows. */
    method GenerateValidPathForTwoRows(currentRow: seq<MapNode>, nextRow: seq<MapNode>, reverse: bool)
      returns (current': seq<MapNode>, next': seq<MapNode>, ok: bool)
      requires Valid() && |currentRow| > 0 && |nextRow| > 0
      modifies random
      ensures Valid()
      ensures var spec := WireRows(currentRow, nextRow, reverse, old(random.seed));
        && (ok <==> spec.Some?)
        && (ok ==> (current', next', random.seed) == spec.value)
      decreases if |currentRow| > |nextRow| then 1 else 0
    {
      if |currentRow| > |nextRow| {
        var next'', current'', ok' := GenerateValidPathForTwoRows(nextRow, currentRow, true);
        return current'', next'', ok';
      }
      ghost var s0 := random.seed;
      var k := |currentRow|;
      var splitNextRows := SplitArray(Range(0, |nextRow|), k);
      if splitNextRows.None? {
        return currentRow, nextRow, false;
      }
      ghost var full, s1 := SplitBounds(|nextRow|, k, s0).value.0, SplitBounds(|nextRow|, k, s0).value.1;
      assert |Range(0, |nextRow|)| == |nextRow|;
      SplitBoundsValid(|nextRow|, k, s0);
      ChunksOfRange(|nextRow|, full);
      assert full[k] == |nextRow|;
      current', next' := LinkChunks(currentRow, nextRow, splitNextRows.value, reverse, full, s1);
      ok := true;
    }

    /**
     * The loop of `generateValidPathForTwoRows`: small node i is linked to
     * every node of chunk i and, on a coin flip, to the first node of chunk
     * i + 1; each link is pushed onto both nodes' lists.
     */
    method LinkChunks(currentRow: seq<MapNode>, nextRow: seq<MapNode>, splitNextRows: seq<seq<int>>, reverse: bool,
                      ghost full: seq<int>, ghost s1: int)
      returns (current': seq<MapNode>, next': seq<MapNode>)
      requires Valid() && random.seed == s1
      requires |currentRow| > 0 && ChunkPlan(splitNextRows, full, |currentRow|, |nextRow|)
      modifies random
      ensures Valid()
      ensures var k := |currentRow|; var coins := Coins(s1, k - 1);
        && current' == SmallSide(currentRow, full, coins, !reverse)
        && next' == LargeSide(nextRow, full, coins, k, reverse)
        && random.seed == Advance(s1, k - 1)
    {
      var k := |currentRow|;
      ghost var coins := Coins(s1, k - 1);
      LargeSideStart(nextRow, full, coins, reverse);
      current', next' := currentRow, nextRow;
      var i := 0;
      while i < |splitNextRows|
        invariant 0 <= i <= k
        invariant Valid() && random.seed == Advance(s1, if i < k then i else k - 1)
        invariant RoundsDone(currentRow, nextRow, full, coins, reverse, i, current', next')
      {
        current', next' := LinkRound(currentRow, nextRow, splitNextRows, reverse, full, coins, s1, i, current', next');
        i := i + 1;
      }
      assert current' == SmallSide(currentRow, full, coins, !reverse);
    }

    /**
     * Round i of that loop: small node i gets chunk i, the coin flip may add
     * the first node of chunk i + 1, and the larger row's lists follow.
     */
    method LinkRound(currentRow: seq<MapNode>, nextRow: seq<MapNode>, splitNextRows: seq<seq<int>>, reverse: bool,
                     ghost full: seq<int>, ghost coins: seq<bool>, ghost s1: int, i: int, current: seq<MapNode>, next: seq<MapNode>)
      returns (current': seq<MapNode>, next': seq<MapNode>)
      requires Valid() && IsState(s1) && ChunkPlan(splitNextRows, full, |currentRow|, |nextRow|)
      requires 0 <= i < |currentRow| && random.seed == Advance(s1, i)
      requires |coins| == |currentRow| - 1 && (i < |coins| ==> coins[i] == (DrawInt(Advance(s1, i), 0, 1) == 0))
      requires RoundsDone(currentRow, nextRow, full, coins, reverse, i, current, next)
      modifies random
      ensures Valid()
      ensures random.seed == Advance(s1, if i + 1 < |currentRow| then i + 1 else |currentRow| - 1)
      ensures RoundsDone(currentRow, nextRow, full, coins, reverse, i + 1, current', next')
    {
      var k := |currentRow|;
      var lastSplit := if i + 1 < |splitNextRows| then splitNextRows[i + 1] else [];
      var node := Attach(current[i], splitNextRows[i], !reverse);
      assert full[i] < full[i + 1] <= full[k] by {
        assert StrictlyIncreasing(full);
      }
      next' := LinkChunk(next, splitNextRows[i], i, reverse, full[i], full[i + 1]);
      ghost var mid := next';
      if i + 1 < k {
        assert lastSplit[0] == full[i + 1] && full[i + 1] < |nextRow| by {
          assert lastSplit == Range(full[i + 1], full[i + 2]);
          assert StrictlyIncreasing(full);
        }
      }
      ghost var t := random.seed;
      var extra;
      node, next', extra := LinkNextHead(node, next', lastSplit, i, reverse);
      current' := current[i := node];
      assert random.seed == Advance(s1, if i + 1 < k then i + 1 else k - 1) by {
        if i + 1 < k {
          assert Advance(s1, i + 1) == Step(t);
        }
      }
      assert extra <==> i + 1 < k && i < |coins| && coins[i] by {
        if i + 1 < k {
          assert lastSplit == Range(full[i + 1], full[i + 2]);
          assert full[i + 1] < full[i + 2] by {
            assert StrictlyIncreasing(full);
          }
        }
      }
      SmallSideRound(currentRow, full, coins, !reverse, i, extra, current, node, current');
      LargeSideStep(nextRow, full, coins, k, reverse, i, extra, next, mid, next');
    }

    /**
     * The coin flip of `generateValidPathForTwoRows`: when a next chunk exists,
     * a true pick links small node i to that chunk's first node as well.
     */
    method LinkNextHead(node: MapNode, next: seq<MapNode>, lastSplit: seq<int>, i: int, reverse: bool)
      returns (node': MapNode, next': seq<MapNode>, extra: bool)
      requires Valid()
      requires |lastSplit| > 0 ==> 0 <= lastSplit[0] < |next|
      modifies random
      ensures Valid()
      ensures random.seed == if |lastSplit| > 0 then Step(old(random.seed)) else old(random.seed)
      ensures extra <==> |lastSplit| > 0 && DrawInt(old(random.seed), 0, 1) == 0
      ensures node' == if extra then Attach(node, [lastSplit[0]], !reverse) else node
      ensures next' == if extra then next[lastSplit[0] := Attach(next[lastSplit[0]], [i], reverse)] else next
    {
      node', next', extra := node, next, false;
      if |lastSplit| > 0 {
        var coin := random.Pick([true, false]);
        if coin {
          var x := lastSplit[0];
          node' := Attach(node, [x], !reverse);
          next' := next[x := Attach(next[x], [i], reverse)];
          extra := true;
        }
      }
    }

    /** The inner loop of `generateValidPathForTwoRows`: every node of one chunk of the larger row gets the chunk's small node as a link. */
    static method LinkChunk(next: seq<MapNode>, chunk: seq<int>, i: int, reverse: bool, ghost lo: int, ghost hi: int)
      returns (next': seq<MapNode>)
      requires 0 <= lo <= hi <= |next| && chunk == Range(lo, hi)
      ensures |next'| == |next|
      ensures forall x :: 0 <= x < |next| ==> next'[x] == if lo <= x < hi then Attach(next[x], [i], reverse) else next[x]
    {
      next' := next;
      var j := 0;
      while j < |chunk|
        invariant 0 <= j <= hi - lo && |next'| == |next|
        invariant forall x :: 0 <= x < |next| ==> next'[x] == if lo <= x < lo + j then Attach(next[x], [i], reverse) else next[x]
      {
        var x := chunk[j];
        next' := next'[x := Attach(next'[x], [i], reverse)];
        j := j + 1;
      }
    }

    /**
     * `splitArray(arr, count)`: draw distinct split points in [1, len - 1]
     * until there are count - 1, sort them, and slice between neighbouring
     * boundaries. The draws stop after SPLIT_DRAW_LIMIT (None).
     */
    method SplitArray<T>(arr: seq<T>, count: int) returns (res: Option<seq<seq<T>>>)
      requires Valid()
      modifies random
      ensures Valid()
      ensures var spec := SplitArraySpec(arr, count, old(random.seed));
        && (res.Some? <==> spec.Some?)
        && (res.Some? ==> res.value == spec.value.0 && random.seed == spec.value.1)
    {
      var drawn := DrawSplitPositions(|arr|, count, SPLIT_DRAW_LIMIT);
      if drawn.None? {
        return None;
      }
      var splitPoints := SortAsc(drawn.value);
      var fullSplitPoints := [0] + splitPoints + [|arr|];
      var chunks := SliceChunks(arr, fullSplitPoints);
      res := Some(chunks);
    }

    /**
     * The drawing loop of `splitArray`: distinct positions in 1 .. len - 1
     * until count - 1 are held (None once `limit` draws have been made).
     */
    method DrawSplitPositions(len: int, count: int, limit: nat) returns (points: Option<seq<int>>)
      requires Valid()
      modifies random
      ensures Valid()
      ensures var d := DrawSplitPoints(old(random.seed), count, len, [], limit);
        && (points.Some? <==> d.Some?)
        && (points.Some? ==> points.value == d.value.0 && random.seed == d.value.1)
    {
      ghost var goal := DrawSplitPoints(random.seed, count, len, [], limit);
      var splitPoints: seq<int> := [];
      var left := limit;
      while |splitPoints| < count - 1
        invariant Valid()
        invariant DrawSplitPoints(random.seed, count, len, splitPoints, left) == goal
        decreases left
      {
        if left == 0 {
          return None;
        }
        var randomPos := random.NextInt(1, len - 1);
        if randomPos !in splitPoints {
          splitPoints := splitPoints + [randomPos];
        }
        left := left - 1;
      }
      points := Some(splitPoints);
    }

    /** The slicing loop of `splitArray`: one `slice` between each pair of neighbouring split points. */
    static method SliceChunks<T>(arr: seq<T>, fullSplitPoints: seq<int>) returns (chunks: seq<seq<T>>)
      requires |fullSplitPoints| > 0
      ensures chunks == Chunks(arr, fullSplitPoints)
    {
      chunks := [];
      var i := 0;
      while i < |fullSplitPoints| - 1
        invariant 0 <= i <= |fullSplitPoints| - 1
        invariant |chunks| == i
        invariant forall k :: 0 <= k < i ==> chunks[k] == JsSlice(arr, fullSplitPoints[k], fullSplitPoints[k + 1])
      {
        var start, end := fullSplitPoints[i], fullSplitPoints[i + 1];
        chunks := chunks + [JsSlice(arr, start, end)];
        i := i + 1;
      }
    }

    /** `assignNodeTypes`: count every node as Enemy, force the fixed rows, collect and shuffle, then assign special types. */
    method AssignNodeTypes(rows: Rows) returns (rows': Rows, counter: Counter)
      requires Valid() && FixedInside(MAP_CONFIG.specialRowNodeLimit, rows)
      modifies random
      ensures Valid()
      ensures (rows', counter, random.seed) == AssignTypes(MAP_CONFIG, rows, old(random.seed))
    {
      counter := map[];
      var k := 0;
      while k < |NODE_TYPES|
        invariant 0 <= k <= |NODE_TYPES|
        invariant forall t :: t in counter <==> t in NODE_TYPES[..k]
        invariant forall t :: t in counter ==> counter[t] == if t == Enemy then TotalNodes(rows) else 0
      {
        var nodeType := NODE_TYPES[k];
        counter := counter[nodeType := if nodeType == Enemy then TotalNodes(rows) else 0];
        k := k + 1;
      }
      assert NODE_TYPES[..k] == NODE_TYPES;
      assert counter == InitialCounter(rows);
      rows', counter := SetFixedTypeNodes(rows, counter);
      var editableNodes := CollectEditableNodes(rows');
      EditableValid(MAP_CONFIG, rows');
      ShuffledIsPermutation(EditableNodes(MAP_CONFIG, rows'), old(random.seed));
      assert AllValid(rows', editableNodes) by {
        forall i | 0 <= i < |editableNodes|
          ensures ValidPos(rows', editableNodes[i])
        {
          assert editableNodes[i] in multiset(EditableNodes(MAP_CONFIG, rows'));
        }
      }
      rows', counter := AssignSpecialNodeTypes(MAP_CONFIG, rows', editableNodes, counter);
    }

    /** `setFixedTypeNodes`: every node of each listed row gets the row's type and instance; the counter follows. */
    static method SetFixedTypeNodes(rows: Rows, counter: Counter) returns (rows': Rows, counter': Counter)
      requires Total(counter) && FixedInside(MAP_CONFIG.specialRowNodeLimit, rows)
      ensures (rows', counter') == ApplyFixed(rows, counter, MAP_CONFIG.specialRowNodeLimit)
    {
      rows', counter' := ForceRows(rows, counter, MAP_CONFIG.specialRowNodeLimit);
    }

    /** The outer loop of `setFixedTypeNodes`, over the list of fixed rows. */
    static method ForceRows(rows: Rows, counter: Counter, specialRowNodeLimit: seq<FixedRow>) returns (rows': Rows, counter': Counter)
      requires Total(counter) && FixedInside(specialRowNodeLimit, rows)
      ensures (rows', counter') == ApplyFixed(rows, counter, specialRowNodeLimit)
    {
      rows', counter' := rows, counter;
      var k := 0;
      while k < |specialRowNodeLimit|
        invariant 0 <= k <= |specialRowNodeLimit|
        invariant Total(counter') && SameSizes(rows', rows)
        invariant ApplyFixed(rows', counter', specialRowNodeLimit[k..]) == ApplyFixed(rows, counter, specialRowNodeLimit)
      {
        var row, nodeType := specialRowNodeLimit[k].row, specialRowNodeLimit[k].nodeType;
        var forced;
        forced, counter' := ForceRow(rows'[row], counter', nodeType);
        rows' := rows'[row := forced];
        assert specialRowNodeLimit[k..][1..] == specialRowNodeLimit[k + 1..];
        k := k + 1;
      }
    }

    /** The `forEach` of one fixed row: each node takes the type and its instance, and the counter moves one node per node. */
    static method ForceRow(row: seq<MapNode>, counter: Counter, nodeType: NodeType) returns (row': seq<MapNode>, counter': Counter)
      requires Total(counter)
      ensures row' == ForcePrefix(row, nodeType, |row|)
      ensures Total(counter') && counter' == ShiftBy(counter, nodeType, |row|)
    {
      ForcePrefixStep(row, nodeType, 0);
      row', counter' := row, counter;
      var col := 0;
      while col < |row|
        invariant 0 <= col <= |row|
        invariant row' == ForcePrefix(row, nodeType, col)
        invariant Total(counter') && counter' == ShiftBy(counter, nodeType, col)
      {
        ForcePrefixStep(row, nodeType, col);
        row' := row'[col := ForceNode(row'[col], nodeType)];
        counter' := counter'[nodeType := counter'[nodeType] + 1];
        counter' := counter'[Enemy := counter'[Enemy] - 1];
        col := col + 1;
      }
    }

    /** `collectEditableNodes`: the default-typed nodes of rows without a forced type, row by row, then shuffled. */
    method CollectEditableNodes(rows: Rows) returns (editableNodes: seq<Pos>)
      requires Valid()
      modifies random
      ensures Valid()
      ensures (editableNodes, random.seed) == Shuffled(EditableNodes(MAP_CONFIG, rows), old(random.seed))
    {
      var collected: seq<Pos> := [];
      var row := 0;
      while row < |rows|
        invariant 0 <= row <= |rows| && collected == EditableIn(MAP_CONFIG, rows, row)
        invariant Valid() && unchanged(random)
      {
        if !IsFixedRow(MAP_CONFIG, row) {
          collected := PushEnemies(collected, rows[row], row);
        }
        row := row + 1;
      }
      editableNodes := random.Shuffle(collected);
    }

    /** The inner loop of `collectEditableNodes`: push the position of every default-typed node of one row. */
    static method PushEnemies(collected: seq<Pos>, rowNodes: seq<MapNode>, row: int) returns (collected': seq<Pos>)
      ensures collected' == collected + EnemyCols(rowNodes, row, |rowNodes|)
    {
      collected' := collected;
      var col := 0;
      while col < |rowNodes|
        invariant 0 <= col <= |rowNodes|
        invariant collected' == collected + EnemyCols(rowNodes, row, col)
      {
        if rowNodes[col].nodeType == Enemy {
          collected' := collected' + [Pos(row, col)];
        }
        col := col + 1;
      }
    }

    /** `assignSpecialNodeTypes`: each node in turn takes the first special type that passes the three checks. */
    static method AssignSpecialNodeTypes(cfg: Config, rows: Rows, editableNodes: seq<Pos>, counter: Counter) returns (rows': Rows, counter': Counter)
      requires Total(counter) && AllValid(rows, editableNodes)
      ensures (rows', counter') == AssignSpecial(cfg, rows, counter, editableNodes)
    {
      var specialNodeTypes := SpecialNodeTypes();
      rows', counter' := AssignInOrder(cfg, specialNodeTypes, rows, editableNodes, counter);
    }

    /** The outer loop of `assignSpecialNodeTypes`, over any list of candidate types. */
    static method AssignInOrder(cfg: Config, specialNodeTypes: seq<NodeType>, rows: Rows, editableNodes: seq<Pos>, counter: Counter) returns (rows': Rows, counter': Counter)
      requires Total(counter) && AllValid(rows, editableNodes)
      ensures (rows', counter') == AssignWith(cfg, specialNodeTypes, rows, counter, editableNodes)
    {
      rows', counter' := rows, counter;
      var i := 0;
      ghost var goal := AssignWith(cfg, specialNodeTypes, rows, counter, editableNodes);
      assert editableNodes[0..] == editableNodes;
      while i < |editableNodes|
        invariant 0 <= i <= |editableNodes|
        invariant Total(counter') && AllValid(rows', editableNodes[i..])
        invariant AssignWith(cfg, specialNodeTypes, rows', counter', editableNodes[i..]) == goal
      {
        rows', counter' := AssignNode(cfg, specialNodeTypes, rows', counter', editableNodes, i);
        i := i + 1;
      }
    }

    /** One round of that loop: node i takes the first allowed type, if any, and the counter follows. */
    static method AssignNode(cfg: Config, specialNodeTypes: seq<NodeType>, rows: Rows, counter: Counter, editableNodes: seq<Pos>, i: int)
      returns (rows': Rows, counter': Counter)
      requires Total(counter) && 0 <= i < |editableNodes| && AllValid(rows, editableNodes[i..])
      ensures Total(counter') && AllValid(rows', editableNodes[i + 1..])
      ensures AssignWith(cfg, specialNodeTypes, rows', counter', editableNodes[i + 1..])
           == AssignWith(cfg, specialNodeTypes, rows, counter, editableNodes[i..])
    {
      var node := editableNodes[i];
      assert editableNodes[i..][0] == node;
      var targetType := FirstAllowedType(cfg, rows, counter, node, specialNodeTypes);
      if targetType.Some? {
        rows' := Retype(rows, node, targetType.value);
        counter' := counter[targetType.value := counter[targetType.value] + 1];
        counter' := counter'[Enemy := counter'[Enemy] - 1];
        AssignWithTaken(cfg, specialNodeTypes, rows, counter, editableNodes, i, targetType.value, counter');
      } else {
        rows', counter' := rows, counter;
        AssignWithSkipped(cfg, specialNodeTypes, rows, counter, editableNodes, i);
      }
    }

    /** The inner loop of `assignSpecialNodeTypes`: try the types in order and stop at the first that passes the checks. */
    static method FirstAllowedType(cfg: Config, rows: Rows, counter: Counter, node: Pos, specialNodeTypes: seq<NodeType>) returns (r: Option<NodeType>)
      requires ValidPos(rows, node) && Total(counter)
      ensures r == FirstAllowed(cfg, rows, counter, node, specialNodeTypes)
    {
      var nodeLimit := cfg.nodeLimit;
      var j := 0;
      assert specialNodeTypes[0..] == specialNodeTypes;
      while j < |specialNodeTypes|
        invariant 0 <= j <= |specialNodeTypes|
        invariant FirstAllowed(cfg, rows, counter, node, specialNodeTypes[j..]) == FirstAllowed(cfg, rows, counter, node, specialNodeTypes)
      {
        var targetType := specialNodeTypes[j];
        FirstAllowedStep(cfg, rows, counter, node, specialNodeTypes, j);
        if && counter[targetType] < nodeLimit.Of(targetType).maxCount
           && node.row !in nodeLimit.Of(targetType).disabledRows
           && !IsNodeTypeConsecutive(cfg, rows, node, targetType)
        {
          return Some(targetType);
        }
        j := j + 1;
      }
      assert specialNodeTypes[j..] == [];
      return None;
    }

    /** `getGameMap`: the map as last generated. */
    method GetGameMap() returns (m: GameMap)
      ensures m == gameMap
    {
      m := gameMap;
    }

    /** `regenerateMap(seed)`: the same as `initMap(seed)`. */
    method RegenerateMap(seed: int)
      modifies this
      ensures Valid() && fresh(random)
      ensures gameMap == InitialMap(MAP_CONFIG, seed)
    {
      var _ := InitMap(seed);
    }
  }
}
