/**
 * Stage 3 of act generation: node types.
 *
 * A counter per type starts at (all nodes, 0, 0, 0) for (Enemy, EliteEnemy,
 * Rest, Boss). The rows listed in `specialRowNodeLimit` are forced to their
 * type; the default-typed nodes of the other rows are collected, shuffled,
 * and visited in that order, each trying the special types (EliteEnemy, then
 * Rest) and taking the first one its count cap, its disabled rows and its
 * no-two-linked-nodes rule allow. Every retyping moves one unit of the
 * counter from Enemy to the new type.
 */
module MapNodeTypes {

  import opened Wrappers
  import opened SeedRandom
  import opened MapConfig
  import opened MapGraph

  /** The source's `Record<NodeType, number>`. */
  type Counter = map<NodeType, int>

  /** A counter with an entry for every type. */
  predicate Total(counter: Counter) {
    forall t: NodeType :: t in counter
  }

  /** A map with the four types as keys is total. */
  lemma CounterKeys(counter: Counter)
    requires Enemy in counter && EliteEnemy in counter && Rest in counter && Boss in counter
    ensures Total(counter)
  {
    forall t: NodeType
      ensures t in counter
    {
      match t
      case Enemy =>
      case EliteEnemy =>
      case Rest =>
      case Boss =>
    }
  }

  /** The counter holds, for every type, the number of nodes of that type. */
  predicate Counts(rows: Rows, counter: Counter) {
    forall t: NodeType :: t in counter && counter[t] == CountType(rows, t)
  }

  /** Every node of the act has the default type. */
  predicate AllDefault(rows: Rows) {
    forall r, c :: 0 <= r < |rows| && 0 <= c < |rows[r]| ==> rows[r][c].nodeType == Enemy
  }

  /** The initial counter: every node counted as Enemy (the length of the flattened rows), the other types at zero. */
  function InitialCounter(rows: Rows): (counter: Counter)
    ensures Total(counter)
  {
    var m := map[Enemy := TotalNodes(rows), EliteEnemy := 0, Rest := 0, Boss := 0];
    CounterKeys(m);
    m
  }

  /** `counter[t]++; counter[Enemy]--`: one node moved from the default type to t. */
  function Shift(counter: Counter, t: NodeType): (r: Counter)
    requires Total(counter)
    ensures Total(r)
  {
    var c1 := counter[t := counter[t] + 1];
    c1[Enemy := c1[Enemy] - 1]
  }

  /** n nodes moved from the default type to t, one at a time. */
  function ShiftBy(counter: Counter, t: NodeType, n: nat): (r: Counter)
    requires Total(counter)
    ensures Total(r)
  {
    if n == 0 then counter else Shift(ShiftBy(counter, t, n - 1), t)
  }

  /** A node given type t and the instance the game builds for t. */
  function ForceNode(node: MapNode, t: NodeType): MapNode {
    node.(nodeType := t, nodeInstance := Some(CreateNodeInstance(t)))
  }

  /** The first n nodes of a row forced to t (the `forEach` of a fixed row, part-way). */
  function ForcePrefix(row: seq<MapNode>, t: NodeType, n: int): (r: seq<MapNode>)
    ensures |r| == |row|
  {
    seq(|row|, c requires 0 <= c < |row| => if c < n then ForceNode(row[c], t) else row[c])
  }

  /** Forcing no node changes nothing; forcing one more node updates just that node. */
  lemma ForcePrefixStep(row: seq<MapNode>, t: NodeType, n: int)
    ensures ForcePrefix(row, t, 0) == row
    ensures 0 <= n < |row| ==> ForcePrefix(row, t, n + 1) == ForcePrefix(row, t, n)[n := ForceNode(row[n], t)]
  {
  }

  /** The fixed rows lie inside the act. */
  predicate FixedInside(fixed: seq<FixedRow>, rows: Rows) {
    forall k :: 0 <= k < |fixed| ==> 0 <= fixed[k].row < |rows|
  }

  /** `setFixedTypeNodes`: each listed row, in order, forced to its type; the counter moved for each node. */
  function ApplyFixed(rows: Rows, counter: Counter, fixed: seq<FixedRow>): (res: (Rows, Counter))
    requires Total(counter) && FixedInside(fixed, rows)
    ensures SameSizes(res.0, rows) && Total(res.1)
    decreases |fixed|
  {
    if fixed == [] then (rows, counter)
    else
      var e := fixed[0];
      var row := rows[e.row];
      ApplyFixed(rows[e.row := ForcePrefix(row, e.nodeType, |row|)], ShiftBy(counter, e.nodeType, |row|), fixed[1..])
  }

  /** The default-typed nodes of row r among its first n columns, in column order. */
  function EnemyCols(row: seq<MapNode>, r: int, n: int): seq<Pos>
    requires n <= |row|
  {
    if n <= 0 then []
    else EnemyCols(row, r, n - 1) + (if row[n - 1].nodeType == Enemy then [Pos(r, n - 1)] else [])
  }

  /** `collectEditableNodes` before the shuffle, over rows 0 .. n - 1: default-typed nodes of rows without a forced type. */
  function EditableIn(cfg: Config, rows: Rows, n: int): seq<Pos>
    requires n <= |rows|
  {
    if n <= 0 then []
    else EditableIn(cfg, rows, n - 1) + (if IsFixedRow(cfg, n - 1) then [] else EnemyCols(rows[n - 1], n - 1, |rows[n - 1]|))
  }

  /** `collectEditableNodes` before the shuffle: each default-typed node of a row without a forced type, once. */
  function EditableNodes(cfg: Config, rows: Rows): (r: seq<Pos>)
    ensures forall p :: p in r <==> EditableAt(cfg, rows, |rows|, p)
    ensures PosDistinct(r)
  {
    EditableInSpec(cfg, rows, |rows|);
    EditableIn(cfg, rows, |rows|)
  }

  /** Keep the types other than Enemy and Boss, in order (the source's `filter`). */
  function NonDefault(types: seq<NodeType>): (r: seq<NodeType>)
    ensures forall t :: t in r <==> t in types && t != Enemy && t != Boss
  {
    if types == [] then []
    else (if types[0] != Enemy && types[0] != Boss then [types[0]] else []) + NonDefault(types[1..])
  }

  /** The types the greedy pass tries, in priority order. */
  function SpecialNodeTypes(): seq<NodeType> {
    NonDefault(NODE_TYPES)
  }

  predicate IsSpecial(t: NodeType) {
    t == EliteEnemy || t == Rest
  }

  /** Some listed column of `row` holds a node of type t. */
  predicate AnyOfType(row: seq<MapNode>, cols: seq<int>, t: NodeType) {
    exists i :: 0 <= i < |cols| && 0 <= cols[i] < |row| && row[cols[i]].nodeType == t
  }

  /**
   * `isNodeTypeConsecutive(node, t)`: t forbids linked pairs and some
   * predecessor or successor of the node already has type t.
   */
  predicate IsNodeTypeConsecutive(cfg: Config, rows: Rows, p: Pos, t: NodeType)
    requires ValidPos(rows, p)
    ensures !cfg.nodeLimit.Of(t).disableConsecutive ==> !IsNodeTypeConsecutive(cfg, rows, p, t)
  {
    var node := rows[p.row][p.col];
    && cfg.nodeLimit.Of(t).disableConsecutive
    && (|| (p.row > 0 && AnyOfType(rows[p.row - 1], node.prevConnectedNodes, t))
        || (p.row + 1 < |rows| && AnyOfType(rows[p.row + 1], node.nextConnectedNodes, t)))
  }

  /** Some listed column of `row` holds a node of type t exactly when some listed node of the row has type t. */
  lemma AnyOfTypeIn(row: seq<MapNode>, cols: seq<int>, t: NodeType)
    ensures AnyOfType(row, cols, t) <==> exists x :: x in cols && 0 <= x < |row| && row[x].nodeType == t
  {
    if exists x :: x in cols && 0 <= x < |row| && row[x].nodeType == t {
      var x :| x in cols && 0 <= x < |row| && row[x].nodeType == t;
      var i :| 0 <= i < |cols| && cols[i] == x;
      assert 0 <= cols[i] < |row| && row[cols[i]].nodeType == t;
    }
  }

  /**
   * The check in terms of the linked nodes themselves: it fails exactly when
   * t forbids linked pairs and a predecessor or a successor already has type t.
   */
  lemma ConsecutiveNeighbours(cfg: Config, rows: Rows, p: Pos, t: NodeType)
    requires ValidPos(rows, p)
    ensures var node := rows[p.row][p.col];
      IsNodeTypeConsecutive(cfg, rows, p, t) <==>
        && cfg.nodeLimit.Of(t).disableConsecutive
        && (|| (p.row > 0 && exists x :: x in node.prevConnectedNodes && 0 <= x < |rows[p.row - 1]| && rows[p.row - 1][x].nodeType == t)
            || (p.row + 1 < |rows| && exists x :: x in node.nextConnectedNodes && 0 <= x < |rows[p.row + 1]| && rows[p.row + 1][x].nodeType == t))
  {
    var node := rows[p.row][p.col];
    if p.row > 0 {
      AnyOfTypeIn(rows[p.row - 1], node.prevConnectedNodes, t);
    }
    if p.row + 1 < |rows| {
      AnyOfTypeIn(rows[p.row + 1], node.nextConnectedNodes, t);
    }
  }

  /** The three checks a special type must pass for the node at p. */
  predicate Allowed(cfg: Config, rows: Rows, counter: Counter, p: Pos, t: NodeType)
    requires ValidPos(rows, p) && Total(counter)
  {
    && counter[t] < cfg.nodeLimit.Of(t).maxCount
    && p.row !in cfg.nodeLimit.Of(t).disabledRows
    && !IsNodeTypeConsecutive(cfg, rows, p, t)
  }

  /** The first of `types` the node at p is allowed to take (the inner loop with its `break`). */
  function FirstAllowed(cfg: Config, rows: Rows, counter: Counter, p: Pos, types: seq<NodeType>): (r: Option<NodeType>)
    requires ValidPos(rows, p) && Total(counter)
    ensures r.Some? ==> r.value in types && Allowed(cfg, rows, counter, p, r.value)
    ensures r.None? ==> forall t :: t in types ==> !Allowed(cfg, rows, counter, p, t)
  {
    if types == [] then None
    else if Allowed(cfg, rows, counter, p, types[0]) then Some(types[0])
    else FirstAllowed(cfg, rows, counter, p, types[1..])
  }

  /** One round of the inner loop: a refused type passes the choice on to the rest of the list. */
  lemma FirstAllowedStep(cfg: Config, rows: Rows, counter: Counter, p: Pos, types: seq<NodeType>, j: int)
    requires ValidPos(rows, p) && Total(counter) && 0 <= j < |types|
    ensures Allowed(cfg, rows, counter, p, types[j]) ==> FirstAllowed(cfg, rows, counter, p, types[j..]) == Some(types[j])
    ensures !Allowed(cfg, rows, counter, p, types[j]) ==> FirstAllowed(cfg, rows, counter, p, types[j..]) == FirstAllowed(cfg, rows, counter, p, types[j + 1..])
  {
    assert types[j..][0] == types[j];
    assert types[j..][1..] == types[j + 1..];
  }

  /** The node at p given type t. */
  function Retype(rows: Rows, p: Pos, t: NodeType): (r: Rows)
    requires ValidPos(rows, p)
    ensures SameSizes(r, rows)
  {
    rows[p.row := rows[p.row][p.col := ForceNode(rows[p.row][p.col], t)]]
  }

  predicate AllValid(rows: Rows, order: seq<Pos>) {
    forall i :: 0 <= i < |order| ==> ValidPos(rows, order[i])
  }

  /** The greedy pass with the list of candidate types as a parameter: visit the nodes in order, each taking the first allowed type, if any. */
  function AssignWith(cfg: Config, types: seq<NodeType>, rows: Rows, counter: Counter, order: seq<Pos>): (res: (Rows, Counter))
    requires Total(counter) && AllValid(rows, order)
    ensures SameSizes(res.0, rows) && Total(res.1)
    decreases |order|
  {
    if order == [] then (rows, counter)
    else
      var p := order[0];
      match FirstAllowed(cfg, rows, counter, p, types)
      case None => AssignWith(cfg, types, rows, counter, order[1..])
      case Some(t) => AssignWith(cfg, types, Retype(rows, p, t), Shift(counter, t), order[1..])
  }

  /** `assignSpecialNodeTypes`: the greedy pass over the special types. */
  function AssignSpecial(cfg: Config, rows: Rows, counter: Counter, order: seq<Pos>): (res: (Rows, Counter))
    requires Total(counter) && AllValid(rows, order)
    ensures SameSizes(res.0, rows) && Total(res.1)
  {
    AssignWith(cfg, SpecialNodeTypes(), rows, counter, order)
  }

  /** One round of the outer loop when the node takes type t: its counter is shifted and the rest of the order follows. */
  lemma AssignWithTaken(cfg: Config, types: seq<NodeType>, rows: Rows, counter: Counter, order: seq<Pos>, i: int, t: NodeType, counter': Counter)
    requires Total(counter) && 0 <= i < |order| && AllValid(rows, order[i..])
    requires FirstAllowed(cfg, rows, counter, order[i], types) == Some(t)
    requires counter' == (counter[t := counter[t] + 1])[Enemy := counter[t := counter[t] + 1][Enemy] - 1]
    ensures Total(counter') && AllValid(Retype(rows, order[i], t), order[i + 1..])
    ensures AssignWith(cfg, types, Retype(rows, order[i], t), counter', order[i + 1..]) == AssignWith(cfg, types, rows, counter, order[i..])
  {
    assert order[i..][0] == order[i];
    assert order[i..][1..] == order[i + 1..];
    assert counter' == Shift(counter, t);
  }

  /** One round of the outer loop when the node keeps its type. */
  lemma AssignWithSkipped(cfg: Config, types: seq<NodeType>, rows: Rows, counter: Counter, order: seq<Pos>, i: int)
    requires Total(counter) && 0 <= i < |order| && AllValid(rows, order[i..])
    requires FirstAllowed(cfg, rows, counter, order[i], types) == None
    ensures AllValid(rows, order[i + 1..])
    ensures AssignWith(cfg, types, rows, counter, order[i + 1..]) == AssignWith(cfg, types, rows, counter, order[i..])
  {
    assert order[i..][0] == order[i];
    assert order[i..][1..] == order[i + 1..];
  }

  /** Every position of a shuffled collection is a node of the rows. */
  lemma ShuffledValid(cfg: Config, rows: Rows, s: int)
    requires IsState(s)
    ensures AllValid(rows, Shuffled(EditableNodes(cfg, rows), s).0)
  {
    var editable := EditableNodes(cfg, rows);
    EditableValid(cfg, rows);
    ShuffledIsPermutation(editable, s);
    var order := Shuffled(editable, s).0;
    forall i | 0 <= i < |order|
      ensures ValidPos(rows, order[i])
    {
      assert order[i] in multiset(editable);
    }
  }

  /**
   * `assignNodeTypes` from state s: the retyped rows, the final counter, and
   * the state after the shuffle (its only draws).
   */
  function AssignTypes(cfg: Config, rows: Rows, s: int): (res: (Rows, Counter, int))
    requires IsState(s) && FixedInside(cfg.specialRowNodeLimit, rows)
    ensures IsState(res.2)
  {
    var (rows1, counter1) := ApplyFixed(rows, InitialCounter(rows), cfg.specialRowNodeLimit);
    var (order, s1) := Shuffled(EditableNodes(cfg, rows1), s);
    ShuffledValid(cfg, rows1, s);
    var (rows2, counter2) := AssignSpecial(cfg, rows1, counter1, order);
    (rows2, counter2, s1)
  }

  // ---------------------------------------------------------------------
  // The type order
  // ---------------------------------------------------------------------

  /** Declaration order makes EliteEnemy the first special type tried and Rest the second. */
  lemma SpecialTypesOrder()
    ensures SpecialNodeTypes() == [EliteEnemy, Rest]
  {
    assert NODE_TYPES[1..] == [EliteEnemy, Rest, Boss];
    assert NODE_TYPES[1..][1..] == [Rest, Boss];
    assert NODE_TYPES[1..][1..][1..] == [Boss];
  }

  /**
   * One node's choice: EliteEnemy if allowed; otherwise Rest if allowed;
   * otherwise the node keeps its type.
   */
  lemma ChoicePriority(cfg: Config, rows: Rows, counter: Counter, p: Pos)
    requires ValidPos(rows, p) && Total(counter)
    ensures FirstAllowed(cfg, rows, counter, p, SpecialNodeTypes())
         == if Allowed(cfg, rows, counter, p, EliteEnemy) then Some(EliteEnemy)
            else if Allowed(cfg, rows, counter, p, Rest) then Some(Rest)
            else None
  {
    SpecialTypesOrder();
    var types := [EliteEnemy, Rest];
    assert types[1..] == [Rest];
    assert types[1..][1..] == [];
  }

  // ---------------------------------------------------------------------
  // The counter
  // ---------------------------------------------------------------------

  /** Before any retyping, the initial counter counts every type correctly. */
  lemma InitialCounterCounts(rows: Rows)
    requires AllDefault(rows)
    ensures Counts(rows, InitialCounter(rows))
  {
    forall t: NodeType
      ensures InitialCounter(rows)[t] == CountType(rows, t)
    {
      CountTypeUniform(rows, Enemy, t);
    }
  }

  /** The effect of n single moves: +n for t, -n for Enemy (nothing when t is Enemy). */
  lemma {:induction false} ShiftByValue(counter: Counter, t: NodeType, n: nat, u: NodeType)
    requires Total(counter)
    ensures ShiftBy(counter, t, n)[u] == counter[u] + (if u == t then n else 0) - (if u == Enemy then n else 0)
  {
    if n > 0 {
      ShiftByValue(counter, t, n - 1, u);
    }
  }

  /** Retyping one default-typed node to t and shifting the counter keeps the counter exact. */
  lemma RetypeCounts(rows: Rows, counter: Counter, p: Pos, t: NodeType)
    requires ValidPos(rows, p) && Counts(rows, counter) && rows[p.row][p.col].nodeType == Enemy
    ensures Counts(Retype(rows, p, t), Shift(counter, t))
  {
    var row := rows[p.row];
    var row' := row[p.col := ForceNode(row[p.col], t)];
    forall u: NodeType
      ensures Shift(counter, t)[u] == CountType(Retype(rows, p, t), u)
    {
      CountTypeUpdate(rows, p.row, row', u);
      CountInRowUpdate(row, p.col, ForceNode(row[p.col], t), u);
    }
  }

  /** Forcing a default-typed row to t and shifting by its length keeps the counter exact. */
  lemma ForceRowCounts(rows: Rows, counter: Counter, r: int, t: NodeType)
    requires 0 <= r < |rows| && Counts(rows, counter)
    requires forall c :: 0 <= c < |rows[r]| ==> rows[r][c].nodeType == Enemy
    ensures Counts(rows[r := ForcePrefix(rows[r], t, |rows[r]|)], ShiftBy(counter, t, |rows[r]|))
  {
    var row := rows[r];
    var row' := ForcePrefix(row, t, |row|);
    forall u: NodeType
      ensures ShiftBy(counter, t, |row|)[u] == CountType(rows[r := row'], u)
    {
      CountTypeUpdate(rows, r, row', u);
      CountInUniformRow(row, Enemy, u);
      CountInUniformRow(row', t, u);
      ShiftByValue(counter, t, |row|, u);
    }
  }

  /** The counters always add up to the number of nodes. */
  lemma CountsSum(rows: Rows, counter: Counter)
    requires Counts(rows, counter)
    ensures counter[Enemy] + counter[EliteEnemy] + counter[Rest] + counter[Boss] == TotalNodes(rows)
  {
    TypesPartition(rows);
  }

  // ---------------------------------------------------------------------
  // Fixed rows
  // ---------------------------------------------------------------------

  predicate Ascending(fixed: seq<FixedRow>) {
    forall k, l :: 0 <= k < l < |fixed| ==> fixed[k].row < fixed[l].row
  }

  /** Every node of each listed row is still default-typed. */
  predicate FixedRowsDefault(fixed: seq<FixedRow>, rows: Rows)
    requires FixedInside(fixed, rows)
  {
    forall k, c :: 0 <= k < |fixed| && 0 <= c < |rows[fixed[k].row]| ==> rows[fixed[k].row][c].nodeType == Enemy
  }

  /** Every node of each listed row has that row's type and its instance; the other rows are untouched. */
  predicate FixedApplied(fixed: seq<FixedRow>, rows: Rows, rows': Rows)
    requires FixedInside(fixed, rows) && SameSizes(rows, rows')
  {
    && (forall k, c :: 0 <= k < |fixed| && 0 <= c < |rows[fixed[k].row]| ==>
          rows'[fixed[k].row][c] == ForceNode(rows[fixed[k].row][c], fixed[k].nodeType))
    && (forall r :: 0 <= r < |rows| && (forall k :: 0 <= k < |fixed| ==> fixed[k].row != r) ==> rows'[r] == rows[r])
  }

  /**
   * Forcing distinct rows whose nodes are all default-typed keeps the counter
   * exact, forces each listed row and touches no other row.
   */
  lemma ApplyFixedOk(rows: Rows, counter: Counter, fixed: seq<FixedRow>)
    requires Total(counter) && FixedInside(fixed, rows) && Ascending(fixed)
    requires Counts(rows, counter) && FixedRowsDefault(fixed, rows)
    ensures var (rows', counter') := ApplyFixed(rows, counter, fixed);
      Counts(rows', counter') && FixedApplied(fixed, rows, rows') && SameGraph(rows, rows')
  {
    ApplyFixedCounts(rows, counter, fixed);
    ApplyFixedRows(rows, counter, fixed);
  }

  /** Past the first listed row, the list names only other rows. */
  lemma FixedRest(fixed: seq<FixedRow>)
    requires Ascending(fixed) && fixed != []
    ensures Ascending(fixed[1..])
    ensures forall k :: 0 <= k < |fixed| - 1 ==> fixed[1..][k] == fixed[k + 1] && fixed[k + 1].row != fixed[0].row
  {
  }

  /** Forcing distinct default-typed rows keeps the counter exact. */
  lemma {:induction false} ApplyFixedCounts(rows: Rows, counter: Counter, fixed: seq<FixedRow>)
    requires Total(counter) && FixedInside(fixed, rows) && Ascending(fixed)
    requires Counts(rows, counter) && FixedRowsDefault(fixed, rows)
    ensures Counts(ApplyFixed(rows, counter, fixed).0, ApplyFixed(rows, counter, fixed).1)
    decreases |fixed|
  {
    if fixed != [] {
      var e := fixed[0];
      var row := rows[e.row];
      var rows1 := rows[e.row := ForcePrefix(row, e.nodeType, |row|)];
      ForceRowCounts(rows, counter, e.row, e.nodeType);
      FixedRest(fixed);
      ApplyFixedCounts(rows1, ShiftBy(counter, e.nodeType, |row|), fixed[1..]);
    }
  }

  /** Forcing distinct rows forces each listed row, touches no other row and no list of links. */
  lemma {:induction false} ApplyFixedRows(rows: Rows, counter: Counter, fixed: seq<FixedRow>)
    requires Total(counter) && FixedInside(fixed, rows) && Ascending(fixed)
    ensures var rows' := ApplyFixed(rows, counter, fixed).0;
      FixedApplied(fixed, rows, rows') && SameGraph(rows, rows')
    decreases |fixed|
  {
    if fixed != [] {
      var e := fixed[0];
      var row := rows[e.row];
      var rows1 := rows[e.row := ForcePrefix(row, e.nodeType, |row|)];
      var counter1 := ShiftBy(counter, e.nodeType, |row|);
      var rest := fixed[1..];
      FixedRest(fixed);
      ApplyFixedRows(rows1, counter1, rest);
      var rows' := ApplyFixed(rows1, counter1, rest).0;
      assert rows' == ApplyFixed(rows, counter, fixed).0;
      forall k, c | 0 <= k < |fixed| && 0 <= c < |rows[fixed[k].row]|
        ensures rows'[fixed[k].row][c] == ForceNode(rows[fixed[k].row][c], fixed[k].nodeType)
      {
        if k > 0 {
          assert fixed[k] == rest[k - 1];
        }
      }
      forall r | 0 <= r < |rows| && (forall k :: 0 <= k < |fixed| ==> fixed[k].row != r)
        ensures rows'[r] == rows[r]
      {
        assert fixed[0].row != r;
        assert forall l :: 0 <= l < |rest| ==> rest[l].row != r;
      }
    }
  }

  // ---------------------------------------------------------------------
  // The editable nodes
  // ---------------------------------------------------------------------

  predicate PosDistinct(order: seq<Pos>) {
    forall i, j :: 0 <= i < j < |order| ==> order[i] != order[j]
  }

  /** Column p.col of `row`, below n, holds a default-typed node, and p names row r. */
  predicate EnemyAt(row: seq<MapNode>, r: int, n: int, p: Pos) {
    p.row == r && 0 <= p.col < n && p.col < |row| && row[p.col].nodeType == Enemy
  }

  lemma {:induction false} EnemyColsSpec(row: seq<MapNode>, r: int, n: int)
    requires n <= |row|
    ensures forall p :: p in EnemyCols(row, r, n) <==> EnemyAt(row, r, n, p)
    ensures PosDistinct(EnemyCols(row, r, n))
  {
    if n > 0 {
      EnemyColsSpec(row, r, n - 1);
      var prev := EnemyCols(row, r, n - 1);
      var add := if row[n - 1].nodeType == Enemy then [Pos(r, n - 1)] else [];
      assert EnemyCols(row, r, n) == prev + add;
      forall p
        ensures p in prev + add <==> EnemyAt(row, r, n, p)
      {
        assert p in prev <==> EnemyAt(row, r, n - 1, p);
      }
      forall i, j | 0 <= i < j < |prev + add|
        ensures (prev + add)[i] != (prev + add)[j]
      {
        if j >= |prev| {
          assert EnemyAt(row, r, n - 1, prev[i]);
        }
      }
    }
  }

  /** The node at p is default-typed, in one of rows 0 .. n - 1, and that row has no forced type. */
  predicate EditableAt(cfg: Config, rows: Rows, n: int, p: Pos) {
    && 0 <= p.row < n && p.row < |rows| && 0 <= p.col < |rows[p.row]|
    && !IsFixedRow(cfg, p.row) && rows[p.row][p.col].nodeType == Enemy
  }

  /**
   * The editable list holds each default-typed node of a row without a forced
   * type exactly once, and nothing else.
   */
  lemma {:induction false} EditableInSpec(cfg: Config, rows: Rows, n: int)
    requires n <= |rows|
    ensures forall p :: p in EditableIn(cfg, rows, n) <==> EditableAt(cfg, rows, n, p)
    ensures PosDistinct(EditableIn(cfg, rows, n))
  {
    if n > 0 {
      EditableInSpec(cfg, rows, n - 1);
      var prev := EditableIn(cfg, rows, n - 1);
      var add := if IsFixedRow(cfg, n - 1) then [] else EnemyCols(rows[n - 1], n - 1, |rows[n - 1]|);
      EnemyColsSpec(rows[n - 1], n - 1, |rows[n - 1]|);
      assert EditableIn(cfg, rows, n) == prev + add;
      forall p
        ensures p in prev + add <==> EditableAt(cfg, rows, n, p)
      {
        assert p in prev <==> EditableAt(cfg, rows, n - 1, p);
      }
      forall p | p in prev ensures p.row < n - 1 {
        assert EditableAt(cfg, rows, n - 1, p);
      }
      DistinctConcat(prev, add, n - 1);
    }
  }

  /** Two duplicate-free lists, the first below row r and the second in row r, join without duplicates. */
  lemma DistinctConcat(a: seq<Pos>, b: seq<Pos>, r: int)
    requires PosDistinct(a) && PosDistinct(b)
    requires forall p :: p in a ==> p.row < r
    requires forall p :: p in b ==> p.row == r
    ensures PosDistinct(a + b)
  {
    var c := a + b;
    forall i, j | 0 <= i < j < |c|
      ensures c[i] != c[j]
    {
      if i < |a| && j >= |a| {
        assert c[i] in a && c[j] in b;
      }
    }
  }

  lemma EditableValid(cfg: Config, rows: Rows)
    ensures AllValid(rows, EditableNodes(cfg, rows))
  {
    EditableInSpec(cfg, rows, |rows|);
    var e := EditableNodes(cfg, rows);
    assert forall i :: 0 <= i < |e| ==> e[i] in e;
  }

  // ---------------------------------------------------------------------
  // The greedy pass
  // ---------------------------------------------------------------------

  function Max(a: int, b: int): int {
    if a < b then b else a
  }

  /** No count has risen above its cap, except where it already started above it. */
  predicate Capped(cfg: Config, counter0: Counter, counter: Counter)
    requires Total(counter0) && Total(counter)
  {
    forall t: NodeType :: counter[t] <= Max(cfg.nodeLimit.Of(t).maxCount, counter0[t])
  }

  /**
   * Every node is as it was, or was given a special type whose disabled rows
   * do not include its row, together with that type's instance, in a row
   * without a forced type.
   */
  predicate Settled(cfg: Config, rows0: Rows, rows: Rows)
    requires SameSizes(rows0, rows)
  {
    forall r, c :: 0 <= r < |rows| && 0 <= c < |rows[r]| ==>
      || rows[r][c] == rows0[r][c]
      || (&& !IsFixedRow(cfg, r)
          && IsSpecial(rows[r][c].nodeType)
          && r !in cfg.nodeLimit.Of(rows[r][c].nodeType).disabledRows
          && rows[r][c] == ForceNode(rows0[r][c], rows[r][c].nodeType))
  }

  /** Linked nodes of rows r and r + 1 share a special type that forbids it only if both rows have a forced type. */
  predicate PairNoClash(cfg: Config, upper: seq<MapNode>, lower: seq<MapNode>, r: int) {
    forall c, x :: 0 <= c < |upper| && x in upper[c].nextConnectedNodes && 0 <= x < |lower|
      && upper[c].nodeType == lower[x].nodeType
      && IsSpecial(upper[c].nodeType) && cfg.nodeLimit.Of(upper[c].nodeType).disableConsecutive
      ==> IsFixedRow(cfg, r) && IsFixedRow(cfg, r + 1)
  }

  predicate NoClash(cfg: Config, rows: Rows) {
    forall r :: 0 <= r < |rows| - 1 ==> PairNoClash(cfg, rows[r], rows[r + 1], r)
  }

  predicate AllMirrored(rows: Rows) {
    forall r :: 0 <= r < |rows| - 1 ==> PairMirrored(rows[r], rows[r + 1])
  }

  /** What the greedy pass relies on about its visiting order: valid, distinct, default-typed, outside forced rows. */
  predicate GoodOrder(cfg: Config, rows: Rows, order: seq<Pos>) {
    && AllValid(rows, order)
    && PosDistinct(order)
    && (forall i :: 0 <= i < |order| ==> rows[order[i].row][order[i].col].nodeType == Enemy)
    && (forall i :: 0 <= i < |order| ==> !IsFixedRow(cfg, order[i].row))
  }

  /** A retyping that passed the consecutive check creates no clash. */
  lemma RetypeNoClash(cfg: Config, rows: Rows, p: Pos, t: NodeType)
    requires ValidPos(rows, p) && NoClash(cfg, rows) && AllMirrored(rows)
    requires !IsSpecial(rows[p.row][p.col].nodeType)
    requires !IsNodeTypeConsecutive(cfg, rows, p, t)
    ensures NoClash(cfg, Retype(rows, p, t))
  {
    var rows' := Retype(rows, p, t);
    forall r | 0 <= r < |rows'| - 1
      ensures PairNoClash(cfg, rows'[r], rows'[r + 1], r)
    {
      var upper, lower := rows'[r], rows'[r + 1];
      assert PairNoClash(cfg, rows[r], rows[r + 1], r);
      assert PairMirrored(rows[r], rows[r + 1]);
      forall c, x | 0 <= c < |upper| && x in upper[c].nextConnectedNodes && 0 <= x < |lower|
        ensures upper[c].nodeType == lower[x].nodeType
          && IsSpecial(upper[c].nodeType) && cfg.nodeLimit.Of(upper[c].nodeType).disableConsecutive
          ==> IsFixedRow(cfg, r) && IsFixedRow(cfg, r + 1)
      {
        if p == Pos(r, c) {
          if cfg.nodeLimit.Of(t).disableConsecutive {
            NoneOfType(rows[r + 1], rows[r][c].nextConnectedNodes, t, x);
            assert lower[x] == rows[r + 1][x];
          }
        } else if p == Pos(r + 1, x) {
          if cfg.nodeLimit.Of(t).disableConsecutive {
            var node := rows[r + 1][x];
            assert c in node.prevConnectedNodes;
            NoneOfType(rows[r], node.prevConnectedNodes, t, c);
            assert upper[c] == rows[r][c];
          }
        } else {
          assert upper[c] == rows[r][c] && lower[x] == rows[r + 1][x];
        }
      }
    }
  }

  /** A listed column of a row without a node of type t holds another type. */
  lemma NoneOfType(row: seq<MapNode>, cols: seq<int>, t: NodeType, c: int)
    requires !AnyOfType(row, cols, t) && c in cols && 0 <= c < |row|
    ensures row[c].nodeType != t
  {
    var i :| 0 <= i < |cols| && cols[i] == c;
  }

  lemma SettledTrans(cfg: Config, rows0: Rows, rows1: Rows, rows2: Rows)
    requires SameSizes(rows0, rows1) && SameSizes(rows1, rows2)
    requires Settled(cfg, rows0, rows1) && Settled(cfg, rows1, rows2)
    ensures Settled(cfg, rows0, rows2)
  {
    forall r, c | 0 <= r < |rows2| && 0 <= c < |rows2[r]|
      ensures || rows2[r][c] == rows0[r][c]
              || (&& !IsFixedRow(cfg, r)
                  && IsSpecial(rows2[r][c].nodeType)
                  && r !in cfg.nodeLimit.Of(rows2[r][c].nodeType).disabledRows
                  && rows2[r][c] == ForceNode(rows0[r][c], rows2[r][c].nodeType))
    {
    }
  }

  /**
   * One greedy step: the node first in the order takes an allowed special
   * type; only that node changes, the wiring stays, no clash appears and the
   * rest of the order stays good.
   */
  lemma RetypeStep(cfg: Config, rows: Rows, counter: Counter, order: seq<Pos>, t: NodeType)
    requires Total(counter) && |order| > 0 && GoodOrder(cfg, rows, order)
    requires NoClash(cfg, rows) && AllMirrored(rows)
    requires IsSpecial(t) && Allowed(cfg, rows, counter, order[0], t)
    ensures var rows1 := Retype(rows, order[0], t);
      && Settled(cfg, rows, rows1)
      && SameGraph(rows, rows1)
      && NoClash(cfg, rows1) && AllMirrored(rows1)
      && GoodOrder(cfg, rows1, order[1..])
  {
    var p := order[0];
    var rows1 := Retype(rows, p, t);
    RetypeNoClash(cfg, rows, p, t);
    forall r | 0 <= r < |rows1| - 1
      ensures PairMirrored(rows1[r], rows1[r + 1])
    {
      assert PairMirrored(rows[r], rows[r + 1]);
    }
    RetypeOrder(cfg, rows, order, t);
    RetypeSettled(cfg, rows, p, t);
  }

  /** The rest of a good order stays good once its first node is retyped. */
  lemma RetypeOrder(cfg: Config, rows: Rows, order: seq<Pos>, t: NodeType)
    requires |order| > 0 && GoodOrder(cfg, rows, order)
    ensures GoodOrder(cfg, Retype(rows, order[0], t), order[1..])
  {
    var p := order[0];
    var rows1 := Retype(rows, p, t);
    var rest := order[1..];
    forall i | 0 <= i < |rest|
      ensures ValidPos(rows1, rest[i]) && rows1[rest[i].row][rest[i].col].nodeType == Enemy
    {
      assert rest[i] == order[i + 1] && rest[i] != p;
    }
  }

  /** Retyping a node outside the forced rows to a special type allowed in its row settles it. */
  lemma RetypeSettled(cfg: Config, rows: Rows, p: Pos, t: NodeType)
    requires ValidPos(rows, p) && !IsFixedRow(cfg, p.row)
    requires IsSpecial(t) && p.row !in cfg.nodeLimit.Of(t).disabledRows
    ensures Settled(cfg, rows, Retype(rows, p, t))
  {
    var rows1 := Retype(rows, p, t);
    forall r, c | 0 <= r < |rows1| && 0 <= c < |rows1[r]|
      ensures || rows1[r][c] == rows[r][c]
              || (&& !IsFixedRow(cfg, r)
                  && IsSpecial(rows1[r][c].nodeType)
                  && r !in cfg.nodeLimit.Of(rows1[r][c].nodeType).disabledRows
                  && rows1[r][c] == ForceNode(rows[r][c], rows1[r][c].nodeType))
    {
      if Pos(r, c) == p {
        assert rows1[r][c] == ForceNode(rows[r][c], t);
      }
    }
  }

  /**
   * The greedy pass over a good order keeps the counter exact, keeps every
   * count within its cap (or where it started), retypes only visited nodes,
   * each to an allowed special type, leaves the wiring alone, and creates no
   * linked pair of the same no-consecutive special type.
   */
  lemma AssignSpecialOk(cfg: Config, rows: Rows, counter: Counter, order: seq<Pos>)
    requires Total(counter) && GoodOrder(cfg, rows, order) && Counts(rows, counter)
    requires NoClash(cfg, rows) && AllMirrored(rows)
    ensures var (rows', counter') := AssignSpecial(cfg, rows, counter, order);
      && Counts(rows', counter')
      && Capped(cfg, counter, counter')
      && Settled(cfg, rows, rows')
      && SameGraph(rows, rows')
      && NoClash(cfg, rows')
  {
    SpecialTypesOrder();
    AssignWithOk(cfg, SpecialNodeTypes(), rows, counter, order);
  }

  /** The same over any list of special candidate types. */
  lemma AssignWithOk(cfg: Config, types: seq<NodeType>, rows: Rows, counter: Counter, order: seq<Pos>)
    requires forall t :: t in types ==> IsSpecial(t)
    requires Total(counter) && GoodOrder(cfg, rows, order) && Counts(rows, counter)
    requires NoClash(cfg, rows) && AllMirrored(rows)
    ensures var (rows', counter') := AssignWith(cfg, types, rows, counter, order);
      && Counts(rows', counter')
      && Capped(cfg, counter, counter')
      && Settled(cfg, rows, rows')
      && SameGraph(rows, rows')
      && NoClash(cfg, rows')
  {
    AssignWithCounts(cfg, types, rows, counter, order);
    AssignWithShape(cfg, types, rows, counter, order);
  }

  /** The greedy pass keeps the counter exact, and each count within its cap or where it started. */
  lemma {:induction false} AssignWithCounts(cfg: Config, types: seq<NodeType>, rows: Rows, counter: Counter, order: seq<Pos>)
    requires Total(counter) && GoodOrder(cfg, rows, order) && Counts(rows, counter)
    ensures var (rows', counter') := AssignWith(cfg, types, rows, counter, order);
      Counts(rows', counter') && Capped(cfg, counter, counter')
    decreases |order|
  {
    if order != [] {
      var p := order[0];
      var rest := order[1..];
      match FirstAllowed(cfg, rows, counter, p, types)
      case None =>
        assert GoodOrder(cfg, rows, rest);
        AssignWithCounts(cfg, types, rows, counter, rest);
      case Some(t) =>
        RetypeCounts(rows, counter, p, t);
        RetypeOrder(cfg, rows, order, t);
        AssignWithCounts(cfg, types, Retype(rows, p, t), Shift(counter, t), rest);
    }
  }

  /** The greedy pass settles every node it changes, keeps the wiring and creates no clash. */
  lemma {:induction false} AssignWithShape(cfg: Config, types: seq<NodeType>, rows: Rows, counter: Counter, order: seq<Pos>)
    requires forall t :: t in types ==> IsSpecial(t)
    requires Total(counter) && GoodOrder(cfg, rows, order)
    requires NoClash(cfg, rows) && AllMirrored(rows)
    ensures var rows' := AssignWith(cfg, types, rows, counter, order).0;
      Settled(cfg, rows, rows') && SameGraph(rows, rows') && NoClash(cfg, rows')
    decreases |order|
  {
    if order != [] {
      var p := order[0];
      var rest := order[1..];
      match FirstAllowed(cfg, rows, counter, p, types)
      case None =>
        assert GoodOrder(cfg, rows, rest);
        AssignWithShape(cfg, types, rows, counter, rest);
      case Some(t) =>
        RetypeStep(cfg, rows, counter, order, t);
        var rows1 := Retype(rows, p, t);
        AssignWithShape(cfg, types, rows1, Shift(counter, t), rest);
        SettledTrans(cfg, rows, rows1, AssignWith(cfg, types, rows1, Shift(counter, t), rest).0);
    }
  }

  // ---------------------------------------------------------------------
  // The whole stage
  // ---------------------------------------------------------------------

  /** Nodes as the wiring stage leaves them: default type, no instance. */
  predicate Untyped(rows: Rows) {
    forall r, c :: 0 <= r < |rows| && 0 <= c < |rows[r]| ==>
      rows[r][c].nodeType == Enemy && rows[r][c].nodeInstance == None
  }

  /** Every node of a row with a forced type has that type and its instance. */
  predicate FixedRowsForced(cfg: Config, rows: Rows) {
    forall r, c :: 0 <= r < |rows| && 0 <= c < |rows[r]| && IsFixedRow(cfg, r) ==>
      && rows[r][c].nodeType == FixedTypeOf(cfg.specialRowNodeLimit, r).value
      && rows[r][c].nodeInstance == Some(CreateNodeInstance(rows[r][c].nodeType))
  }

  /**
   * Every node of the other rows is a plain default node without an instance,
   * or has a special type allowed in its row, with that type's instance.
   */
  predicate OtherRowsTyped(cfg: Config, rows: Rows) {
    forall r, c :: 0 <= r < |rows| && 0 <= c < |rows[r]| && !IsFixedRow(cfg, r) ==>
      || (rows[r][c].nodeType == Enemy && rows[r][c].nodeInstance == None)
      || (&& IsSpecial(rows[r][c].nodeType)
          && r !in cfg.nodeLimit.Of(rows[r][c].nodeType).disabledRows
          && rows[r][c].nodeInstance == Some(CreateNodeInstance(rows[r][c].nodeType)))
  }

  /** The rows with a forced type; every other row emptied. */
  function FixedPart(cfg: Config, rows: Rows): (res: Rows)
    ensures |res| == |rows|
    ensures forall r :: 0 <= r < |rows| && !IsFixedRow(cfg, r) ==> res[r] == []
  {
    seq(|rows|, r requires 0 <= r < |rows| => if IsFixedRow(cfg, r) then rows[r] else [])
  }

  /** No type other than the default exceeds its cap, unless the forced rows alone hold more nodes of it. */
  predicate WithinCaps(cfg: Config, rows: Rows) {
    forall t: NodeType :: t != Enemy ==>
      CountType(rows, t) <= Max(cfg.nodeLimit.Of(t).maxCount, CountType(FixedPart(cfg, rows), t))
  }

  /** The rows without a forced type are exactly as they were. */
  predicate OthersKept(cfg: Config, rows: Rows, rows': Rows)
    requires SameSizes(rows, rows')
  {
    forall r, c :: 0 <= r < |rows| && 0 <= c < |rows[r]| && !IsFixedRow(cfg, r) ==> rows'[r][c] == rows[r][c]
  }

  /** After the fixed rows are forced: they are, the rest is untouched, and no forbidden linked pair exists. */
  lemma FixedStage(cfg: Config, rows: Rows, rows1: Rows)
    requires WellFormed(cfg) && |rows| == cfg.maxRowIndex + 1 && Untyped(rows) && Connected(rows)
    requires FixedInside(cfg.specialRowNodeLimit, rows) && SameGraph(rows, rows1)
    requires FixedApplied(cfg.specialRowNodeLimit, rows, rows1)
    ensures OthersKept(cfg, rows, rows1) && FixedRowsForced(cfg, rows1)
    ensures NoClash(cfg, rows1) && AllMirrored(rows1)
  {
    var fixed := cfg.specialRowNodeLimit;
    forall r, c | 0 <= r < |rows1| && 0 <= c < |rows1[r]| && IsFixedRow(cfg, r)
      ensures rows1[r][c].nodeType == FixedTypeOf(fixed, r).value
      ensures rows1[r][c].nodeInstance == Some(CreateNodeInstance(rows1[r][c].nodeType))
    {
      var k :| 0 <= k < |fixed| && fixed[k] == FixedRow(r, FixedTypeOf(fixed, r).value);
      assert rows1[r][c] == ForceNode(rows[r][c], fixed[k].nodeType);
    }
    forall r, c | 0 <= r < |rows| && 0 <= c < |rows[r]| && !IsFixedRow(cfg, r)
      ensures rows1[r][c] == rows[r][c]
    {
      assert rows1[r] == rows[r];
    }
    SameGraphConnected(rows, rows1);
    forall r | 0 <= r < |rows1| - 1
      ensures PairMirrored(rows1[r], rows1[r + 1])
    {
      assert PairOk(rows1, r);
    }
    forall r | 0 <= r < |rows1| - 1
      ensures PairNoClash(cfg, rows1[r], rows1[r + 1], r)
    {
      forall c, x | 0 <= c < |rows1[r]| && x in rows1[r][c].nextConnectedNodes && 0 <= x < |rows1[r + 1]|
        && rows1[r][c].nodeType == rows1[r + 1][x].nodeType
        && IsSpecial(rows1[r][c].nodeType) && cfg.nodeLimit.Of(rows1[r][c].nodeType).disableConsecutive
        ensures IsFixedRow(cfg, r) && IsFixedRow(cfg, r + 1)
      {
      }
    }
  }

  /** A position occurs at most once in a list of distinct positions. */
  lemma {:induction false} PosMultiplicity(order: seq<Pos>, p: Pos)
    requires PosDistinct(order)
    ensures multiset(order)[p] <= 1
  {
    if order != [] {
      var init := order[..|order| - 1];
      assert order == init + [order[|order| - 1]];
      PosMultiplicity(init, p);
      if p == order[|order| - 1] {
        assert p !in init;
      }
    }
  }

  /** A rearrangement of distinct positions is distinct. */
  lemma PermutedDistinct(a: seq<Pos>, b: seq<Pos>)
    requires PosDistinct(a) && multiset(a) == multiset(b)
    ensures PosDistinct(b)
  {
    forall i, j | 0 <= i < j < |b|
      ensures b[i] != b[j]
    {
      if b[i] == b[j] {
        assert multiset(b)[b[i]] >= 2 by {
          assert b == b[..j] + [b[j]] + b[j + 1..];
          assert b[i] in multiset(b[..j]);
        }
        PosMultiplicity(a, b[i]);
        assert false;
      }
    }
  }

  /** The shuffled editable list is a good visiting order. */
  lemma ShuffledOrderGood(cfg: Config, rows: Rows, s: int)
    requires IsState(s)
    ensures GoodOrder(cfg, rows, Shuffled(EditableNodes(cfg, rows), s).0)
  {
    var editable := EditableNodes(cfg, rows);
    var order := Shuffled(editable, s).0;
    EditableInSpec(cfg, rows, |rows|);
    ShuffledIsPermutation(editable, s);
    PermutedDistinct(editable, order);
    forall i | 0 <= i < |order|
      ensures ValidPos(rows, order[i]) && !IsFixedRow(cfg, order[i].row)
      ensures rows[order[i].row][order[i].col].nodeType == Enemy
    {
      assert order[i] in multiset(editable);
      assert EditableAt(cfg, rows, |rows|, order[i]);
    }
  }

  /** Forced rows stay as forced; every other node is a default node or a special type allowed in its row. */
  lemma TypedAfterGreedy(cfg: Config, rows: Rows, rows1: Rows, rows2: Rows)
    requires Untyped(rows) && SameSizes(rows, rows1) && SameSizes(rows1, rows2)
    requires OthersKept(cfg, rows, rows1) && FixedRowsForced(cfg, rows1) && Settled(cfg, rows1, rows2)
    ensures FixedRowsForced(cfg, rows2) && OtherRowsTyped(cfg, rows2)
  {
    forall r, c | 0 <= r < |rows2| && 0 <= c < |rows2[r]| && IsFixedRow(cfg, r)
      ensures rows2[r][c] == rows1[r][c]
    {
    }
  }

  /** The forced count of each non-default type is what the forced rows of the final act hold. */
  lemma ForcedCount(cfg: Config, rows: Rows, rows1: Rows, rows2: Rows, t: NodeType)
    requires Untyped(rows) && SameSizes(rows, rows1) && SameSizes(rows1, rows2) && t != Enemy
    requires OthersKept(cfg, rows, rows1) && Settled(cfg, rows1, rows2)
    ensures CountType(rows1, t) == CountType(FixedPart(cfg, rows2), t)
  {
    var part := FixedPart(cfg, rows2);
    forall r | 0 <= r < |rows1|
      ensures CountInRow(rows1[r], t) == CountInRow(part[r], t)
    {
      if IsFixedRow(cfg, r) {
        CountInRowSameTypes(rows1[r], rows2[r], t);
      } else {
        CountInRowNone(rows1[r], t);
      }
    }
    CountTypeRowwise(rows1, part, t);
  }

  /**
   * `assignNodeTypes` on a wired act of default nodes: the counter it ends
   * with counts every type exactly; the wiring is unchanged; the forced rows
   * hold their type; every other node is a default node or a special type
   * allowed in its row; no linked pair outside the forced rows shares a
   * special type that forbids it; and no count passes its cap unless the
   * forced rows alone pass it.
   */
  lemma AssignTypesOk(cfg: Config, rows: Rows, s: int)
    requires IsState(s) && WellFormed(cfg) && |rows| == cfg.maxRowIndex + 1
    requires Untyped(rows) && Connected(rows)
    ensures FixedInside(cfg.specialRowNodeLimit, rows)
    ensures var (rows', counter', _) := AssignTypes(cfg, rows, s);
      && Counts(rows', counter')
      && SameGraph(rows, rows')
      && FixedRowsForced(cfg, rows')
      && OtherRowsTyped(cfg, rows')
      && NoClash(cfg, rows')
      && WithinCaps(cfg, rows')
  {
    var fixed := cfg.specialRowNodeLimit;
    var counter0 := InitialCounter(rows);
    InitialCounterCounts(rows);
    ApplyFixedOk(rows, counter0, fixed);
    var (rows1, counter1) := ApplyFixed(rows, counter0, fixed);
    FixedStage(cfg, rows, rows1);
    var (order, s1) := Shuffled(EditableNodes(cfg, rows1), s);
    ShuffledOrderGood(cfg, rows1, s);
    AssignSpecialOk(cfg, rows1, counter1, order);
    var (rows2, counter2) := AssignSpecial(cfg, rows1, counter1, order);
    assert AssignTypes(cfg, rows, s) == (rows2, counter2, s1);
    TypedAfterGreedy(cfg, rows, rows1, rows2);
    forall t: NodeType | t != Enemy
      ensures CountType(rows2, t) <= Max(cfg.nodeLimit.Of(t).maxCount, CountType(FixedPart(cfg, rows2), t))
    {
      ForcedCount(cfg, rows, rows1, rows2, t);
    }
  }
}
