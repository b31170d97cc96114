/**
 * A whole act and the whole run map: topology, then wiring, then node types,
 * each stage taking the generator state the previous one left; acts are
 * generated one after the other from one generator.
 */
module MapGeneration {

  import opened Wrappers
  import opened SeedRandom
  import opened MapConfig
  import opened MapGraph
  import opened MapTopology
  import opened MapPaths
  import opened MapNodeTypes

  /** The seed the constructor falls back to when given none, or 0. */
  const DEFAULT_SEED: int := 12345

  /** Stages 1 and 2 of `generateSingleAct` from state s; None when a split would still be drawing. */
  function Skeleton(cfg: Config, actId: int, s: int): (res: Option<(Rows, int)>)
    requires IsState(s) && WellFormed(cfg)
    ensures res.Some? ==> |res.value.0| == cfg.maxRowIndex + 1 && IsState(res.value.1)
  {
    var (rows0, s1) := Topology(cfg, actId, 0, s);
    TopologyNonEmpty(cfg, actId, s);
    ConnectFrom(rows0, 0, s1)
  }

  /** `generateSingleAct(actId)` from state s: the act and the state it leaves. */
  function GenerateAct(cfg: Config, actId: int, s: int): (res: Option<(ActMap, int)>)
    requires IsState(s) && WellFormed(cfg)
    ensures res.Some? ==> IsState(res.value.1)
  {
    match Skeleton(cfg, actId, s)
    case None => None
    case Some((rows1, s2)) =>
      var (rows2, _, s3) := AssignTypes(cfg, rows1, s2);
      Some((ActMap(actId, rows2), s3))
  }

  /**
   * The `for` loop of `initMap`: acts actId, actId + 1, ... while fewer than n
   * have been made, from state s, stopping early at an act whose split would
   * still be drawing.
   */
  function GenerateActs(cfg: Config, actId: int, n: int, s: int): (acts: seq<ActMap>)
    requires IsState(s) && WellFormed(cfg)
    ensures |acts| <= if n > 0 then n else 0
    ensures forall i :: 0 <= i < |acts| ==> acts[i].actId == actId + i
    decreases n
  {
    if n <= 0 then []
    else
      match GenerateAct(cfg, actId, s)
      case None => []
      case Some((act, s')) =>
        var rest := GenerateActs(cfg, actId + 1, n - 1, s');
        [act] + rest
  }

  /** One round of the `initMap` loop: no act ends the loop with what is stored, an act is appended and the rest follows. */
  lemma GenerateActsStep(cfg: Config, actId: int, n: int, s: int, stored: seq<ActMap>, all: seq<ActMap>)
    requires IsState(s) && WellFormed(cfg) && n > 0
    requires stored + GenerateActs(cfg, actId, n, s) == all
    ensures var res := GenerateAct(cfg, actId, s);
      && (res.None? ==> stored == all)
      && (res.Some? ==> (stored + [res.value.0]) + GenerateActs(cfg, actId + 1, n - 1, res.value.1) == all)
  {
    var res := GenerateAct(cfg, actId, s);
    if res.Some? {
      assert GenerateActs(cfg, actId, n, s) == [res.value.0] + GenerateActs(cfg, actId + 1, n - 1, res.value.1);
    }
  }

  /** The run map `initMap(seed)` builds. */
  function InitialMap(cfg: Config, seed: int): (m: GameMap)
    requires WellFormed(cfg)
    ensures m.seed == seed && |m.actMaps| <= cfg.actCount
    ensures forall i :: 0 <= i < |m.actMaps| ==> m.actMaps[i].actId == i + 1
  {
    GameMap(seed, GenerateActs(cfg, 1, cfg.actCount, InitialState(seed)))
  }

  /** The seed the constructor uses: JavaScript's `seed || 12345` (no seed or 0 means the default). */
  function ConstructorSeed(seed: Option<int>): (r: int)
    ensures r != 0
    ensures seed.Some? && seed.value != 0 ==> r == seed.value
  {
    if seed.None? || seed.value == 0 then DEFAULT_SEED else seed.value
  }

  // ---------------------------------------------------------------------
  // What a generated act satisfies
  // ---------------------------------------------------------------------

  /**
   * A finished act: one row per row index, each with a node count from its
   * row class; every node knows its place; the rows are wired without
   * crossings and with every node covered; forced rows hold their type, the
   * others default or allowed special nodes; no forbidden linked pair; caps
   * kept.
   */
  predicate ActOk(cfg: Config, act: ActMap) {
    var rows := act.rows;
    && |rows| == cfg.maxRowIndex + 1
    && (forall r :: 0 <= r < |rows| ==> RowRange(cfg, r).0 <= |rows[r]| <= RowRange(cfg, r).1)
    && Laid(rows, act.actId)
    && Connected(rows)
    && FixedRowsForced(cfg, rows)
    && OtherRowsTyped(cfg, rows)
    && NoClash(cfg, rows)
    && WithinCaps(cfg, rows)
  }

  /** Topology and wiring give an act of the right shape, wired, with every node still default and without an instance. */
  lemma SkeletonOk(cfg: Config, actId: int, s: int)
    requires IsState(s) && WellFormed(cfg)
    ensures var res := Skeleton(cfg, actId, s);
      res.Some? ==>
        var rows := res.value.0;
        && (forall r :: 0 <= r < |rows| ==> RowRange(cfg, r).0 <= |rows[r]| <= RowRange(cfg, r).1)
        && Laid(rows, actId)
        && Connected(rows)
        && Untyped(rows)
  {
    var (rows0, s1) := Topology(cfg, actId, 0, s);
    TopologyShape(cfg, actId, s);
    assert Unwired(rows0);
    WiringConnects(rows0, s1);
  }

  /** Every act `generateSingleAct` finishes is well formed. */
  lemma GenerateActOk(cfg: Config, actId: int, s: int)
    requires IsState(s) && WellFormed(cfg)
    ensures var res := GenerateAct(cfg, actId, s);
      res.Some? ==> res.value.0.actId == actId && ActOk(cfg, res.value.0)
  {
    var sk := Skeleton(cfg, actId, s);
    SkeletonOk(cfg, actId, s);
    if sk.Some? {
      var (rows1, s2) := sk.value;
      AssignTypesOk(cfg, rows1, s2);
      var rows2 := AssignTypes(cfg, rows1, s2).0;
      SameGraphConnected(rows1, rows2);
      SameGraphLaid(rows1, rows2, actId);
    }
  }

  /** Each act is well formed, and the acts are numbered actId, actId + 1, ... */
  predicate ActsOk(cfg: Config, acts: seq<ActMap>, actId: int)
    decreases |acts|
  {
    acts != [] ==> acts[0].actId == actId && ActOk(cfg, acts[0]) && ActsOk(cfg, acts[1..], actId + 1)
  }

  /** Every act the `initMap` loop stores is well formed, and act i has id actId + i. */
  lemma {:induction false} GenerateActsOk(cfg: Config, actId: int, n: int, s: int)
    requires IsState(s) && WellFormed(cfg)
    ensures ActsOk(cfg, GenerateActs(cfg, actId, n, s), actId)
    decreases n
  {
    if n <= 0 {
      assert GenerateActs(cfg, actId, n, s) == [];
    } else {
      match GenerateAct(cfg, actId, s)
      case None =>
        GenerateActsStop(cfg, actId, n, s);
      case Some((act, s')) =>
        GenerateActsOk(cfg, actId + 1, n - 1, s');
        GenerateActOk(cfg, actId, s);
        GenerateActsCons(cfg, actId, n, s, act, s');
        ActsOkCons(cfg, act, GenerateActs(cfg, actId + 1, n - 1, s'), actId);
    }
  }

  /** The loop stops at the first act that cannot be finished. */
  lemma GenerateActsStop(cfg: Config, actId: int, n: int, s: int)
    requires IsState(s) && WellFormed(cfg) && GenerateAct(cfg, actId, s).None?
    ensures GenerateActs(cfg, actId, n, s) == []
  {
  }

  /** One round of the loop: a finished act is followed by the acts generated after it. */
  lemma GenerateActsCons(cfg: Config, actId: int, n: int, s: int, act: ActMap, s': int)
    requires IsState(s) && WellFormed(cfg) && n > 0
    requires GenerateAct(cfg, actId, s) == Some((act, s'))
    ensures GenerateActs(cfg, actId, n, s) == [act] + GenerateActs(cfg, actId + 1, n - 1, s')
  {
  }

  /** A well-formed act with the expected id in front of well-formed acts numbered from the next id. */
  lemma ActsOkCons(cfg: Config, act: ActMap, rest: seq<ActMap>, actId: int)
    requires act.actId == actId && ActOk(cfg, act) && ActsOk(cfg, rest, actId + 1)
    ensures ActsOk(cfg, [act] + rest, actId)
  {
    assert ([act] + rest)[1..] == rest;
  }

  /**
   * The state the `initMap` loop leaves after n acts from actId, or None when
   * one of them stopped because its split would still be drawing.
   */
  function ActsEnd(cfg: Config, actId: int, n: int, s: int): (r: Option<int>)
    requires IsState(s) && WellFormed(cfg)
    ensures r.Some? ==> IsState(r.value)
    decreases n
  {
    if n <= 0 then Some(s)
    else
      match GenerateAct(cfg, actId, s)
      case None => None
      case Some((_, s')) => ActsEnd(cfg, actId + 1, n - 1, s')
  }

  /** The loop stores all n acts exactly when none of them stopped early: an act is missing only where one ran out of draws. */
  lemma {:induction false} GenerateActsComplete(cfg: Config, actId: int, n: int, s: int)
    requires IsState(s) && WellFormed(cfg)
    ensures |GenerateActs(cfg, actId, n, s)| == (if n > 0 then n else 0) <==> ActsEnd(cfg, actId, n, s).Some?
    decreases n
  {
    if n > 0 {
      var res := GenerateAct(cfg, actId, s);
      if res.Some? {
        var act: ActMap, s': int := res.value.0, res.value.1;
        GenerateActsComplete(cfg, actId + 1, n - 1, s');
        var rest := GenerateActs(cfg, actId + 1, n - 1, s');
        assert GenerateActs(cfg, actId, n, s) == [act] + rest;
        assert ActsEnd(cfg, actId, n, s) == ActsEnd(cfg, actId + 1, n - 1, s');
      } else {
        assert GenerateActs(cfg, actId, n, s) == [];
        assert ActsEnd(cfg, actId, n, s) == None;
      }
    }
  }

  /**
   * `initMap(seed)` stores the seed and at most actCount acts, all well formed,
   * numbered 1, 2, ...; all actCount of them exactly when no act stopped early.
   */
  lemma InitialMapOk(cfg: Config, seed: int)
    requires WellFormed(cfg)
    ensures var m := InitialMap(cfg, seed);
      && m.seed == seed && |m.actMaps| <= cfg.actCount && ActsOk(cfg, m.actMaps, 1)
      && (|m.actMaps| == cfg.actCount <==> ActsEnd(cfg, 1, cfg.actCount, InitialState(seed)).Some?)
  {
    GenerateActsOk(cfg, 1, cfg.actCount, InitialState(seed));
    GenerateActsComplete(cfg, 1, cfg.actCount, InitialState(seed));
  }

  // ---------------------------------------------------------------------
  // The shipped configuration
  // ---------------------------------------------------------------------

  /** Under MAP_CONFIG, the types a node of row q can have. */
  lemma ShippedRowTypes(rows: Rows, q: int)
    requires |rows| == 16 && 0 <= q < 16
    requires FixedRowsForced(MAP_CONFIG, rows) && OtherRowsTyped(MAP_CONFIG, rows)
    ensures forall c :: 0 <= c < |rows[q]| ==>
      && (q == 0 ==> rows[q][c].nodeType == Enemy)
      && (q == 14 ==> rows[q][c].nodeType == Rest)
      && (q == 15 <==> rows[q][c].nodeType == Boss)
      && (q < 4 || IsFixedRow(MAP_CONFIG, q) ==> rows[q][c].nodeType != EliteEnemy)
      && (IsFixedRow(MAP_CONFIG, q) && q != 14 ==> rows[q][c].nodeType != Rest)
  {
    MapConfigFixedRows(q);
    MapConfigLimits();
    var fixed := q == 0 || q == 14 || q == 15;
    assert fixed <==> IsFixedRow(MAP_CONFIG, q);
    forall c | 0 <= c < |rows[q]|
      ensures && (q == 0 ==> rows[q][c].nodeType == Enemy)
              && (q == 14 ==> rows[q][c].nodeType == Rest)
              && (q == 15 <==> rows[q][c].nodeType == Boss)
              && (q < 4 || fixed ==> rows[q][c].nodeType != EliteEnemy)
              && (fixed && q != 14 ==> rows[q][c].nodeType != Rest)
    {
      var t := rows[q][c].nodeType;
      if fixed {
        assert t == FixedTypeOf(MAP_CONFIG.specialRowNodeLimit, q).value;
      } else {
        assert t == Enemy || (IsSpecial(t) && q !in MAP_CONFIG.nodeLimit.Of(t).disabledRows);
        if q < 4 {
          assert q in [0, 1, 2, 3];
        }
      }
    }
  }

  /** Under MAP_CONFIG an act holds exactly one Boss, at most 5 elites and at most 10 Rest nodes. */
  lemma ShippedCounts(rows: Rows)
    requires |rows| == 16 && |rows[15]| == 1
    requires FixedRowsForced(MAP_CONFIG, rows) && OtherRowsTyped(MAP_CONFIG, rows) && WithinCaps(MAP_CONFIG, rows)
    requires forall r :: 0 <= r < |rows| ==> |rows[r]| <= 6
    ensures CountType(rows, Boss) == 1
    ensures CountType(rows, EliteEnemy) <= 5
    ensures CountType(rows, Rest) <= 10
  {
    var cfg := MAP_CONFIG;
    MapConfigLimits();
    var part := FixedPart(cfg, rows);
    forall q | 0 <= q < |rows|
      ensures q != 15 ==> CountInRow(rows[q], Boss) == 0
      ensures CountInRow(part[q], EliteEnemy) == 0
      ensures q != 14 ==> CountInRow(part[q], Rest) == 0
    {
      ShippedRowTypes(rows, q);
      if !IsFixedRow(cfg, q) {
        assert part[q] == [];
      }
      CountInRowNone(part[q], EliteEnemy);
      if q != 15 {
        CountInRowNone(rows[q], Boss);
      }
      if q != 14 {
        CountInRowNone(part[q], Rest);
      }
    }
    ShippedRowTypes(rows, 15);
    CountTypeAt(rows, Boss, 15);
    CountInUniformRow(rows[15], Boss, Boss);
    CountTypeNone(part, EliteEnemy);
    CountTypeAt(part, Rest, 14);
    assert CountType(rows, EliteEnemy) <= Max(5, CountType(part, EliteEnemy));
    assert CountType(rows, Rest) <= Max(10, CountType(part, Rest));
  }

  /**
   * Under MAP_CONFIG an act has 16 rows; the first row is all plain enemies,
   * the last a single Boss, the second to last all Rest nodes; there is
   * exactly one Boss, at most 5 elites, none in rows 0 to 3, and at most 10
   * Rest nodes.
   */
  lemma ShippedActOk(act: ActMap)
    requires ActOk(MAP_CONFIG, act)
    ensures |act.rows| == 16
    ensures forall c :: 0 <= c < |act.rows[0]| ==> act.rows[0][c].nodeType == Enemy
    ensures forall c :: 0 <= c < |act.rows[14]| ==> act.rows[14][c].nodeType == Rest
    ensures |act.rows[15]| == 1 && act.rows[15][0].nodeType == Boss
    ensures CountType(act.rows, Boss) == 1
    ensures CountType(act.rows, EliteEnemy) <= 5
    ensures CountType(act.rows, Rest) <= 10
    ensures forall r, c :: 0 <= r < 4 && 0 <= c < |act.rows[r]| ==> act.rows[r][c].nodeType != EliteEnemy
  {
    var rows := act.rows;
    assert |rows| == 16;
    assert forall r :: 0 <= r < |rows| ==> |rows[r]| <= 6;
    assert |rows[15]| == 1;
    ShippedCounts(rows);
    ShippedRowTypes(rows, 0);
    ShippedRowTypes(rows, 14);
    ShippedRowTypes(rows, 15);
    forall r, c | 0 <= r < 4 && 0 <= c < |rows[r]|
      ensures rows[r][c].nodeType != EliteEnemy
    {
      ShippedRowTypes(rows, r);
    }
  }

  /**
   * Under MAP_CONFIG no two linked nodes share a type other than Enemy: every
   * successor index names a node of the next row, and a linked pair of equal
   * types is a pair of plain enemies.
   */
  lemma ShippedNoRepeats(act: ActMap)
    requires ActOk(MAP_CONFIG, act)
    ensures forall r, c, x :: 0 <= r < |act.rows| - 1 && 0 <= c < |act.rows[r]| && x in act.rows[r][c].nextConnectedNodes ==>
      && 0 <= x < |act.rows[r + 1]|
      && (act.rows[r][c].nodeType == act.rows[r + 1][x].nodeType ==> act.rows[r][c].nodeType == Enemy)
  {
    var rows: Rows := act.rows;
    MapConfigLimits();
    forall r: int, c: int, x: int | 0 <= r < |rows| - 1 && 0 <= c < |rows[r]| && x in rows[r][c].nextConnectedNodes
      ensures 0 <= x < |rows[r + 1]|
      ensures rows[r][c].nodeType == rows[r + 1][x].nodeType ==> rows[r][c].nodeType == Enemy
    {
      assert PairOk(rows, r);
      assert PairInRange(rows[r], rows[r + 1]);
      assert PairNoClash(MAP_CONFIG, rows[r], rows[r + 1], r);
      ShippedRowTypes(rows, r);
      ShippedRowTypes(rows, r + 1);
      MapConfigFixedRows(r);
      MapConfigFixedRows(r + 1);
    }
  }

  /** The shipped run map: three acts at most, each as ShippedActOk describes; all three unless an act stopped early. */
  lemma ShippedMapOk(seed: int)
    ensures var m := InitialMap(MAP_CONFIG, seed);
      && |m.actMaps| <= 3 && ActsOk(MAP_CONFIG, m.actMaps, 1)
      && (|m.actMaps| == 3 <==> ActsEnd(MAP_CONFIG, 1, 3, InitialState(seed)).Some?)
  {
    MapConfigWellFormed();
    InitialMapOk(MAP_CONFIG, seed);
  }
}
