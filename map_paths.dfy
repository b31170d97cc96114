/**
 * Stage 2 of act generation: wiring each pair of adjacent rows.
 *
 * The smaller row of a pair (the upper one when the sizes are equal) has k
 * nodes; the larger row is cut into k contiguous chunks at the boundaries
 * `full` (`full[i] .. full[i + 1] - 1` is chunk i). Small node i is linked to
 * every node of chunk i and, when coin i comes up, to the first node of
 * chunk i + 1. When the upper row is the larger one, the roles of the
 * successor and predecessor lists swap.
 */
module MapPaths {

  import opened Wrappers
  import opened SeedRandom
  import opened MapGraph
  import opened MapSplit

  /** lo, lo + 1, ..., hi - 1. */
  function Range(lo: int, hi: int): seq<int> {
    seq(if lo < hi then hi - lo else 0, k => lo + k)
  }

  /** Small node i and large node j are linked: j lies in chunk i, or j opens chunk i + 1 and coin i came up. */
  predicate Linked(full: seq<int>, coins: seq<bool>, i: int, j: int) {
    && 0 <= i < |full| - 1
    && (|| full[i] <= j < full[i + 1]
        || (i + 1 < |full| - 1 && i < |coins| && coins[i] && j == full[i + 1]))
  }

  /** The columns small node i is linked to, in the order they are pushed: chunk i, then the extra node. */
  function Targets(full: seq<int>, coins: seq<bool>, i: int): seq<int> {
    if 0 <= i < |full| - 1 then
      Range(full[i], full[i + 1])
      + (if i + 1 < |full| - 1 && i < |coins| && coins[i] then [full[i + 1]] else [])
    else []
  }

  /** The small nodes below n linked to large node j, ascending (the order the loop visits them). */
  function Sources(full: seq<int>, coins: seq<bool>, j: int, n: int): seq<int>
    decreases n
  {
    if n <= 0 then []
    else Sources(full, coins, j, n - 1) + (if Linked(full, coins, n - 1, j) then [n - 1] else [])
  }

  /**
   * The coin flips `pick([true, false])` makes from state s, one per chunk
   * boundary: n of them, the i-th from the state after i draws; it comes up
   * `true` when the draw picks index 0.
   */
  function Coins(s: int, n: int): seq<bool>
    requires IsState(s)
  {
    seq(if n > 0 then n else 0, i requires 0 <= i => DrawInt(Advance(s, i), 0, 1) == 0)
  }

  /** Append `cols` to the successor list (toNext) or to the predecessor list of a node. */
  function Attach(node: MapNode, cols: seq<int>, toNext: bool): MapNode {
    if toNext then node.(nextConnectedNodes := node.nextConnectedNodes + cols)
    else node.(prevConnectedNodes := node.prevConnectedNodes + cols)
  }

  /** The smaller row after the loop: node i gains its Targets on the side `toNext` selects. */
  function SmallSide(small: seq<MapNode>, full: seq<int>, coins: seq<bool>, toNext: bool): (r: seq<MapNode>)
    ensures |r| == |small|
  {
    seq(|small|, c requires 0 <= c < |small| => Attach(small[c], Targets(full, coins, c), toNext))
  }

  /** The larger row after the loop: node j gains its Sources among the k small nodes. */
  function LargeSide(large: seq<MapNode>, full: seq<int>, coins: seq<bool>, k: int, toNext: bool): (r: seq<MapNode>)
    ensures |r| == |large|
  {
    seq(|large|, x requires 0 <= x < |large| => Attach(large[x], Sources(full, coins, x, k), toNext))
  }

  /**
   * `generateValidPathForTwoRows(rows[r], rows[r + 1])` from state s: the rows
   * afterwards and the state left, or None when the split would still be
   * drawing. A larger upper row swaps the roles (`reverse`), so the split is
   * always of the larger row by the smaller row's size.
   */
  function ConnectPair(rows: Rows, r: int, s: int): (res: Option<(Rows, int)>)
    requires 0 <= r && r + 1 < |rows| && IsState(s)
    ensures res.Some? ==> SameSizes(res.value.0, rows) && IsState(res.value.1)
  {
    match WireRows(rows[r], rows[r + 1], false, s)
    case None => None
    case Some((upper, lower, t)) => Some((rows[r := upper][r + 1 := lower], t))
  }

  /** `generateValidPaths`: wire the pairs (r, r + 1), (r + 1, r + 2), ... in order. */
  function ConnectFrom(rows: Rows, r: nat, s: int): (res: Option<(Rows, int)>)
    requires IsState(s) && NonEmptyRows(rows)
    ensures res.Some? ==> SameSizes(res.value.0, rows) && IsState(res.value.1)
    decreases |rows| - r
  {
    if r + 1 >= |rows| then Some((rows, s))
    else
      match ConnectPair(rows, r, s)
      case None => None
      case Some((rows', s')) => ConnectFrom(rows', r + 1, s')
  }

  /**
   * `generateValidPathForTwoRows(current, next, reverse)` from state s: both
   * rows afterwards and the state left, or None when the split would still be
   * drawing. A current row larger than the next one swaps the two and sets
   * `reverse`, which sends the small row's links to its predecessor lists.
   */
  function WireRows(current: seq<MapNode>, next: seq<MapNode>, reverse: bool, s: int): (res: Option<(seq<MapNode>, seq<MapNode>, int)>)
    requires IsState(s)
    ensures res.Some? ==> |res.value.0| == |current| && |res.value.1| == |next| && IsState(res.value.2)
    decreases if |current| > |next| then 1 else 0
  {
    if |current| > |next| then
      match WireRows(next, current, true, s)
      case None => None
      case Some((next', current', t)) => Some((current', next', t))
    else
      var k := |current|;
      match SplitBounds(|next|, k, s)
      case None => None
      case Some((full, s1)) =>
        var coins := Coins(s1, k - 1);
        Some((SmallSide(current, full, coins, !reverse), LargeSide(next, full, coins, k, reverse),
              Advance(s1, if k > 1 then k - 1 else 0)))
  }

  /**
   * The swap in `generateValidPathForTwoRows`: in either orientation the
   * upper row gains successors and the lower row predecessors; the smaller
   * row takes the SmallSide links and the larger the LargeSide links.
   */
  lemma WireRowsSides(upper: seq<MapNode>, lower: seq<MapNode>, s: int)
    requires IsState(s)
    ensures var reverse := |upper| > |lower|;
      var small := if reverse then lower else upper;
      var large := if reverse then upper else lower;
      var k := |small|;
      var b := SplitBounds(|large|, k, s);
      && (WireRows(upper, lower, false, s).Some? <==> b.Some?)
      && (b.Some? ==>
            var coins := Coins(b.value.1, k - 1);
            WireRows(upper, lower, false, s).value
              == (if reverse then LargeSide(large, b.value.0, coins, k, true) else SmallSide(small, b.value.0, coins, true),
                  if reverse then SmallSide(small, b.value.0, coins, false) else LargeSide(large, b.value.0, coins, k, false),
                  Advance(b.value.1, if k > 1 then k - 1 else 0)))
  {
    if |upper| > |lower| {
      var swapped := WireRows(lower, upper, true, s);
      assert !(|lower| > |upper|);
      assert WireRows(upper, lower, false, s)
          == if swapped.None? then None else Some((swapped.value.1, swapped.value.0, swapped.value.2));
    }
  }

  /** The chunks of the column list 0 .. len - 1 at boundaries `full` are the column ranges between them. */
  lemma ChunksOfRange(len: int, full: seq<int>)
    requires Cuts(full, len)
    ensures |Chunks(Range(0, len), full)| == |full| - 1
    ensures forall i :: 0 <= i < |full| - 1 ==> Chunks(Range(0, len), full)[i] == Range(full[i], full[i + 1])
  {
    forall i | 0 <= i < |full| - 1
      ensures Chunks(Range(0, len), full)[i] == Range(full[i], full[i + 1])
    {
      assert 0 <= full[i] < full[i + 1] <= len by {
        assert full[0] <= full[i];
        assert full[i + 1] <= full[|full| - 1];
      }
    }
  }

  /** Two pushes onto the same list are one push of both, in order. */
  lemma AttachTwice(node: MapNode, a: seq<int>, b: seq<int>, toNext: bool)
    ensures Attach(Attach(node, a, toNext), b, toNext) == Attach(node, a + b, toNext)
  {
    assert node.nextConnectedNodes + a + b == node.nextConnectedNodes + (a + b);
    assert node.prevConnectedNodes + a + b == node.prevConnectedNodes + (a + b);
  }

  /** Before the loop no node of the large row has gained anything. */
  lemma LargeSideStart(large: seq<MapNode>, full: seq<int>, coins: seq<bool>, toNext: bool)
    ensures LargeSide(large, full, coins, 0, toNext) == large
  {
    forall x | 0 <= x < |large|
      ensures LargeSide(large, full, coins, 0, toNext)[x] == large[x]
    {
      assert large[x].nextConnectedNodes + [] == large[x].nextConnectedNodes;
      assert large[x].prevConnectedNodes + [] == large[x].prevConnectedNodes;
    }
  }

  /**
   * Round i of the wiring loop on the small row: node i gets chunk i and, when
   * coin i came up, the first node of chunk i + 1; that is its Targets.
   */
  lemma SmallSideStep(small: seq<MapNode>, full: seq<int>, coins: seq<bool>, toNext: bool, i: int, extra: bool, after: seq<MapNode>)
    requires 0 <= i < |small| && |full| == |small| + 1
    requires extra <==> i + 1 < |small| && i < |coins| && coins[i]
    requires after == SmallSide(small, full, coins, toNext)
    ensures var chunk := Attach(small[i], Range(full[i], full[i + 1]), toNext);
      after[i] == if extra then Attach(chunk, [full[i + 1]], toNext) else chunk
  {
    if extra {
      AttachTwice(small[i], Range(full[i], full[i + 1]), [full[i + 1]], toNext);
    } else {
      assert Targets(full, coins, i) == Range(full[i], full[i + 1]);
    }
  }

  /** The chunks of the larger row: the column ranges between neighbouring cuts, one per small node. */
  predicate ChunkPlan(chunks: seq<seq<int>>, full: seq<int>, k: int, len: int) {
    && |chunks| == k && |full| == k + 1 && Cuts(full, len)
    && forall i :: 0 <= i < k ==> chunks[i] == Range(full[i], full[i + 1])
  }

  /**
   * After i rounds of the wiring loop: small nodes 0 .. i - 1 hold their lists,
   * the others are untouched, and every large node holds its Sources below i.
   */
  predicate RoundsDone(small: seq<MapNode>, large: seq<MapNode>, full: seq<int>, coins: seq<bool>, reverse: bool, i: int,
                       cur: seq<MapNode>, next: seq<MapNode>) {
    && |cur| == |small|
    && (forall c :: 0 <= c < |small| ==> cur[c] == if c < i then SmallSide(small, full, coins, !reverse)[c] else small[c])
    && next == LargeSide(large, full, coins, i, reverse)
  }

  /**
   * Round i of the wiring loop on the whole small row: when nodes 0 .. i - 1
   * already hold their SmallSide lists, replacing node i by its round-i value
   * extends that to nodes 0 .. i.
   */
  lemma SmallSideRound(small: seq<MapNode>, full: seq<int>, coins: seq<bool>, toNext: bool, i: int, extra: bool,
                       cur: seq<MapNode>, node: MapNode, cur': seq<MapNode>)
    requires 0 <= i < |small| && |full| == |small| + 1
    requires extra <==> i + 1 < |small| && i < |coins| && coins[i]
    requires |cur| == |small|
    requires forall c :: 0 <= c < |small| ==> cur[c] == if c < i then SmallSide(small, full, coins, toNext)[c] else small[c]
    requires var chunk := Attach(cur[i], Range(full[i], full[i + 1]), toNext);
      node == if extra then Attach(chunk, [full[i + 1]], toNext) else chunk
    requires cur' == cur[i := node]
    ensures |cur'| == |small|
    ensures forall c :: 0 <= c < |small| ==> cur'[c] == if c < i + 1 then SmallSide(small, full, coins, toNext)[c] else small[c]
  {
    SmallSideStep(small, full, coins, toNext, i, extra, SmallSide(small, full, coins, toNext));
  }

  /**
   * Round i of the wiring loop on the large row: the nodes of chunk i, and the
   * first node of chunk i + 1 when coin i came up, get small node i pushed;
   * afterwards every node holds its Sources among small nodes 0 .. i.
   */
  lemma LargeSideStep(large: seq<MapNode>, full: seq<int>, coins: seq<bool>, k: int, toNext: bool, i: int,
                      extra: bool, before: seq<MapNode>, mid: seq<MapNode>, end: seq<MapNode>)
    requires Cuts(full, |large|) && |full| == k + 1 && 0 <= i < k
    requires extra <==> i + 1 < k && i < |coins| && coins[i]
    requires before == LargeSide(large, full, coins, i, toNext)
    requires |mid| == |large|
    requires forall x :: 0 <= x < |large| ==>
      mid[x] == if full[i] <= x < full[i + 1] then Attach(before[x], [i], toNext) else before[x]
    requires end == if extra then mid[full[i + 1] := Attach(mid[full[i + 1]], [i], toNext)] else mid
    ensures end == LargeSide(large, full, coins, i + 1, toNext)
  {
    var after := LargeSide(large, full, coins, i + 1, toNext);
    assert full[i + 1] <= full[k] == |large| by {
      assert StrictlyIncreasing(full);
    }
    forall x | 0 <= x < |large|
      ensures end[x] == after[x]
    {
      assert Sources(full, coins, x, i + 1) == Sources(full, coins, x, i) + (if Linked(full, coins, i, x) then [i] else []);
      if Linked(full, coins, i, x) {
        AttachTwice(large[x], Sources(full, coins, x, i), [i], toNext);
      } else {
        assert Sources(full, coins, x, i + 1) == Sources(full, coins, x, i);
      }
    }
  }

  // ---------------------------------------------------------------------
  // Frames
  // ---------------------------------------------------------------------

  /** b differs from a at most in the successor lists. */
  predicate OnlyNext(a: seq<MapNode>, b: seq<MapNode>) {
    |a| == |b| && forall c :: 0 <= c < |a| ==> b[c] == a[c].(nextConnectedNodes := b[c].nextConnectedNodes)
  }

  /** b differs from a at most in the predecessor lists. */
  predicate OnlyPrev(a: seq<MapNode>, b: seq<MapNode>) {
    |a| == |b| && forall c :: 0 <= c < |a| ==> b[c] == a[c].(prevConnectedNodes := b[c].prevConnectedNodes)
  }

  /** Two nodes agree on everything but their connection lists. */
  predicate SameNode(a: MapNode, b: MapNode) {
    a.nodeId == b.nodeId && a.row == b.row && a.col == b.col && a.nodeType == b.nodeType && a.nodeInstance == b.nodeInstance
  }

  /** The arenas differ at most in connection lists. */
  predicate SameNodes(a: Rows, b: Rows) {
    SameSizes(a, b) && forall r, c :: 0 <= r < |a| && 0 <= c < |a[r]| ==> SameNode(a[r][c], b[r][c])
  }

  /** Rows r and r + 1 are wired; all other rows are untouched; row r gained successors only, row r + 1 predecessors only. */
  predicate PairStep(rows: Rows, rows': Rows, r: int)
    requires 0 <= r && r + 1 < |rows|
  {
    && |rows'| == |rows|
    && (forall q :: 0 <= q < |rows| && q != r && q != r + 1 ==> rows'[q] == rows[q])
    && OnlyNext(rows[r], rows'[r])
    && OnlyPrev(rows[r + 1], rows'[r + 1])
  }

  /** The first r pairs are wired and no list at or below row r + 1 has been written yet. */
  predicate WiredUpTo(rows: Rows, r: int)
    requires 0 <= r < |rows|
  {
    && NoPrev(rows[0])
    && (forall q :: 0 <= q < r ==> PairOk(rows, q))
    && (forall q :: r <= q < |rows| ==> NoNext(rows[q]))
    && (forall q :: r < q < |rows| ==> NoPrev(rows[q]))
  }

  /** No node has a connection yet. */
  predicate Unwired(rows: Rows) {
    forall q :: 0 <= q < |rows| ==> NoPrev(rows[q]) && NoNext(rows[q])
  }

  // ---------------------------------------------------------------------
  // The link relation
  // ---------------------------------------------------------------------

  /** Targets lists exactly the nodes small node i is linked to. */
  lemma TargetsLinked(full: seq<int>, coins: seq<bool>, i: int)
    ensures forall x :: x in Targets(full, coins, i) <==> Linked(full, coins, i, x)
  {
    if 0 <= i < |full| - 1 {
      var chunk := Range(full[i], full[i + 1]);
      forall x | full[i] <= x < full[i + 1]
        ensures x in chunk
      {
        assert chunk[x - full[i]] == x;
      }
    }
  }

  /** Sources lists exactly the small nodes below n linked to large node j. */
  lemma {:induction false} SourcesLinked(full: seq<int>, coins: seq<bool>, j: int, n: int)
    ensures forall i :: i in Sources(full, coins, j, n) <==> 0 <= i < n && Linked(full, coins, i, j)
    decreases n
  {
    if n > 0 {
      SourcesLinked(full, coins, j, n - 1);
    }
  }

  /**
   * A link from small node i reaches no further than the boundaries of
   * chunk i, and never past the end of the larger row: the extra link is only
   * made when chunk i + 1 exists.
   */
  lemma LinkedBounds(full: seq<int>, coins: seq<bool>, len: int, i: int, j: int)
    requires Cuts(full, len) && Linked(full, coins, i, j)
    ensures full[i] <= j <= full[i + 1] && 0 <= j < len
  {
    assert full[0] <= full[i];
    assert full[i + 1] <= full[|full| - 1];
    if i + 1 < |full| - 1 {
      assert full[i + 1] < full[|full| - 1];
    }
  }

  /** Every column of the larger row falls in some chunk. */
  lemma ChunkOf(full: seq<int>, len: int, j: int) returns (i: int)
    requires Cuts(full, len) && 0 <= j < len
    ensures 0 <= i < |full| - 1 && full[i] <= j < full[i + 1]
  {
    i := 0;
    while full[i + 1] <= j
      invariant 0 <= i < |full| - 1 && full[i] <= j
      decreases |full| - i
    {
      i := i + 1;
    }
  }

  // ---------------------------------------------------------------------
  // One pair is wired correctly
  // ---------------------------------------------------------------------

  /** The upper row is the smaller one: it holds the Targets, the lower row the Sources. */
  lemma PairForward(full: seq<int>, coins: seq<bool>, upper: seq<MapNode>, lower: seq<MapNode>)
    requires Cuts(full, |lower|) && |upper| == |full| - 1
    requires forall c :: 0 <= c < |upper| ==> upper[c].nextConnectedNodes == Targets(full, coins, c)
    requires forall x :: 0 <= x < |lower| ==> lower[x].prevConnectedNodes == Sources(full, coins, x, |upper|)
    ensures PairInRange(upper, lower) && PairMirrored(upper, lower)
    ensures PairNonCrossing(upper) && PairCovered(upper, lower)
  {
    forall c, x | 0 <= c < |upper| && x in upper[c].nextConnectedNodes
      ensures 0 <= x < |lower|
    {
      TargetsLinked(full, coins, c);
      LinkedBounds(full, coins, |lower|, c, x);
    }
    forall x, c | 0 <= x < |lower| && c in lower[x].prevConnectedNodes
      ensures 0 <= c < |upper|
    {
      SourcesLinked(full, coins, x, |upper|);
    }
    forall c, x | 0 <= c < |upper| && 0 <= x < |lower|
      ensures x in upper[c].nextConnectedNodes <==> c in lower[x].prevConnectedNodes
    {
      TargetsLinked(full, coins, c);
      SourcesLinked(full, coins, x, |upper|);
    }
    forall a, c, b, d | 0 <= a < c < |upper| && b in upper[a].nextConnectedNodes && d in upper[c].nextConnectedNodes
      ensures b <= d
    {
      TargetsLinked(full, coins, a);
      TargetsLinked(full, coins, c);
      LinkedBounds(full, coins, |lower|, a, b);
      LinkedBounds(full, coins, |lower|, c, d);
      assert full[a + 1] <= full[c];
    }
    forall c | 0 <= c < |upper|
      ensures |upper[c].nextConnectedNodes| > 0
    {
      assert full[c] < full[c + 1];
      TargetsLinked(full, coins, c);
      assert Linked(full, coins, c, full[c]);
      assert full[c] in Targets(full, coins, c);
    }
    forall x | 0 <= x < |lower|
      ensures |lower[x].prevConnectedNodes| > 0
    {
      var i := ChunkOf(full, |lower|, x);
      SourcesLinked(full, coins, x, |upper|);
      assert i in lower[x].prevConnectedNodes;
    }
  }

  /** The upper row is the larger one: it holds the Sources, the lower row the Targets. */
  lemma PairReverse(full: seq<int>, coins: seq<bool>, upper: seq<MapNode>, lower: seq<MapNode>)
    requires Cuts(full, |upper|) && |lower| == |full| - 1
    requires forall c :: 0 <= c < |upper| ==> upper[c].nextConnectedNodes == Sources(full, coins, c, |lower|)
    requires forall x :: 0 <= x < |lower| ==> lower[x].prevConnectedNodes == Targets(full, coins, x)
    ensures PairInRange(upper, lower) && PairMirrored(upper, lower)
    ensures PairNonCrossing(upper) && PairCovered(upper, lower)
  {
    forall c, x | 0 <= c < |upper| && x in upper[c].nextConnectedNodes
      ensures 0 <= x < |lower|
    {
      SourcesLinked(full, coins, c, |lower|);
    }
    forall x, c | 0 <= x < |lower| && c in lower[x].prevConnectedNodes
      ensures 0 <= c < |upper|
    {
      TargetsLinked(full, coins, x);
      LinkedBounds(full, coins, |upper|, x, c);
    }
    forall c, x | 0 <= c < |upper| && 0 <= x < |lower|
      ensures x in upper[c].nextConnectedNodes <==> c in lower[x].prevConnectedNodes
    {
      TargetsLinked(full, coins, x);
      SourcesLinked(full, coins, c, |lower|);
    }
    forall a, c, b, d | 0 <= a < c < |upper| && b in upper[a].nextConnectedNodes && d in upper[c].nextConnectedNodes
      ensures b <= d
    {
      SourcesLinked(full, coins, a, |lower|);
      SourcesLinked(full, coins, c, |lower|);
      LinkedBounds(full, coins, |upper|, b, a);
      LinkedBounds(full, coins, |upper|, d, c);
    }
    forall c | 0 <= c < |upper|
      ensures |upper[c].nextConnectedNodes| > 0
    {
      var i := ChunkOf(full, |upper|, c);
      SourcesLinked(full, coins, c, |lower|);
      assert i in upper[c].nextConnectedNodes;
    }
    forall x | 0 <= x < |lower|
      ensures |lower[x].prevConnectedNodes| > 0
    {
      assert full[x] < full[x + 1];
      assert full[x] in Targets(full, coins, x);
    }
  }

  /** Unswapped: the upper row is the smaller one and takes successors; the lower row takes predecessors. */
  lemma ForwardSides(small: seq<MapNode>, large: seq<MapNode>, full: seq<int>, coins: seq<bool>)
    requires Cuts(full, |large|) && |small| == |full| - 1
    requires NoNext(small) && NoPrev(large)
    ensures var upper, lower := SmallSide(small, full, coins, true), LargeSide(large, full, coins, |small|, false);
      && PairInRange(upper, lower) && PairMirrored(upper, lower)
      && PairNonCrossing(upper) && PairCovered(upper, lower)
      && OnlyNext(small, upper) && OnlyPrev(large, lower)
  {
    var upper, lower := SmallSide(small, full, coins, true), LargeSide(large, full, coins, |small|, false);
    forall c | 0 <= c < |upper|
      ensures upper[c].nextConnectedNodes == Targets(full, coins, c)
    {
      assert small[c].nextConnectedNodes == [];
    }
    forall x | 0 <= x < |lower|
      ensures lower[x].prevConnectedNodes == Sources(full, coins, x, |upper|)
    {
      assert large[x].prevConnectedNodes == [];
    }
    PairForward(full, coins, upper, lower);
  }

  /** Swapped: the upper row is the larger one and takes successors; the smaller lower row takes predecessors. */
  lemma ReverseSides(small: seq<MapNode>, large: seq<MapNode>, full: seq<int>, coins: seq<bool>)
    requires Cuts(full, |large|) && |small| == |full| - 1
    requires NoPrev(small) && NoNext(large)
    ensures var upper, lower := LargeSide(large, full, coins, |small|, true), SmallSide(small, full, coins, false);
      && PairInRange(upper, lower) && PairMirrored(upper, lower)
      && PairNonCrossing(upper) && PairCovered(upper, lower)
      && OnlyNext(large, upper) && OnlyPrev(small, lower)
  {
    var upper, lower := LargeSide(large, full, coins, |small|, true), SmallSide(small, full, coins, false);
    forall c | 0 <= c < |upper|
      ensures upper[c].nextConnectedNodes == Sources(full, coins, c, |lower|)
    {
      assert large[c].nextConnectedNodes == [];
    }
    forall x | 0 <= x < |lower|
      ensures lower[x].prevConnectedNodes == Targets(full, coins, x)
    {
      assert small[x].prevConnectedNodes == [];
    }
    PairReverse(full, coins, upper, lower);
  }

  /** Replacing rows r and r + 1 by a wired pair that changed only the facing lists is one wiring step. */
  lemma PairReplaced(rows: Rows, r: int, upper: seq<MapNode>, lower: seq<MapNode>)
    requires 0 <= r && r + 1 < |rows|
    requires OnlyNext(rows[r], upper) && OnlyPrev(rows[r + 1], lower)
    requires PairInRange(upper, lower) && PairMirrored(upper, lower)
    requires PairNonCrossing(upper) && PairCovered(upper, lower)
    ensures PairOk(rows[r := upper][r + 1 := lower], r)
    ensures PairStep(rows, rows[r := upper][r + 1 := lower], r)
  {
  }

  /**
   * Wiring rows r and r + 1, both non-empty and not yet wired between them,
   * leaves them mirrored, in range, non-crossing and covered, in the swapped
   * and the unswapped case alike, and writes only row r's successor lists and
   * row r + 1's predecessor lists.
   */
  lemma ConnectPairOk(rows: Rows, r: int, s: int)
    requires 0 <= r && r + 1 < |rows| && IsState(s)
    requires |rows[r]| > 0 && |rows[r + 1]| > 0
    requires NoNext(rows[r]) && NoPrev(rows[r + 1])
    ensures var res := ConnectPair(rows, r, s);
      res.Some? ==> PairOk(res.value.0, r) && PairStep(rows, res.value.0, r)
  {
    var reverse := |rows[r]| > |rows[r + 1]|;
    var small := if reverse then rows[r + 1] else rows[r];
    var large := if reverse then rows[r] else rows[r + 1];
    var k := |small|;
    WireRowsSides(rows[r], rows[r + 1], s);
    SplitBoundsValid(|large|, k, s);
    var b := SplitBounds(|large|, k, s);
    if b.Some? {
      var full: seq<int>, s1: int := b.value.0, b.value.1;
      var coins := Coins(s1, k - 1);
      var upper, lower := if reverse then LargeSide(large, full, coins, k, true) else SmallSide(small, full, coins, true),
                          if reverse then SmallSide(small, full, coins, false) else LargeSide(large, full, coins, k, false);
      assert ConnectPair(rows, r, s) == Some((rows[r := upper][r + 1 := lower], Advance(s1, if k > 1 then k - 1 else 0)));
      if reverse {
        ReverseSides(small, large, full, coins);
      } else {
        ForwardSides(small, large, full, coins);
      }
      PairReplaced(rows, r, upper, lower);
    }
  }

  /** Only successor lists of the upper row and predecessor lists of the lower row decide whether a pair is wired. */
  lemma PairOkKept(rows: Rows, rows': Rows, q: int)
    requires 0 <= q && q + 1 < |rows| == |rows'| && PairOk(rows, q)
    requires rows'[q] == rows[q] || OnlyPrev(rows[q], rows'[q])
    requires rows'[q + 1] == rows[q + 1] || OnlyNext(rows[q + 1], rows'[q + 1])
    ensures PairOk(rows', q)
  {
    var u, l, u', l' := rows[q], rows[q + 1], rows'[q], rows'[q + 1];
    assert |u| == |u'| && |l| == |l'|;
    assert forall c :: 0 <= c < |u| ==> u'[c].nextConnectedNodes == u[c].nextConnectedNodes;
    assert forall x :: 0 <= x < |l| ==> l'[x].prevConnectedNodes == l[x].prevConnectedNodes;
  }

  /** One wiring step moves the frontier down by a row. */
  lemma WiredStep(rows: Rows, rows': Rows, r: int)
    requires 0 <= r && r + 1 < |rows| && WiredUpTo(rows, r)
    requires PairStep(rows, rows', r) && PairOk(rows', r)
    ensures WiredUpTo(rows', r + 1)
  {
    forall q | 0 <= q < r + 1
      ensures PairOk(rows', q)
    {
      if q < r {
        PairOkKept(rows, rows', q);
      }
    }
    forall q | r + 1 <= q < |rows'|
      ensures NoNext(rows'[q])
    {
      if q == r + 1 {
        assert NoNext(rows[q]);
      }
    }
    if r == 0 {
      assert NoPrev(rows[0]);
    }
  }

  lemma PairStepSameNodes(rows: Rows, rows': Rows, r: int)
    requires 0 <= r && r + 1 < |rows| && PairStep(rows, rows', r)
    ensures SameNodes(rows, rows')
  {
  }

  lemma SameNodesTrans(a: Rows, b: Rows, c: Rows)
    requires SameNodes(a, b) && SameNodes(b, c)
    ensures SameNodes(a, c)
  {
  }

  /**
   * Wiring the remaining pairs from a frontier r: when every pair is wired,
   * the act is Connected, and nothing but connection lists has changed.
   */
  lemma {:induction false} ConnectFromConnected(rows: Rows, r: nat, s: int)
    requires IsState(s) && NonEmptyRows(rows) && r < |rows| && WiredUpTo(rows, r)
    ensures var res := ConnectFrom(rows, r, s);
      res.Some? ==> Connected(res.value.0) && SameNodes(rows, res.value.0)
    decreases |rows| - r
  {
    if r + 1 < |rows| {
      ConnectPairOk(rows, r, s);
      var step := ConnectPair(rows, r, s);
      if step.Some? {
        var (rows', s') := step.value;
        WiredStep(rows, rows', r);
        PairStepSameNodes(rows, rows', r);
        ConnectFromConnected(rows', r + 1, s');
        var res := ConnectFrom(rows, r, s);
        if res.Some? {
          SameNodesTrans(rows, rows', res.value.0);
        }
      }
    }
  }

  /** Wiring an unwired act of non-empty rows yields a Connected act with the same nodes. */
  lemma WiringConnects(rows: Rows, s: int)
    requires IsState(s) && NonEmptyRows(rows) && |rows| > 0 && Unwired(rows)
    ensures var res := ConnectFrom(rows, 0, s);
      res.Some? ==> Connected(res.value.0) && SameNodes(rows, res.value.0)
  {
    ConnectFromConnected(rows, 0, s);
  }
}
