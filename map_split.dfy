/**
 * `splitArray`: cut a sequence into `count` contiguous chunks at `count - 1`
 * distinct split points drawn from the generator, sorted ascending.
 *
 * The source's retry loop draws until it has enough distinct points and has
 * no bound. Here it carries fuel: one generator period, SPLIT_DRAW_LIMIT
 * draws; `None` stands for "the source would still be drawing".
 */
module MapSplit {

  import opened Wrappers
  import opened SeedRandom

  /** The draws the retry loop may make: one full period of the generator. */
  const SPLIT_DRAW_LIMIT: nat := 2147483646

  predicate Distinct(s: seq<int>) {
    forall i, j :: 0 <= i < j < |s| ==> s[i] != s[j]
  }

  predicate Within(s: seq<int>, lo: int, hi: int) {
    forall i :: 0 <= i < |s| ==> lo <= s[i] <= hi
  }

  predicate Sorted(s: seq<int>) {
    forall i, j :: 0 <= i < j < |s| ==> s[i] <= s[j]
  }

  predicate StrictlyIncreasing(s: seq<int>) {
    forall i, j :: 0 <= i < j < |s| ==> s[i] < s[j]
  }

  /**
   * The retry loop from state s with `points` already drawn (in draw order):
   * each draw is `nextInt(1, len - 1)`, kept only if it is new. The loop
   * stops once it holds count - 1 points.
   */
  function DrawSplitPoints(s: int, count: int, len: int, points: seq<int>, fuel: nat): (res: Option<(seq<int>, int)>)
    requires IsState(s)
    ensures res.Some? ==> IsState(res.value.1) && points <= res.value.0 && |res.value.0| >= count - 1
    decreases fuel
  {
    if |points| >= count - 1 then Some((points, s))
    else if fuel == 0 then None
    else
      var t := Step(s);
      var pos := Scale(t, 1, len - 1);
      DrawSplitPoints(t, count, len, if pos in points then points else points + [pos], fuel - 1)
  }

  /** Put x into its place in an ascending sequence. */
  function Insert(x: int, s: seq<int>): (r: seq<int>)
    requires Sorted(s)
    ensures Sorted(r) && multiset(r) == multiset(s) + multiset{x}
    ensures |r| == |s| + 1 && r[0] == if s == [] || x <= s[0] then x else s[0]
  {
    if s == [] then [x]
    else if x <= s[0] then
      SortedCons(x, s);
      [x] + s
    else
      var rest := Insert(x, s[1..]);
      assert s == [s[0]] + s[1..];
      assert s[0] <= rest[0] by {
        if |s| > 1 {
          assert s[0] <= s[1];
        }
      }
      SortedCons(s[0], rest);
      [s[0]] + rest
  }

  /** A head no larger than the first element keeps a sorted sequence sorted. */
  lemma SortedCons(a: int, rest: seq<int>)
    requires Sorted(rest) && |rest| > 0 && a <= rest[0]
    ensures Sorted([a] + rest)
  {
    var r := [a] + rest;
    forall i, j | 0 <= i < j < |r|
      ensures r[i] <= r[j]
    {
      if i == 0 {
        assert rest[0] <= rest[j - 1];
      }
    }
  }

  /** The ascending order `sort((a, b) => a - b)` puts numbers in. */
  function SortAsc(s: seq<int>): (r: seq<int>)
    ensures Sorted(r) && multiset(r) == multiset(s)
  {
    if s == [] then []
    else
      assert s == s[..|s| - 1] + [s[|s| - 1]];
      Insert(s[|s| - 1], SortAsc(s[..|s| - 1]))
  }

  /** The boundaries `[0, ...sorted points, len]`, and the state after the draws. */
  function SplitBounds(len: int, count: int, s: int): (res: Option<(seq<int>, int)>)
    requires IsState(s)
    ensures res.Some? ==> IsState(res.value.1)
  {
    match DrawSplitPoints(s, count, len, [], SPLIT_DRAW_LIMIT)
    case None => None
    case Some((points, t)) => Some(([0] + SortAsc(points) + [len], t))
  }

  /** JavaScript's `Array.prototype.slice(start, end)`, negative indices counting from the end. */
  function JsSlice<T>(arr: seq<T>, start: int, end: int): (r: seq<T>)
    ensures |r| <= |arr|
  {
    var n := |arr|;
    var from := if start < 0 then (if n + start < 0 then 0 else n + start) else (if start < n then start else n);
    var to := if end < 0 then (if n + end < 0 then 0 else n + end) else (if end < n then end else n);
    if from < to then arr[from..to] else []
  }

  /** One slice per pair of neighbouring boundaries, in order. */
  function Chunks<T>(arr: seq<T>, full: seq<int>): seq<seq<T>> {
    seq(if |full| > 0 then |full| - 1 else 0, i requires 0 <= i < |full| - 1 => JsSlice(arr, full[i], full[i + 1]))
  }

  /** What `splitArray(arr, count)` returns from state s, and the state it leaves. */
  function SplitArraySpec<T>(arr: seq<T>, count: int, s: int): (res: Option<(seq<seq<T>>, int)>)
    requires IsState(s)
    ensures res.Some? ==> IsState(res.value.1)
    ensures res.None? <==> SplitBounds(|arr|, count, s).None?
  {
    match SplitBounds(|arr|, count, s)
    case None => None
    case Some((full, t)) => Some((Chunks(arr, full), t))
  }

  /** The concatenation of the chunks, in order. */
  function Flatten<T>(chunks: seq<seq<T>>): seq<T> {
    if chunks == [] then [] else Flatten(chunks[..|chunks| - 1]) + chunks[|chunks| - 1]
  }

  /** Boundaries that cut a sequence of length `len` into non-empty pieces. */
  predicate Cuts(full: seq<int>, len: int) {
    |full| >= 2 && full[0] == 0 && full[|full| - 1] == len && StrictlyIncreasing(full)
  }

  // ---------------------------------------------------------------------
  // Properties
  // ---------------------------------------------------------------------

  /** Distinct integers from [1, n] number at most n (the pigeonhole principle). */
  lemma {:induction false} DistinctWithinBound(s: seq<int>, n: int)
    requires n >= 0 && Distinct(s) && Within(s, 1, n)
    ensures |s| <= n
    decreases n
  {
    if s != [] {
      assert 1 <= s[0] <= n;
      if k :| 0 <= k < |s| && s[k] == n {
        var rest := s[..k] + s[k + 1..];
        assert forall i :: 0 <= i < |rest| ==> rest[i] == (if i < k then s[i] else s[i + 1]);
        DistinctWithinBound(rest, n - 1);
      } else {
        DistinctWithinBound(s, n - 1);
      }
    }
  }

  /**
   * For 1 <= count <= len the loop, if it stops, holds exactly count - 1
   * distinct points, each in [1, len - 1]; for count == 1 it draws nothing.
   */
  lemma {:induction false} DrawSplitPointsValid(s: int, count: int, len: int, points: seq<int>, fuel: nat)
    requires IsState(s) && 1 <= count <= len
    requires |points| <= count - 1 && Distinct(points) && Within(points, 1, len - 1)
    ensures var res := DrawSplitPoints(s, count, len, points, fuel);
      res.Some? ==> |res.value.0| == count - 1 && Distinct(res.value.0) && Within(res.value.0, 1, len - 1)
    ensures |points| == count - 1 ==> DrawSplitPoints(s, count, len, points, fuel) == Some((points, s))
    decreases fuel
  {
    if |points| < count - 1 && fuel > 0 {
      var t := Step(s);
      ScaleInRange(t, 1, len - 1);
      var pos := Scale(t, 1, len - 1);
      DrawSplitPointsValid(t, count, len, if pos in points then points else points + [pos], fuel - 1);
    }
  }

  /**
   * With count > len >= 2 there are fewer than count - 1 candidate points,
   * so the loop never stops, however many draws it is given.
   */
  lemma {:induction false} SplitNeverEnds(s: int, count: int, len: int, points: seq<int>, fuel: nat)
    requires IsState(s) && 2 <= len < count
    requires Distinct(points) && Within(points, 1, len - 1)
    ensures DrawSplitPoints(s, count, len, points, fuel) == None
    decreases fuel
  {
    DistinctWithinBound(points, len - 1);
    if fuel > 0 {
      var t := Step(s);
      ScaleInRange(t, 1, len - 1);
      var pos := Scale(t, 1, len - 1);
      SplitNeverEnds(t, count, len, if pos in points then points else points + [pos], fuel - 1);
    }
  }

  /** A sorted sequence of distinct values is strictly increasing. */
  lemma SortedDistinct(s: seq<int>, points: seq<int>)
    requires Sorted(s) && multiset(s) == multiset(points) && Distinct(points)
    ensures StrictlyIncreasing(s)
  {
    forall i, j | 0 <= i < j < |s|
      ensures s[i] < s[j]
    {
      if s[i] == s[j] {
        assert multiset(s)[s[i]] >= 2 by {
          assert s == s[..j] + [s[j]] + s[j + 1..];
          assert s[i] in multiset(s[..j]);
        }
        MultiplicityOfDistinct(points, s[i]);
        assert false;
      }
    }
  }

  lemma {:induction false} MultiplicityOfDistinct(s: seq<int>, x: int)
    requires Distinct(s)
    ensures multiset(s)[x] <= 1
  {
    if s != [] {
      var init := s[..|s| - 1];
      assert s == init + [s[|s| - 1]];
      MultiplicityOfDistinct(init, x);
      if x == s[|s| - 1] {
        assert x !in init;
      }
    }
  }

  /** Strictly increasing points in [1, len - 1], framed by 0 and len, cut [0, len) into non-empty pieces. */
  lemma FramedCuts(sorted: seq<int>, len: int)
    requires len >= 1 && StrictlyIncreasing(sorted) && Within(sorted, 1, len - 1)
    ensures Cuts([0] + sorted + [len], len)
  {
    var full := [0] + sorted + [len];
    assert forall k :: 0 <= k < |sorted| ==> full[k + 1] == sorted[k];
    forall i, j | 0 <= i < j < |full|
      ensures full[i] < full[j]
    {
      if 0 < i {
        assert full[i] == sorted[i - 1];
      }
      if j < |full| - 1 {
        assert full[j] == sorted[j - 1];
      }
    }
  }

  /** Distinct points in [1, len - 1], sorted and framed by 0 and len, cut [0, len) into non-empty pieces. */
  lemma CutsFromPoints(points: seq<int>, len: int)
    requires len >= 1 && Distinct(points) && Within(points, 1, len - 1)
    ensures |[0] + SortAsc(points) + [len]| == |points| + 2
    ensures Cuts([0] + SortAsc(points) + [len], len)
  {
    var sorted := SortAsc(points);
    SortedDistinct(sorted, points);
    forall i | 0 <= i < |sorted|
      ensures 1 <= sorted[i] <= len - 1
    {
      assert sorted[i] in multiset(points);
    }
    FramedCuts(sorted, len);
  }

  /** For 1 <= count <= len a completed split yields count + 1 cuts of [0, len). */
  lemma SplitBoundsValid(len: int, count: int, s: int)
    requires IsState(s) && 1 <= count <= len
    ensures var res := SplitBounds(len, count, s);
      res.Some? ==> |res.value.0| == count + 1 && Cuts(res.value.0, len)
  {
    DrawSplitPointsValid(s, count, len, [], SPLIT_DRAW_LIMIT);
    var res := DrawSplitPoints(s, count, len, [], SPLIT_DRAW_LIMIT);
    if res.Some? {
      CutsFromPoints(res.value.0, len);
    }
  }

  /** With count > len >= 2 the split never completes. */
  lemma SplitBoundsNeverEnd(len: int, count: int, s: int)
    requires IsState(s) && 2 <= len < count
    ensures SplitBounds(len, count, s) == None
  {
    SplitNeverEnds(s, count, len, [], SPLIT_DRAW_LIMIT);
  }

  /** With count <= 1 no split point is needed, and nothing is drawn. */
  lemma SplitBoundsNoDraw(len: int, count: int, s: int)
    requires IsState(s) && count <= 1
    ensures SplitBounds(len, count, s) == Some(([0, len], s))
  {
    assert DrawSplitPoints(s, count, len, [], SPLIT_DRAW_LIMIT) == Some(([], s));
    assert [0] + SortAsc([]) + [len] == [0, len];
  }

  /** Inside the bounds `slice` is plain subsequence extraction. */
  lemma JsSliceInRange<T>(arr: seq<T>, start: int, end: int)
    requires 0 <= start <= end <= |arr|
    ensures JsSlice(arr, start, end) == arr[start..end]
  {
  }

  /** Slicing between neighbouring cuts and concatenating gives back the prefix up to the last cut. */
  lemma {:induction false} FlattenChunks<T>(arr: seq<T>, full: seq<int>)
    requires |full| >= 1 && full[0] == 0
    requires forall i :: 0 <= i < |full| ==> 0 <= full[i] <= |arr|
    requires forall i :: 0 <= i < |full| - 1 ==> full[i] <= full[i + 1]
    ensures Flatten(Chunks(arr, full)) == arr[..full[|full| - 1]]
  {
    var n := |full|;
    if n > 1 {
      var init := full[..n - 1];
      assert forall i :: 0 <= i < |init| - 1 ==> init[i] <= init[i + 1];
      FlattenChunks(arr, init);
      var c := Chunks(arr, full);
      ChunksInit(arr, full);
      var a, b := full[n - 2], full[n - 1];
      JsSliceInRange(arr, a, b);
      assert Flatten(c) == Flatten(c[..n - 2]) + c[n - 2];
      assert arr[..b] == arr[..a] + arr[a..b];
    }
  }

  /** Dropping the last cut drops the last chunk. */
  lemma ChunksInit<T>(arr: seq<T>, full: seq<int>)
    requires |full| >= 2
    ensures Chunks(arr, full)[..|full| - 2] == Chunks(arr, full[..|full| - 1])
  {
    var n := |full|;
    var c, ci := Chunks(arr, full), Chunks(arr, full[..n - 1]);
    forall k | 0 <= k < n - 2
      ensures c[k] == ci[k]
    {
      assert full[..n - 1][k] == full[k] && full[..n - 1][k + 1] == full[k + 1];
    }
  }

  /**
   * For 1 <= count <= |arr| the chunks, when the split completes, are exactly
   * `count` non-empty pieces whose concatenation is `arr`.
   */
  lemma SplitArrayChunks<T>(arr: seq<T>, count: int, s: int)
    requires IsState(s) && 1 <= count <= |arr|
    ensures var res := SplitArraySpec(arr, count, s);
      res.Some? ==>
        && |res.value.0| == count
        && (forall i :: 0 <= i < count ==> |res.value.0[i]| > 0)
        && Flatten(res.value.0) == arr
  {
    SplitBoundsValid(|arr|, count, s);
    var b := SplitBounds(|arr|, count, s);
    if b.Some? {
      var full := b.value.0;
      var chunks := Chunks(arr, full);
      assert SplitArraySpec(arr, count, s).value.0 == chunks;
      forall i | 0 <= i < |full|
        ensures 0 <= full[i] <= |arr|
      {
        assert full[0] <= full[i] && full[i] <= full[|full| - 1];
      }
      forall i | 0 <= i < count
        ensures |chunks[i]| > 0
      {
        assert full[i] < full[i + 1];
        JsSliceInRange(arr, full[i], full[i + 1]);
      }
      FlattenChunks(arr, full);
      assert arr[..|arr|] == arr;
    }
  }

  /** Splitting with count > |arr| >= 2 never completes. */
  lemma SplitArrayNeverEnds<T>(arr: seq<T>, count: int, s: int)
    requires IsState(s) && 2 <= |arr| < count
    ensures SplitArraySpec(arr, count, s) == None
  {
    SplitBoundsNeverEnd(|arr|, count, s);
  }
}
