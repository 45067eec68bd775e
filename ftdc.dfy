/**
 * The in-memory model of an FTDC metric chunk: a batch of named series that
 * share one sample count, each stored as a base value and a run of deltas.
 * `Chunk.Map` builds a key lookup; `Chunk.Clip` narrows a chunk to a time
 * window using the series keyed "start", whose values are epoch milliseconds.
 */
module Ftdc {

  datatype Option<T> = None | Some(value: T)

  /** One named series: the value at the first sample and the deltas that accumulate on it. */
  datatype Metric = Metric(Key: string, Value: int, Deltas: seq<int>)

  // ---------------------------------------------------------------------
  // Arithmetic as the Go code performs it
  // ---------------------------------------------------------------------

  /** Go's `int64(x) / 1000`: the quotient truncated toward zero (not Dafny's Euclidean division). */
  function Trunc1000(x: int): (q: int)
    ensures x >= 0 ==> 0 <= x - 1000 * q < 1000
    ensures x < 0 ==> -1000 < x - 1000 * q <= 0
  {
    if x >= 0 then x / 1000 else -((-x) / 1000)
  }

  /** The sum of a run of deltas. */
  function Sum(s: seq<int>): int
  {
    if s == [] then 0 else s[0] + Sum(s[1..])
  }

  /** The number of iterations of `for i := 0; i < n; i++` when nothing breaks. */
  function Steps(n: int): nat
  {
    if n < 0 then 0 else n
  }

  // ---------------------------------------------------------------------
  // Map: the key lookup view of a chunk
  // ---------------------------------------------------------------------

  /** The dictionary built by writing each metric under its key in slice order. */
  function MapOf(ms: seq<Metric>): map<string, Metric>
  {
    if ms == [] then map[]
    else MapOf(ms[..|ms| - 1])[ms[|ms| - 1].Key := ms[|ms| - 1]]
  }

  /** The keys that occur among the metrics. */
  function KeySet(ms: seq<Metric>): set<string>
  {
    set i | 0 <= i < |ms| :: ms[i].Key
  }

  /** No metric after position i has the key of the metric at position i. */
  predicate LastWithKey(ms: seq<Metric>, i: int)
    requires 0 <= i < |ms|
  {
    forall j :: i < j < |ms| ==> ms[j].Key != ms[i].Key
  }

  /** The dictionary holds exactly the keys of the metrics. */
  lemma {:induction false} MapOfKeys(ms: seq<Metric>)
    ensures MapOf(ms).Keys == KeySet(ms)
  {
    if ms != [] {
      var p := ms[..|ms| - 1];
      MapOfKeys(p);
      forall x | x in KeySet(ms)
        ensures x in KeySet(p) + {ms[|ms| - 1].Key}
      {
        var i :| 0 <= i < |ms| && ms[i].Key == x;
        if i < |ms| - 1 {
          assert p[i] == ms[i];
        }
      }
      forall x | x in KeySet(p)
        ensures x in KeySet(ms)
      {
        var i :| 0 <= i < |p| && p[i].Key == x;
        assert ms[i] == p[i];
      }
    }
  }

  /** A key is mapped to the last metric carrying it: later writes win. */
  lemma {:induction false} MapOfLast(ms: seq<Metric>, i: int)
    requires 0 <= i < |ms| && LastWithKey(ms, i)
    ensures ms[i].Key in MapOf(ms) && MapOf(ms)[ms[i].Key] == ms[i]
  {
    if i < |ms| - 1 {
      var p := ms[..|ms| - 1];
      forall j | i < j < |p|
        ensures p[j].Key != p[i].Key
      {
        assert p[j] == ms[j];
      }
      MapOfLast(p, i);
      assert ms[|ms| - 1].Key != ms[i].Key;
    }
  }

  // ---------------------------------------------------------------------
  // Clip: the walk over the "start" metric
  // ---------------------------------------------------------------------

  /** The position of the first metric keyed "start", the one Clip uses. */
  function StartIndex(ms: seq<Metric>): (r: Option<nat>)
    ensures r.Some? ==> r.value < |ms| && ms[r.value].Key == "start"
    ensures r.Some? ==> forall j :: 0 <= j < r.value ==> ms[j].Key != "start"
    ensures r.None? ==> forall j :: 0 <= j < |ms| ==> ms[j].Key != "start"
  {
    if ms == [] then None
    else if ms[0].Key == "start" then Some(0)
    else match StartIndex(ms[1..])
      case None => None
      case Some(k) => Some(k + 1)
  }

  /**
   * The times, in seconds, that the walk visits: starting from t, the k-th
   * step adds the truncated seconds of ds[k].
   */
  function SampleTimes(ds: seq<int>, t: int): (ts: seq<int>)
    ensures |ts| == |ds|
  {
    if ds == [] then []
    else
      var next := t + Trunc1000(ds[0]);
      [next] + SampleTimes(ds[1..], next)
  }

  /** Each visited time is the previous one (t for the first) plus one truncated delta. */
  lemma {:induction false} SampleTimesStep(ds: seq<int>, t: int, i: int)
    requires 0 <= i < |ds|
    ensures SampleTimes(ds, t)[i] == (if i == 0 then t else SampleTimes(ds, t)[i - 1]) + Trunc1000(ds[i])
  {
    if i > 0 {
      SampleTimesStep(ds[1..], t + Trunc1000(ds[0]), i - 1);
    }
  }

  /** The first position whose time reaches the bound, or |ts| when none does. */
  function FirstAtOrAbove(ts: seq<int>, bound: int): (k: nat)
    ensures k <= |ts|
    ensures forall j :: 0 <= j < k ==> ts[j] < bound
    ensures k < |ts| ==> ts[k] >= bound
  {
    if ts == [] || ts[0] >= bound then 0 else 1 + FirstAtOrAbove(ts[1..], bound)
  }

  /** How many of the times lie strictly below the bound. */
  function CountBelow(ts: seq<int>, bound: int): (c: nat)
    ensures c <= |ts|
  {
    if ts == [] then 0
    else CountBelow(ts[..|ts| - 1], bound) + (if ts[|ts| - 1] < bound then 1 else 0)
  }

  /** The count is all of the times when every one is below the bound, and none when none is. */
  lemma {:induction false} CountBelowExtremes(ts: seq<int>, bound: int)
    ensures (forall j :: 0 <= j < |ts| ==> ts[j] < bound) ==> CountBelow(ts, bound) == |ts|
    ensures (forall j :: 0 <= j < |ts| ==> ts[j] >= bound) ==> CountBelow(ts, bound) == 0
  {
    if ts != [] {
      var p := ts[..|ts| - 1];
      CountBelowExtremes(p, bound);
      assert forall j :: 0 <= j < |p| ==> p[j] == ts[j];
    }
  }

  /** The counters of the walk before the end adjustment. */
  datatype Indices = Indices(si: nat, ei: nat)

  /**
   * The walk over the visited times ts: ei counts the steps with a time below
   * et and the walk stops at the first time at or after et; si counts the
   * steps taken, that stopping one included, with a time below st.
   */
  function Walk(ts: seq<int>, st: int, et: int): Indices
  {
    var ei := FirstAtOrAbove(ts, et);
    Indices(CountBelow(ts[..if ei < |ts| then ei + 1 else |ts|], st), ei)
  }

  /** When the window is not reversed, the walk's start counter never passes its end counter. */
  lemma WalkStartAtMostEnd(ts: seq<int>, st: int, et: int)
    requires st <= et
    ensures Walk(ts, st, et).si <= Walk(ts, st, et).ei
  {
    var ei := FirstAtOrAbove(ts, et);
    if ei < |ts| {
      assert ts[..ei + 1][..ei] == ts[..ei];
    }
  }

  /** The end adjustment: one more sample when it exists, otherwise the last delta index. */
  function AdjustEnd(ei: int, n: int): int
  {
    if ei + 1 < n then ei + 1 else n - 1
  }

  /** What Clip decides: no overlap, entirely inside, or a trim to (si, ei). */
  datatype Plan = Outside | Inside | Trim(si: int, ei: int)

  /** The walk reads Deltas[0 .. n-1] of the first "start" metric, so those must exist. */
  predicate WalkReadable(ms: seq<Metric>, n: int)
  {
    match StartIndex(ms)
    case None => true
    case Some(k) => n <= |ms[k].Deltas|
  }

  /** The decision Clip takes for metrics ms, delta count n and window [st, et] in seconds. */
  function ClipPlan(ms: seq<Metric>, n: int, st: int, et: int): Plan
    requires WalkReadable(ms, n)
  {
    match StartIndex(ms)
    case None => Trim(0, 0)
    case Some(k) =>
      var m := ms[k];
      var mst := Trunc1000(m.Value);
      var met := Trunc1000(m.Value + Sum(m.Deltas));
      if met < st || mst > et then Outside
      else if mst > st && met < et then Inside
      else
        var w := Walk(SampleTimes(m.Deltas[..Steps(n)], mst), st, et);
        Trim(w.si, AdjustEnd(w.ei, n))
  }

  /** The new delta count Clip stores: ei - si after a trim, the old count otherwise. */
  function ClippedNDeltas(p: Plan, n: int): int
  {
    match p
    case Trim(si, ei) => ei - si
    case _ => n
  }

  /** The re-slicing `m.Deltas[:si]` and `m.Deltas[si:ei+1]` stays in bounds for every metric. */
  predicate ReslicesInBounds(ms: seq<Metric>, n: int, st: int, et: int)
    requires WalkReadable(ms, n)
  {
    match ClipPlan(ms, n, st, et)
    case Trim(si, ei) => forall j :: 0 <= j < |ms| ==> 0 <= si <= ei + 1 <= |ms[j].Deltas|
    case _ => true
  }

  /** Every metric has exactly n deltas: the invariant the chunk format is meant to keep. */
  predicate Aligned(ms: seq<Metric>, n: int)
  {
    forall j :: 0 <= j < |ms| ==> |ms[j].Deltas| == n
  }

  // ---------------------------------------------------------------------
  // Properties of Clip's decision
  // ---------------------------------------------------------------------

  /** Clip reports no overlap exactly when there is a start metric whose span misses the window. */
  lemma ClipOutsideIff(ms: seq<Metric>, n: int, st: int, et: int)
    requires WalkReadable(ms, n)
    ensures ClipPlan(ms, n, st, et).Outside? <==>
      (StartIndex(ms).Some? &&
       var m := ms[StartIndex(ms).value];
       Trunc1000(m.Value + Sum(m.Deltas)) < st || Trunc1000(m.Value) > et)
  {
  }

  /** The fast path is taken exactly when the span overlaps and lies strictly inside the window. */
  lemma ClipInsideIff(ms: seq<Metric>, n: int, st: int, et: int)
    requires WalkReadable(ms, n)
    ensures ClipPlan(ms, n, st, et).Inside? <==>
      (StartIndex(ms).Some? &&
       var m := ms[StartIndex(ms).value];
       var mst := Trunc1000(m.Value);
       var met := Trunc1000(m.Value + Sum(m.Deltas));
       !(met < st || mst > et) && mst > st && met < et)
  {
  }

  /** A span that starts or ends exactly on the window boundary is walked, not fast-pathed. */
  lemma ClipBoundaryIsWalked(ms: seq<Metric>, n: int, st: int, et: int)
    requires WalkReadable(ms, n) && st <= et
    requires StartIndex(ms).Some?
    requires var m := ms[StartIndex(ms).value];
      Trunc1000(m.Value) == st || Trunc1000(m.Value + Sum(m.Deltas)) == et
    requires var m := ms[StartIndex(ms).value];
      st <= Trunc1000(m.Value + Sum(m.Deltas)) && Trunc1000(m.Value) <= et
    ensures ClipPlan(ms, n, st, et).Trim?
  {
  }

  /**
   * Without a "start" metric the checks and the walk are skipped, si and ei
   * stay 0, and the new delta count is 0.
   */
  lemma ClipWithoutStart(ms: seq<Metric>, n: int, st: int, et: int)
    requires forall j :: 0 <= j < |ms| ==> ms[j].Key != "start"
    ensures WalkReadable(ms, n)
    ensures ClipPlan(ms, n, st, et) == Trim(0, 0)
    ensures ClippedNDeltas(ClipPlan(ms, n, st, et), n) == 0
    ensures ReslicesInBounds(ms, n, st, et) <==> forall j :: 0 <= j < |ms| ==> 1 <= |ms[j].Deltas|
  {
  }

  /**
   * The trimmed indices: si is the walk's start counter; the end index is the
   * walk's end counter plus one when that stays below n, and n - 1 otherwise,
   * so it never exceeds n - 1 (which is -1 when n is 0).
   */
  lemma ClipTrimIndices(ms: seq<Metric>, n: int, st: int, et: int)
    requires WalkReadable(ms, n)
    requires StartIndex(ms).Some? && ClipPlan(ms, n, st, et).Trim?
    ensures var m := ms[StartIndex(ms).value];
      var w := Walk(SampleTimes(m.Deltas[..Steps(n)], Trunc1000(m.Value)), st, et);
      var p := ClipPlan(ms, n, st, et);
      && w.ei <= Steps(n)
      && p.si == w.si
      && p.ei <= n - 1
      && (w.ei + 1 < n ==> p.ei == w.ei + 1)
      && (w.ei + 1 >= n ==> p.ei == n - 1)
  {
  }

  /**
   * For a window with st <= et and a non-negative delta count, the new delta
   * count is at least -1: the start
   * counter never passes the walk's end counter, and the adjustment lowers the
   * end by at most one.
   */
  lemma ClipNDeltasAtLeastMinusOne(ms: seq<Metric>, n: int, st: int, et: int)
    requires WalkReadable(ms, n) && st <= et && 0 <= n
    ensures ClippedNDeltas(ClipPlan(ms, n, st, et), n) >= -1 || !ClipPlan(ms, n, st, et).Trim?
  {
    match StartIndex(ms)
    case None =>
    case Some(k) =>
      var m := ms[k];
      var ts := SampleTimes(m.Deltas[..Steps(n)], Trunc1000(m.Value));
      WalkStartAtMostEnd(ts, st, et);
  }

  /**
   * An aligned chunk clipped to a window with st <= et never re-slices out of
   * bounds when it has a start metric.
   */
  lemma AlignedClipReslicesInBounds(ms: seq<Metric>, n: int, st: int, et: int)
    requires Aligned(ms, n) && st <= et && StartIndex(ms).Some?
    requires 0 <= n
    ensures WalkReadable(ms, n)
    ensures ReslicesInBounds(ms, n, st, et)
  {
    var k := StartIndex(ms).value;
    assert |ms[k].Deltas| == n;
    if ClipPlan(ms, n, st, et).Trim? {
      ClipNDeltasAtLeastMinusOne(ms, n, st, et);
    }
  }

  /**
   * The metrics are kept while the delta count shrinks, so a trim with a
   * start metric always leaves an aligned chunk misaligned.
   */
  lemma ClipTrimBreaksAlignment(ms: seq<Metric>, n: int, st: int, et: int)
    requires Aligned(ms, n) && StartIndex(ms).Some?
    requires ClipPlan(ms, n, st, et).Trim?
    ensures !Aligned(ms, ClippedNDeltas(ClipPlan(ms, n, st, et), n))
  {
    var k := StartIndex(ms).value;
    assert |ms[k].Deltas| == n;
  }

  /**
   * The two early exits look at the metrics only, not at the delta count, so
   * a repeated Clip on the unchanged metrics takes the same exit.
   */
  lemma ClipExitIgnoresNDeltas(ms: seq<Metric>, n1: int, n2: int, st: int, et: int)
    requires WalkReadable(ms, n1) && WalkReadable(ms, n2)
    ensures ClipPlan(ms, n1, st, et).Outside? == ClipPlan(ms, n2, st, et).Outside?
    ensures ClipPlan(ms, n1, st, et).Inside? == ClipPlan(ms, n2, st, et).Inside?
  {
  }

  /**
   * Clipping again to the same window does not take an early exit: after a
   * trim with a start metric, the same window trims again, with a strictly
   * smaller delta count each time.
   */
  lemma ClipRepeatShrinks(ms: seq<Metric>, n: int, st: int, et: int)
    requires WalkReadable(ms, n) && StartIndex(ms).Some? && ClipPlan(ms, n, st, et).Trim?
    ensures var n2 := ClippedNDeltas(ClipPlan(ms, n, st, et), n);
      n2 < n && WalkReadable(ms, n2) && ClipPlan(ms, n2, st, et).Trim?
  {
    var n2 := ClippedNDeltas(ClipPlan(ms, n, st, et), n);
    ClipTrimIndices(ms, n, st, et);
    ClipExitIgnoresNDeltas(ms, n, n2, st, et);
  }

  /**
   * With a start metric and a delta count of 0, a Clip that passes both early
   * exits sets the delta count to -1, because ei is clamped to n - 1.
   */
  lemma ClipZeroNDeltasGivesMinusOne(ms: seq<Metric>, st: int, et: int)
    requires StartIndex(ms).Some? && ClipPlan(ms, 0, st, et).Trim?
    ensures ClippedNDeltas(ClipPlan(ms, 0, st, et), 0) == -1
  {
    ClipTrimIndices(ms, 0, st, et);
  }

  // ---------------------------------------------------------------------
  // Worked examples
  // ---------------------------------------------------------------------

  /** Sample times 1s, 2s, 3s, 4s clipped to [2s, 3s]: si = 0, ei = 2, three deltas become two. */
  lemma ExampleClipTwoToThree()
    ensures ClipPlan([Metric("start", 1000, [1000, 1000, 1000])], 3, 2, 3) == Trim(0, 2)
  {
    var ds := [1000, 1000, 1000];
    assert ds[..3] == ds;
    var ts := SampleTimes(ds, 1);
    assert ts == [2, 3, 4];
    assert FirstAtOrAbove(ts, 3) == 1;
    assert ts[..2] == [2, 3] && [2, 3][..1] == [2];
    assert CountBelow(ts[..2], 2) == 0;
  }

  /**
   * Clipping the same chunk to [2s, 3s] again and again: the delta count goes
   * 3, 2, 1, 0, -1, and the Clip that starts from -1 re-slices out of bounds.
   */
  lemma ExampleRepeatedClip()
    ensures ClipPlan([Metric("start", 1000, [1000, 1000, 1000])], 2, 2, 3) == Trim(0, 1)
    ensures ClipPlan([Metric("start", 1000, [1000, 1000, 1000])], 1, 2, 3) == Trim(0, 0)
    ensures ClipPlan([Metric("start", 1000, [1000, 1000, 1000])], 0, 2, 3) == Trim(0, -1)
    ensures !ReslicesInBounds([Metric("start", 1000, [1000, 1000, 1000])], -1, 2, 3)
  {
    var ds := [1000, 1000, 1000];
    assert Sum(ds) == 3000;
    assert ClipPlan([Metric("start", 1000, ds)], 2, 2, 3) == Trim(0, 1) by {
      assert ds[..2] == [1000, 1000];
      var ts := SampleTimes([1000, 1000], 1);
      assert ts == [2, 3];
      assert FirstAtOrAbove(ts, 3) == 1;
      assert ts[..2] == ts && ts[..1] == [2];
      assert CountBelow(ts, 2) == 0;
    }
    assert ClipPlan([Metric("start", 1000, ds)], 1, 2, 3) == Trim(0, 0) by {
      assert ds[..1] == [1000];
      var ts := SampleTimes([1000], 1);
      assert ts == [2];
      assert FirstAtOrAbove(ts, 3) == 1;
      assert ts[..1] == ts;
      assert CountBelow(ts, 2) == 0;
    }
    assert ClipPlan([Metric("start", 1000, ds)], 0, 2, 3) == Trim(0, -1) by {
      assert ds[..0] == [];
    }
    assert ClipPlan([Metric("start", 1000, ds)], -1, 2, 3) == Trim(0, -2) by {
      assert ds[..0] == [];
    }
  }

  /** The same chunk clipped to [10s, 20s] does not overlap. */
  lemma ExampleClipAfter()
    ensures ClipPlan([Metric("start", 1000, [1000, 1000, 1000])], 3, 10, 20) == Outside
  {
    assert Sum([1000, 1000, 1000]) == 3000;
  }

  /** The same chunk clipped to [0s, 10s] lies entirely inside. */
  lemma ExampleClipAround()
    ensures ClipPlan([Metric("start", 1000, [1000, 1000, 1000])], 3, 0, 10) == Inside
  {
    assert Sum([1000, 1000, 1000]) == 3000;
  }

  /** A start metric at 5s, a delta count of 0 and the window [5s, 5s]: the walk is reached and the new delta count is -1. */
  lemma ExampleNoDeltasGivesMinusOne()
    ensures ClipPlan([Metric("start", 5000, [])], 0, 5, 5) == Trim(0, -1)
  {
  }

  /**
   * Per-delta truncation loses the sub-second parts that the span check keeps:
   * Value 0 with deltas [999, 999] spans [0s, 1s], yet both walked times are 0s,
   * so clipping to [1s, 1s] gives si = 2 > ei = 1.
   */
  lemma ExampleStartPastEnd()
    ensures ClipPlan([Metric("start", 0, [999, 999])], 2, 1, 1) == Trim(2, 1)
  {
    var ds := [999, 999];
    assert ds[..2] == ds;
    assert Sum(ds) == 1998;
    var ts := SampleTimes(ds, 0);
    assert ts == [0, 0];
    assert FirstAtOrAbove(ts, 1) == 2;
    assert ts[..2] == ts && ts[..1] == [0];
    assert CountBelow(ts, 1) == 2;
  }

  /**
   * The walk has taken i steps without stopping: every time so far is below
   * et, ei is i, and si counts the times so far below st.
   */
  ghost predicate WalkedSoFar(ts: seq<int>, st: int, et: int, i: int, si: int, ei: int)
  {
    && 0 <= i <= |ts|
    && (forall j :: 0 <= j < i ==> ts[j] < et)
    && ei == i
    && si == CountBelow(ts[..i], st)
  }

  /** A step to a time below et keeps the walk going; si grows exactly when that time is below st. */
  lemma WalkContinues(ts: seq<int>, st: int, et: int, i: int, si: int, ei: int)
    requires WalkedSoFar(ts, st, et, i, si, ei) && i < |ts| && ts[i] < et
    ensures WalkedSoFar(ts, st, et, i + 1, si + (if ts[i] < st then 1 else 0), ei + 1)
  {
    assert ts[..i + 1][..i] == ts[..i];
  }

  /** A step to a time at or after et stops the walk there, after that time has been counted against st. */
  lemma WalkStops(ts: seq<int>, st: int, et: int, i: int, si: int, ei: int)
    requires WalkedSoFar(ts, st, et, i, si, ei) && i < |ts| && ts[i] >= et
    ensures Walk(ts, st, et) == Indices(si + (if ts[i] < st then 1 else 0), ei)
  {
    assert ts[..i + 1][..i] == ts[..i];
  }

  /** A walk that took every step without stopping has the reference counters. */
  lemma WalkRunsOut(ts: seq<int>, st: int, et: int, si: int, ei: int)
    requires WalkedSoFar(ts, st, et, |ts|, si, ei)
    ensures Walk(ts, st, et) == Indices(si, ei)
  {
    assert ts[..|ts|] == ts;
  }

  /** One step of the walk over the first n deltas moves t from the previous visited time to the next. */
  lemma WalkAdvance(ds: seq<int>, n: int, mst: int, i: int, t: int)
    requires 0 <= i < Steps(n) <= |ds|
    requires t == if i == 0 then mst else SampleTimes(ds[..Steps(n)], mst)[i - 1]
    ensures t + Trunc1000(ds[i]) == SampleTimes(ds[..Steps(n)], mst)[i]
  {
    SampleTimesStep(ds[..Steps(n)], mst, i);
  }

  /**
   * The inner loop of Clip over the start metric's deltas ds: t starts at mst
   * and each of the first n steps adds one truncated delta; si counts the
   * times below st, ei the times below et, and the loop stops at the first
   * time at or after et.
   */
  method WalkCounters(ds: seq<int>, n: int, mst: int, st: int, et: int) returns (si: nat, ei: nat)
    requires n <= |ds|
    ensures Indices(si, ei) == Walk(SampleTimes(ds[..Steps(n)], mst), st, et)
  {
    ghost var ts := SampleTimes(ds[..Steps(n)], mst);
    si, ei := 0, 0;
    var t := mst;
    var i := 0;
    while i < n
      invariant Steps(n) == |ts|
      invariant WalkedSoFar(ts, st, et, i, si, ei)
      invariant t == if i == 0 then mst else ts[i - 1]
    {
      WalkAdvance(ds, n, mst, i, t);
      ghost var si0, ei0 := si, ei;
      t := t + Trunc1000(ds[i]);
      if t < st {
        si := si + 1;
      }
      if t < et {
        ei := ei + 1;
      } else {
        WalkStops(ts, st, et, i, si0, ei0);
        return;
      }
      WalkContinues(ts, st, et, i, si0, ei0);
      i := i + 1;
    }
    WalkRunsOut(ts, st, et, si, ei);
  }

  // ---------------------------------------------------------------------
  // The chunk
  // ---------------------------------------------------------------------

  /** A metric chunk: the metrics and the shared number of deltas. */
  class Chunk {
    var Metrics: seq<Metric>
    var NDeltas: int

    constructor (metrics: seq<Metric>, nDeltas: int)
      ensures Metrics == metrics && NDeltas == nDeltas
    {
      Metrics := metrics;
      NDeltas := nDeltas;
    }

    /**
     * The key-to-metric dictionary: its keys are exactly the metrics' keys,
     * and each key holds the last metric with that key. The chunk is not changed.
     */
    method Map() returns (m: map<string, Metric>)
      ensures m == MapOf(Metrics)
      ensures m.Keys == KeySet(Metrics)
      ensures forall i :: 0 <= i < |Metrics| && LastWithKey(Metrics, i) ==>
        Metrics[i].Key in m && m[Metrics[i].Key] == Metrics[i]
    {
      m := map[];
      for i := 0 to |Metrics|
        invariant m == MapOf(Metrics[..i])
      {
        assert Metrics[..i + 1][..i] == Metrics[..i];
        m := m[Metrics[i].Key := Metrics[i]];
      }
      assert Metrics[..|Metrics|] == Metrics;
      MapOfKeys(Metrics);
      forall i | 0 <= i < |Metrics| && LastWithKey(Metrics, i)
        ensures Metrics[i].Key in m && m[Metrics[i].Key] == Metrics[i]
      {
        MapOfLast(Metrics, i);
      }
    }

    /**
     * Clip to the window [st, et], given in Unix seconds. Returns false when
     * the start metric's span misses the window, true otherwise. Only the
     * delta count changes; the metrics stay exactly as they were.
     */
    method Clip(st: int, et: int) returns (ok: bool)
      requires WalkReadable(Metrics, NDeltas)
      requires ReslicesInBounds(Metrics, NDeltas, st, et)
      modifies this`NDeltas
      ensures Metrics == old(Metrics)
      ensures ok <==> !ClipPlan(Metrics, old(NDeltas), st, et).Outside?
      ensures NDeltas == ClippedNDeltas(ClipPlan(Metrics, old(NDeltas), st, et), old(NDeltas))
    {
      ghost var plan := ClipPlan(Metrics, NDeltas, st, et);
      var si, ei := 0, 0;
      var k := 0;
      while k < |Metrics|
        invariant 0 <= k <= |Metrics|
        invariant forall j :: 0 <= j < k ==> Metrics[j].Key != "start"
        invariant si == 0 && ei == 0 && NDeltas == old(NDeltas)
      {
        var m := Metrics[k];
        if m.Key != "start" {
          k := k + 1;
          continue;
        }
        assert StartIndex(Metrics) == Some(k);
        var mst := Trunc1000(m.Value);
        var met := Trunc1000(m.Value + Sum(m.Deltas));
        if met < st || mst > et {
          return false;
        }
        if mst > st && met < et {
          return true;
        }
        si, ei := WalkCounters(m.Deltas, NDeltas, mst, st, et);
        if ei + 1 < NDeltas {
          ei := ei + 1; // inclusive of the end time
        } else {
          ei := NDeltas - 1;
        }
        assert plan == Trim(si, ei);
        break;
      }
      assert plan == Trim(si, ei);
      NDeltas := ei - si;
      // The Go loop ranges over copies of the metrics: the re-based copies
      // are dropped, and the slice expressions only have to stay in bounds.
      for j := 0 to |Metrics| {
        var m := Metrics[j];
        m := m.(Value := m.Value + Sum(m.Deltas[..si]));
        m := m.(Deltas := m.Deltas[si..ei + 1]);
      }
      return true;
    }
  }
}
