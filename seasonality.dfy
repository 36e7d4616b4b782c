/**
 * The peak search of `find_seasonality`: given the autocorrelation vector
 * r[0..max_lag], pick the smallest lag in 1..max_lag whose value exceeds the
 * significance threshold and equals the maximum over lags 1..max_lag.
 * The autocorrelation vector itself is an input; its computation is not modelled.
 */
module Seasonality {
  import opened Wrappers

  /** The fixed significance threshold. */
  const Threshold: real := 0.1

  /** Errors the peak search can raise. */
  datatype Error =
    /** `np.max` over an empty lag range (the vector holds only lag 0, or nothing). */
    EmptyLagRange

  /** `np.max`: the largest value of a non-empty vector. */
  function Max(s: seq<real>): (m: real)
    requires |s| > 0
    ensures forall i :: 0 <= i < |s| ==> s[i] <= m
    ensures exists i :: 0 <= i < |s| && s[i] == m
  {
    if |s| == 1 then s[0]
    else
      var m := Max(s[..|s| - 1]);
      if s[|s| - 1] > m then s[|s| - 1] else m
  }

  /** One element of the boolean mask: above the threshold and equal to the maximum `m`. */
  predicate IsPeak(v: real, m: real) {
    v > Threshold && v == m
  }

  /** `np.where(mask)[0]`: the positions of `lags` where the mask holds, in increasing order. */
  function Where(lags: seq<real>, m: real): (idx: seq<nat>)
    ensures forall k :: 0 <= k < |idx| ==> idx[k] < |lags| && IsPeak(lags[idx[k]], m)
    ensures forall i :: 0 <= i < |lags| ==> (i in idx <==> IsPeak(lags[i], m))
    ensures forall k, l :: 0 <= k < l < |idx| ==> idx[k] < idx[l]
  {
    if |lags| == 0 then []
    else
      var front := lags[..|lags| - 1];
      assert forall i :: 0 <= i < |front| ==> front[i] == lags[i];
      Where(front, m) + (if IsPeak(lags[|lags| - 1], m) then [|lags| - 1] else [])
  }

  /** No masked position comes before the first position `np.where` reports. */
  lemma WhereFirst(lags: seq<real>, m: real)
    ensures forall i :: 0 <= i < |lags| && IsPeak(lags[i], m) ==>
      |Where(lags, m)| > 0 && Where(lags, m)[0] <= i
  {
  }

  /** The lag values 1..max_lag, that is the vector without lag 0. */
  function Lags(r: seq<real>): seq<real>
    requires |r| >= 1
  {
    r[1..]
  }

  /** The maximum autocorrelation over lags 1..max_lag. */
  function LagMax(r: seq<real>): (m: real)
    requires |r| >= 2
    ensures forall j :: 1 <= j < |r| ==> r[j] <= m
    ensures exists j :: 1 <= j < |r| && r[j] == m
  {
    var lags := Lags(r);
    assert forall i :: 0 <= i < |lags| ==> lags[i] == r[i + 1];
    Max(lags)
  }

  /** The mask over lags 1..max_lag is empty exactly when their maximum does not exceed the threshold. */
  lemma NoPeakIffMaxLow(r: seq<real>)
    requires |r| >= 2
    ensures |Where(Lags(r), LagMax(r))| == 0 <==> LagMax(r) <= Threshold
  {
    var lags, m := Lags(r), LagMax(r);
    if m > Threshold {
      var j :| 1 <= j < |r| && r[j] == m;
      assert lags[j - 1] == r[j];
    }
    if |Where(lags, m)| > 0 {
      assert IsPeak(lags[Where(lags, m)[0]], m);
    }
  }

  /**
   * The first position `np.where` reports, shifted by one, is a lag whose value
   * is the maximum above the threshold, and no earlier lag holds the maximum.
   */
  lemma FirstPeak(r: seq<real>)
    requires |r| >= 2
    requires |Where(Lags(r), LagMax(r))| > 0
    ensures var m, peaks := LagMax(r), Where(Lags(r), LagMax(r));
      peaks[0] + 1 < |r| && IsPeak(r[peaks[0] + 1], m)
      && forall j :: 1 <= j <= peaks[0] ==> r[j] != m
  {
  }

  /**
   * The peak search proper, over a vector that holds at least one lag beyond lag 0:
   * the first position of the significant peaks within the lag slice, plus one.
   */
  function PeakSearch(r: seq<real>): (res: Option<nat>)
    requires |r| >= 2
    ensures res.Some? ==> 1 <= res.value < |r|
    ensures res.Some? ==> r[res.value] > Threshold
    ensures res.Some? ==> r[res.value] == LagMax(r)
    ensures res.Some? ==> forall j :: 1 <= j < res.value ==> r[j] != LagMax(r)
    ensures res.None? <==> LagMax(r) <= Threshold
  {
    var peaks := Where(Lags(r), LagMax(r));
    NoPeakIffMaxLow(r);
    if |peaks| > 0 then
      FirstPeak(r);
      Some(peaks[0] + 1)
    else
      None
  }

  /**
   * The whole of the peak search as the source runs it: with no lag beyond lag 0
   * the maximum over an empty range raises an error; otherwise the search result.
   */
  function FindSeasonality(r: seq<real>): (res: Result<Option<nat>, Error>)
    ensures res.Failure? <==> |r| < 2
    ensures res.Success? && res.value.Some? ==> IsSeasonalPeriod(r, res.value.value)
    ensures res.Success? && res.value.None? <==> |r| >= 2 && LagMax(r) <= Threshold
  {
    if |r| < 2 then Failure(EmptyLagRange)
    else
      PeakIsSeasonalPeriod(r);
      Success(PeakSearch(r))
  }

  /**
   * Reference definition, independent of the mask: `k` is a lag in 1..max_lag,
   * its value exceeds the threshold, no lag has a larger value, and every
   * earlier lag has a strictly smaller value.
   */
  ghost predicate IsSeasonalPeriod(r: seq<real>, k: nat) {
    1 <= k < |r|
    && r[k] > Threshold
    && (forall j :: 1 <= j < |r| ==> r[j] <= r[k])
    && (forall j :: 1 <= j < k ==> r[j] < r[k])
  }

  /** A found peak meets the reference definition. */
  lemma PeakIsSeasonalPeriod(r: seq<real>)
    requires |r| >= 2
    ensures PeakSearch(r).Some? ==> IsSeasonalPeriod(r, PeakSearch(r).value)
  {
  }

  /** At most one lag meets the reference definition. */
  lemma SeasonalPeriodUnique(r: seq<real>, k1: nat, k2: nat)
    requires IsSeasonalPeriod(r, k1) && IsSeasonalPeriod(r, k2)
    ensures k1 == k2
  {
  }

  /** The search returns exactly the lag of the reference definition, in both directions. */
  lemma PeakSearchCharacterized(r: seq<real>, k: nat)
    requires |r| >= 2
    ensures PeakSearch(r) == Some(k) <==> IsSeasonalPeriod(r, k)
  {
  }

  /** No lag is reported exactly when no lag meets the reference definition. */
  lemma NoneIffNoSeasonalPeriod(r: seq<real>)
    requires |r| >= 2
    ensures PeakSearch(r).None? <==> forall k: nat :: !IsSeasonalPeriod(r, k)
  {
    if PeakSearch(r).Some? {
      PeakIsSeasonalPeriod(r);
    } else {
      forall k: nat | 1 <= k < |r| ensures !IsSeasonalPeriod(r, k) {
        assert r[k] <= LagMax(r);
      }
    }
  }

  /**
   * Shifting the slice position by one makes the returned lag index the full
   * vector: the value the mask picked in the slice is the vector's value at the
   * returned lag.
   */
  lemma ResultIndexesFullVector(r: seq<real>)
    requires |r| >= 2
    requires PeakSearch(r).Some?
    ensures var peaks := Where(Lags(r), LagMax(r));
      |peaks| > 0
      && r[PeakSearch(r).value] == Lags(r)[peaks[0]]
      && IsPeak(Lags(r)[peaks[0]], LagMax(r))
  {
  }

  /** The value at lag 0 has no influence on the result. */
  lemma LagZeroIgnored(r: seq<real>, r0: real)
    requires |r| >= 2
    ensures PeakSearch(r[0 := r0]) == PeakSearch(r)
  {
  }

  /** With max_lag = 1 the only lag that can be reported is 1. */
  lemma SingleLag(r: seq<real>)
    requires |r| == 2
    ensures PeakSearch(r) == (if r[1] > Threshold then Some(1) else None)
  {
  }

  /** Python truthiness of the returned value: `None` and `0` are false. */
  predicate Detected(res: Option<nat>) {
    res.Some? && res.value != 0
  }

  /** The caller's truthiness test reports detection exactly when a lag was returned. */
  lemma DetectedIffFound(r: seq<real>)
    requires |r| >= 2
    ensures Detected(PeakSearch(r)) <==> PeakSearch(r).Some?
  {
  }
}
