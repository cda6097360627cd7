/**
 Cutting labelled logs into sliding windows of time. Instants and durations are integers, in
 one unit.
 */
module Windows {
  datatype Log = Log(time: int, anomaly: bool)

  datatype Window = Window(id: nat, start: int, total: nat, anomalies: nat, isAnomaly: bool)

  predicate Within(t: int, start: int, size: int) {
    start <= t < start + size
  }

  /** How many of the first n logs lie in a window. */
  function Count(logs: seq<Log>, start: int, size: int, n: nat): (c: nat)
    requires n <= |logs|
    ensures c <= n
  {
    if n == 0 then 0 else Count(logs, start, size, n - 1) + if Within(logs[n - 1].time, start, size) then 1 else 0
  }

  function CountAnomalies(logs: seq<Log>, start: int, size: int, n: nat): (c: nat)
    requires n <= |logs|
    ensures c <= Count(logs, start, size, n)
  {
    if n == 0 then 0
    else CountAnomalies(logs, start, size, n - 1)
         + if Within(logs[n - 1].time, start, size) && logs[n - 1].anomaly then 1 else 0
  }

  predicate Span(logs: seq<Log>, earliest: int, latest: int) {
    && (exists i :: 0 <= i < |logs| && logs[i].time == earliest)
    && (exists i :: 0 <= i < |logs| && logs[i].time == latest)
    && forall i | 0 <= i < |logs| :: earliest <= logs[i].time <= latest
  }

  function StartOf(earliest: int, stride: int, k: nat): int {
    earliest + k * stride
  }

  /** The windows among the first k positions that hold a log, numbered in order. */
  function Filled(logs: seq<Log>, earliest: int, size: int, stride: int, k: nat): seq<Window> {
    if k == 0 then []
    else
      var before := Filled(logs, earliest, size, stride, k - 1);
      var start := StartOf(earliest, stride, k - 1);
      var total := Count(logs, start, size, |logs|);
      var anomalies := CountAnomalies(logs, start, size, |logs|);
      if total == 0 then before else before + [Window(|before|, start, total, anomalies, anomalies > 0)]
  }

  /** How many window positions start up to the latest log. */
  function Positions(earliest: int, latest: int, stride: int): nat
    requires stride > 0 && earliest <= latest
  {
    (latest - earliest) / stride + 1
  }

  function WindowsOf(logs: seq<Log>, earliest: int, latest: int, size: int, stride: int): seq<Window>
    requires stride > 0 && earliest <= latest
  {
    Filled(logs, earliest, size, stride, Positions(earliest, latest, stride))
  }

  // ---------------------------------------------------------------------------------------
  // The loop
  // ---------------------------------------------------------------------------------------

  method FindSpan(logs: seq<Log>) returns (earliest: int, latest: int)
    requires logs != []
    ensures Span(logs, earliest, latest)
  {
    earliest, latest := logs[0].time, logs[0].time;
    for i := 1 to |logs|
      invariant exists j :: 0 <= j < i && logs[j].time == earliest
      invariant exists j :: 0 <= j < i && logs[j].time == latest
      invariant forall j | 0 <= j < i :: earliest <= logs[j].time <= latest
    {
      if logs[i].time < earliest {
        earliest := logs[i].time;
      }
      if logs[i].time > latest {
        latest := logs[i].time;
      }
    }
  }

  method CountIn(logs: seq<Log>, start: int, end: int) returns (total: nat, anomalies: nat)
    ensures total == Count(logs, start, end - start, |logs|)
    ensures anomalies == CountAnomalies(logs, start, end - start, |logs|)
  {
    total, anomalies := 0, 0;
    for i := 0 to |logs|
      invariant total == Count(logs, start, end - start, i) && anomalies == CountAnomalies(logs, start, end - start, i)
    {
      if start <= logs[i].time < end {
        total := total + 1;
        if logs[i].anomaly {
          anomalies := anomalies + 1;
        }
      }
    }
  }

  method BuildWindows(logs: seq<Log>, size: int, stride: int) returns (windows: seq<Window>)
    requires stride > 0
    ensures logs == [] ==> windows == []
    ensures logs != [] ==>
              exists earliest, latest ::
                Span(logs, earliest, latest) && windows == WindowsOf(logs, earliest, latest, size, stride)
  {
    if logs == [] {
      return [];
    }
    var earliest, latest := FindSpan(logs);
    windows := [];
    var start := earliest;
    ghost var k: nat := 0;
    while start <= latest
      invariant start == StartOf(earliest, stride, k) && windows == Filled(logs, earliest, size, stride, k)
      invariant k > 0 ==> StartOf(earliest, stride, k - 1) <= latest
      decreases latest - start
    {
      var total, anomalies := CountIn(logs, start, start + size);
      if total > 0 {
        windows := windows + [Window(|windows|, start, total, anomalies, anomalies > 0)];
      }
      start := start + stride;
      NextStart(earliest, stride, k);
      k := k + 1;
    }
    PositionsAre(earliest, latest, stride, k);
  }

  lemma NextStart(earliest: int, stride: int, k: nat)
    ensures StartOf(earliest, stride, k + 1) == StartOf(earliest, stride, k) + stride
  {
    assert (k + 1) * stride == k * stride + stride;
  }

  /** k steps fit into x exactly when k is at most the quotient. */
  lemma {:induction false} FitsIff(k: int, x: int, stride: int)
    requires stride > 0
    ensures k * stride <= x <==> k <= x / stride
  {
    var q := x / stride;
    assert x == q * stride + x % stride;
    if k <= q {
      Scaled(k, q, stride);
    } else {
      Scaled(q + 1, k, stride);
      assert (q + 1) * stride == q * stride + stride;
    }
  }

  lemma Scaled(a: int, b: int, c: int)
    requires a <= b && c > 0
    ensures a * c <= b * c
  {
    assert (b - a) * c >= 0;
    assert (b - a) * c == b * c - a * c;
  }

  lemma {:induction false} PositionsAre(earliest: int, latest: int, stride: int, k: nat)
    requires stride > 0 && earliest <= latest < StartOf(earliest, stride, k)
    requires k > 0 ==> StartOf(earliest, stride, k - 1) <= latest
    ensures k == Positions(earliest, latest, stride)
  {
    FitsIff(k, latest - earliest, stride);
    FitsIff(k - 1, latest - earliest, stride);
  }

  // ---------------------------------------------------------------------------------------
  // How often a log is counted
  // ---------------------------------------------------------------------------------------

  /** Of the first k positions, how many windows hold the instant t. */
  function Multiplicity(t: int, earliest: int, size: int, stride: int, k: nat): nat {
    if k == 0 then 0
    else
      var last := if Within(t, StartOf(earliest, stride, k - 1), size) then 1 else 0;
      Multiplicity(t, earliest, size, stride, k - 1) + last
  }

  /** Of the first k multiples of the stride, how many are at most x. */
  function Reached(x: int, stride: int, k: nat): nat
    requires stride > 0
  {
    if x < 0 then 0 else if x / stride + 1 < k then x / stride + 1 else k
  }

  lemma ReachedStep(x: int, stride: int, k: nat)
    requires stride > 0
    ensures Reached(x, stride, k + 1) == Reached(x, stride, k) + if k * stride <= x then 1 else 0
  {
    FitsIff(k, x, stride);
    FitsIff(0, x, stride);
  }

  lemma {:induction false} MultiplicityIs(t: int, earliest: int, size: int, stride: int, k: nat)
    requires stride > 0 && size >= 0
    ensures Multiplicity(t, earliest, size, stride, k)
         == Reached(t - earliest, stride, k) - Reached(t - earliest - size, stride, k)
  {
    if k > 0 {
      MultiplicityIs(t, earliest, size, stride, k - 1);
      ReachedStep(t - earliest, stride, k - 1);
      ReachedStep(t - earliest - size, stride, k - 1);
    }
  }

  lemma {:induction false} QuotientShift(x: int, m: int, stride: int)
    requires stride > 0
    ensures (x - m * stride) / stride == x / stride - m
  {
    var q := x / stride;
    assert x == q * stride + x % stride;
    assert (q - m) * stride == q * stride - m * stride;
    assert (q - m + 1) * stride == (q - m) * stride + stride;
    FitsIff(q - m, x - m * stride, stride);
    FitsIff(q - m + 1, x - m * stride, stride);
  }

  function Min(a: int, b: int): int {
    if a < b then a else b
  }

  /** How many of the returned windows hold the instant t. */
  function Holding(windows: seq<Window>, t: int, size: int): nat {
    if windows == [] then 0
    else Holding(windows[..|windows| - 1], t, size)
         + if Within(t, windows[|windows| - 1].start, size) then 1 else 0
  }

  lemma {:induction false} CountsLog(logs: seq<Log>, start: int, size: int, n: nat, i: nat)
    requires i < n <= |logs| && Within(logs[i].time, start, size)
    ensures Count(logs, start, size, n) > 0
  {
    if i < n - 1 {
      CountsLog(logs, start, size, n - 1, i);
    }
  }

  /** A position that is near a log is never empty, so the windows returned hold it as often as
      the positions do. */
  lemma {:induction false} HoldingIsMultiplicity(logs: seq<Log>, earliest: int, size: int, stride: int, k: nat, i: nat)
    requires i < |logs|
    ensures Holding(Filled(logs, earliest, size, stride, k), logs[i].time, size)
         == Multiplicity(logs[i].time, earliest, size, stride, k)
  {
    if k > 0 {
      HoldingIsMultiplicity(logs, earliest, size, stride, k - 1, i);
      var start := StartOf(earliest, stride, k - 1);
      if Within(logs[i].time, start, size) {
        CountsLog(logs, start, size, |logs|, i);
      }
      var before, all := Filled(logs, earliest, size, stride, k - 1), Filled(logs, earliest, size, stride, k);
      assert all != before ==> all[..|all| - 1] == before;
    }
  }

  lemma {:induction false} HeldBySome(windows: seq<Window>, t: int, size: int) returns (j: nat)
    requires Holding(windows, t, size) > 0
    ensures j < |windows| && Within(t, windows[j].start, size)
  {
    j := |windows| - 1;
    if !Within(t, windows[j].start, size) {
      j := HeldBySome(windows[..|windows| - 1], t, size);
    }
  }

  /** How many positions reach an instant, when the size is m strides. */
  lemma PositionsOf(t: int, earliest: int, latest: int, m: nat, stride: int)
    requires stride > 0 && earliest <= t <= latest
    ensures Multiplicity(t, earliest, m * stride, stride, Positions(earliest, latest, stride))
         == Min(m, (t - earliest) / stride + 1)
  {
    var d, k := t - earliest, Positions(earliest, latest, stride);
    Scaled(0, m, stride);
    MultiplicityIs(t, earliest, m * stride, stride, k);
    QuotientShift(d, m, stride);
    FitsIff(m, d, stride);
    FitsIff(d / stride, latest - earliest, stride);
    FitsIff(d / stride, d, stride);
    FitsIff(0, d, stride);
  }

  /** When the size is m strides, a log at offset d from the earliest one lies in exactly
      min(m, d / stride + 1) of the windows that are returned. */
  lemma MultiplicityOf(logs: seq<Log>, earliest: int, latest: int, m: nat, stride: int, i: nat)
    requires stride > 0 && Span(logs, earliest, latest) && i < |logs|
    ensures Holding(WindowsOf(logs, earliest, latest, m * stride, stride), logs[i].time, m * stride)
         == Min(m, (logs[i].time - earliest) / stride + 1)
  {
    PositionsOf(logs[i].time, earliest, latest, m, stride);
    HoldingIsMultiplicity(logs, earliest, m * stride, stride, Positions(earliest, latest, stride), i);
  }

  // ---------------------------------------------------------------------------------------
  // Coverage
  // ---------------------------------------------------------------------------------------

  /** Log i lies in one of the windows. */
  ghost predicate Covered(windows: seq<Window>, size: int, log: Log) {
    exists j :: 0 <= j < |windows| && Within(log.time, windows[j].start, size)
  }

  lemma {:induction false} PositionCounts(t: int, earliest: int, size: int, stride: int, k: nat, j: nat)
    requires j < k && Within(t, StartOf(earliest, stride, j), size)
    ensures Multiplicity(t, earliest, size, stride, k) > 0
  {
    if j < k - 1 {
      PositionCounts(t, earliest, size, stride, k - 1, j);
    }
  }

  lemma CoveredIfClose(logs: seq<Log>, earliest: int, latest: int, size: int, stride: int, i: nat)
    requires 0 < stride <= size && Span(logs, earliest, latest) && i < |logs|
    ensures Covered(WindowsOf(logs, earliest, latest, size, stride), size, logs[i])
  {
    var d := logs[i].time - earliest;
    var k := d / stride;
    FitsIff(k, d, stride);
    FitsIff(k + 1, d, stride);
    FitsIff(0, d, stride);
    FitsIff(k, latest - earliest, stride);
    NextStart(earliest, stride, k);
    PositionCounts(logs[i].time, earliest, size, stride, Positions(earliest, latest, stride), k);
    HoldingIsMultiplicity(logs, earliest, size, stride, Positions(earliest, latest, stride), i);
    var _ := HeldBySome(WindowsOf(logs, earliest, latest, size, stride), logs[i].time, size);
  }

  /** Two logs, the second of which falls between the windows. */
  lemma GapLosesLog(size: int, stride: int) returns (logs: seq<Log>, latest: int)
    requires 0 < stride && size < stride
    ensures Span(logs, 0, latest) && |logs| == 2
    ensures !Covered(WindowsOf(logs, 0, latest, size, stride), size, logs[1])
  {
    latest := if size < 0 then 0 else size;
    logs := [Log(0, false), Log(latest, false)];
    var windows, k := WindowsOf(logs, 0, latest, size, stride), Positions(0, latest, stride);
    forall j | 0 <= j < |windows| ensures !Within(logs[1].time, windows[j].start, size) {
      WindowsAreSound(logs, 0, size, stride, k, j);
      var n: nat :| n < k && windows[j].start == StartOf(0, stride, n);
      if n > 0 {
        Scaled(1, n, stride);
      }
    }
  }

  ghost predicate CoversAll(size: int, stride: int)
    requires stride > 0
  {
    forall logs, earliest, latest | Span(logs, earliest, latest) ::
      forall i | 0 <= i < |logs| :: Covered(WindowsOf(logs, earliest, latest, size, stride), size, logs[i])
  }

  /** Every log of every list lies in one of the windows returned for the list exactly when the
      stride is at most the size. */
  lemma CoverageIff(size: int, stride: int)
    requires stride > 0
    ensures CoversAll(size, stride) <==> stride <= size
  {
    if stride <= size {
      forall logs, earliest, latest, i | Span(logs, earliest, latest) && 0 <= i < |logs|
        ensures Covered(WindowsOf(logs, earliest, latest, size, stride), size, logs[i])
      {
        CoveredIfClose(logs, earliest, latest, size, stride, i);
      }
    } else {
      var logs, latest := GapLosesLog(size, stride);
      assert Span(logs, 0, latest);
    }
  }

  // ---------------------------------------------------------------------------------------
  // Totals
  // ---------------------------------------------------------------------------------------

  function SumTotals(windows: seq<Window>, n: nat): nat
    requires n <= |windows|
  {
    if n == 0 then 0 else SumTotals(windows, n - 1) + windows[n - 1].total
  }

  function SumMultiplicities(logs: seq<Log>, earliest: int, size: int, stride: int, k: nat, n: nat): nat
    requires n <= |logs|
  {
    if n == 0 then 0
    else
      var last := Multiplicity(logs[n - 1].time, earliest, size, stride, k);
      SumMultiplicities(logs, earliest, size, stride, k, n - 1) + last
  }

  lemma {:induction false} SumTotalsPrefix(windows: seq<Window>, w: Window, n: nat)
    requires n <= |windows|
    ensures SumTotals(windows + [w], n) == SumTotals(windows, n)
  {
    if n > 0 {
      SumTotalsPrefix(windows, w, n - 1);
    }
  }

  lemma {:induction false} OneMorePosition(logs: seq<Log>, earliest: int, size: int, stride: int, k: nat, n: nat)
    requires n <= |logs|
    ensures SumMultiplicities(logs, earliest, size, stride, k + 1, n)
         == SumMultiplicities(logs, earliest, size, stride, k, n) + Count(logs, StartOf(earliest, stride, k), size, n)
  {
    if n > 0 {
      OneMorePosition(logs, earliest, size, stride, k, n - 1);
    }
  }

  lemma {:induction false} NoPositions(logs: seq<Log>, earliest: int, size: int, stride: int, n: nat)
    requires n <= |logs|
    ensures SumMultiplicities(logs, earliest, size, stride, 0, n) == 0
  {
    if n > 0 {
      NoPositions(logs, earliest, size, stride, n - 1);
    }
  }

  /** Counted by windows or counted by logs, the total is the same. */
  lemma {:induction false} TotalsAreMultiplicities(logs: seq<Log>, earliest: int, size: int, stride: int, k: nat)
    ensures
      var windows := Filled(logs, earliest, size, stride, k);
      SumTotals(windows, |windows|) == SumMultiplicities(logs, earliest, size, stride, k, |logs|)
  {
    if k == 0 {
      NoPositions(logs, earliest, size, stride, |logs|);
    } else {
      TotalsAreMultiplicities(logs, earliest, size, stride, k - 1);
      OneMorePosition(logs, earliest, size, stride, k - 1, |logs|);
      var before := Filled(logs, earliest, size, stride, k - 1);
      var start := StartOf(earliest, stride, k - 1);
      var total, anomalies := Count(logs, start, size, |logs|), CountAnomalies(logs, start, size, |logs|);
      SumTotalsPrefix(before, Window(|before|, start, total, anomalies, anomalies > 0), |before|);
    }
  }

  /** Windows are numbered from 0, each starts at one of the positions and holds what lies in it,
      none is empty, and one is an anomaly exactly when one of its logs is. */
  lemma {:induction false} WindowsAreSound(logs: seq<Log>, earliest: int, size: int, stride: int, k: nat, i: nat)
    requires i < |Filled(logs, earliest, size, stride, k)|
    ensures
      var w := Filled(logs, earliest, size, stride, k)[i];
      && w.id == i && w.total == Count(logs, w.start, size, |logs|) > 0
      && (exists j: nat :: j < k && w.start == StartOf(earliest, stride, j))
      && (w.isAnomaly <==> exists j :: 0 <= j < |logs| && logs[j].anomaly && Within(logs[j].time, w.start, size))
  {
    var before := Filled(logs, earliest, size, stride, k - 1);
    if i < |before| {
      WindowsAreSound(logs, earliest, size, stride, k - 1, i);
    } else {
      AnomalousIff(logs, StartOf(earliest, stride, k - 1), size, |logs|);
    }
  }

  lemma {:induction false} AnomalousIff(logs: seq<Log>, start: int, size: int, n: nat)
    requires n <= |logs|
    ensures CountAnomalies(logs, start, size, n) > 0 <==>
              exists j :: 0 <= j < n && logs[j].anomaly && Within(logs[j].time, start, size)
  {
    if n > 0 {
      AnomalousIff(logs, start, size, n - 1);
    }
  }

  function SumOfShares(logs: seq<Log>, earliest: int, m: nat, stride: int, n: nat): int
    requires n <= |logs| && stride > 0
  {
    if n == 0 then 0
    else SumOfShares(logs, earliest, m, stride, n - 1) + Min(m, (logs[n - 1].time - earliest) / stride + 1)
  }

  lemma {:induction false} SharesAreMultiplicities(logs: seq<Log>, earliest: int, latest: int, m: nat, stride: int,
                                                   n: nat)
    requires stride > 0 && n <= |logs| && Span(logs, earliest, latest)
    ensures SumMultiplicities(logs, earliest, m * stride, stride, Positions(earliest, latest, stride), n)
         == SumOfShares(logs, earliest, m, stride, n)
  {
    if n > 0 {
      SharesAreMultiplicities(logs, earliest, latest, m, stride, n - 1);
      PositionsOf(logs[n - 1].time, earliest, latest, m, stride);
    }
  }

  /** The sizes of all windows add up to what the offsets of the logs say. */
  lemma {:induction false} WindowTotals(logs: seq<Log>, earliest: int, latest: int, m: nat, stride: int)
    requires stride > 0 && Span(logs, earliest, latest)
    ensures
      var windows := WindowsOf(logs, earliest, latest, m * stride, stride);
      SumTotals(windows, |windows|) == SumOfShares(logs, earliest, m, stride, |logs|)
  {
    TotalsAreMultiplicities(logs, earliest, m * stride, stride, Positions(earliest, latest, stride));
    SharesAreMultiplicities(logs, earliest, latest, m, stride, |logs|);
  }
}
