/** Interpolated percentiles of a list of numbers, before the final rounding. */
module Percentile {
  function Insert(x: real, s: seq<real>): (r: seq<real>)
    ensures |r| == |s| + 1
  {
    if s == [] || x <= s[0] then [x] + s else [s[0]] + Insert(x, s[1..])
  }

  function Sort(s: seq<real>): (r: seq<real>)
    ensures |r| == |s|
  {
    if s == [] then [] else Insert(s[0], Sort(s[1..]))
  }

  predicate Ordered(s: seq<real>) {
    forall i, j | 0 <= i <= j < |s| :: s[i] <= s[j]
  }

  lemma {:induction false} InsertElements(x: real, s: seq<real>)
    ensures multiset(Insert(x, s)) == multiset(s) + multiset{x}
  {
    if s == [] || x <= s[0] {
      assert multiset([x] + s) == multiset([x]) + multiset(s);
    } else {
      InsertElements(x, s[1..]);
      Parts(s);
      Parts(Insert(x, s));
    }
  }

  /** A list is its first element and the rest, also as a multiset. */
  lemma Parts(s: seq<real>)
    requires s != []
    ensures multiset(s) == multiset{s[0]} + multiset(s[1..])
  {
    assert s == [s[0]] + s[1..];
  }

  lemma {:induction false} InsertOrdered(x: real, s: seq<real>)
    requires Ordered(s)
    ensures Ordered(Insert(x, s))
    ensures forall k | 0 <= k < |s| + 1 :: Insert(x, s)[k] == x || (exists j :: 0 <= j < |s| && s[j] == Insert(x, s)[k])
  {
    if s != [] && x > s[0] {
      InsertOrdered(x, s[1..]);
      var t := Insert(x, s[1..]);
      forall k | 0 <= k < |t| ensures s[0] <= t[k] && (t[k] == x || exists j :: 0 <= j < |s| && s[j] == t[k]) {
        if t[k] != x {
          var j :| 0 <= j < |s[1..]| && s[1..][j] == t[k];
          assert s[j + 1] == t[k] && s[0] <= s[j + 1];
        }
      }
    }
  }

  lemma {:induction false} SortSorts(s: seq<real>)
    ensures Ordered(Sort(s)) && multiset(Sort(s)) == multiset(s)
  {
    if s != [] {
      SortSorts(s[1..]);
      InsertOrdered(s[0], Sort(s[1..]));
      InsertElements(s[0], Sort(s[1..]));
      Parts(s);
    }
  }

  lemma LeastIsFirst(a: seq<real>, b: seq<real>)
    requires Ordered(a) && a != [] && b != [] && multiset(a) == multiset(b)
    ensures a[0] <= b[0]
  {
    assert b[0] in multiset(b);
    assert b[0] in a;
  }

  lemma {:induction false} OrderedUnique(a: seq<real>, b: seq<real>)
    requires Ordered(a) && Ordered(b) && multiset(a) == multiset(b)
    ensures a == b
    decreases |a|
  {
    assert |a| == |multiset(a)| == |b|;
    if a != [] {
      LeastIsFirst(a, b);
      LeastIsFirst(b, a);
      Parts(a);
      Parts(b);
      SameRest(multiset(a[1..]), multiset(b[1..]), a[0]);
      OrderedUnique(a[1..], b[1..]);
      assert a == [a[0]] + a[1..] && b == [b[0]] + b[1..];
    }
  }

  lemma SameRest(m: multiset<real>, n: multiset<real>, x: real)
    requires multiset{x} + m == multiset{x} + n
    ensures m == n
  {
    assert (multiset{x} + m) - multiset{x} == m && (multiset{x} + n) - multiset{x} == n;
  }

  /** The value at a fractional rank: between two neighbours in proportion. */
  function Interpolate(s: seq<real>, rank: real): real
    requires 0.0 <= rank <= (|s| - 1) as real
  {
    var low := rank.Floor;
    if rank == low as real then s[low]
    else s[low] * ((low + 1) as real - rank) + s[low + 1] * (rank - low as real)
  }

  function RankOf(n: nat, percent: real): real
    requires n > 0
  {
    (n - 1) as real * (percent / 100.0)
  }

  lemma RankInRange(n: nat, percent: real)
    requires n > 0 && 0.0 <= percent <= 100.0
    ensures 0.0 <= RankOf(n, percent) <= (n - 1) as real
  {
    var m, x := (n - 1) as real, percent / 100.0;
    assert 0.0 <= x <= 1.0;
    Product(m, 0.0, x);
    Product(m, x, 1.0);
  }

  lemma Product(m: real, x: real, y: real)
    requires m >= 0.0 && x <= y
    ensures m * x <= m * y
  {
    assert m * (y - x) >= 0.0;
  }

  function PercentileOf(values: seq<real>, percent: real): real
    requires 0.0 <= percent <= 100.0
  {
    if values == [] then 0.0
    else
      RankInRange(|values|, percent);
      Interpolate(Sort(values), RankOf(|values|, percent))
  }

  lemma BlendIs(a: real, b: real, w: real)
    ensures a * (1.0 - w) + b * w == a + (b - a) * w
  {
  }

  lemma Blend(a: real, b: real, w: real)
    requires a <= b && 0.0 <= w <= 1.0
    ensures a <= a * (1.0 - w) + b * w <= b
  {
    BlendIs(a, b, w);
    Product(b - a, 0.0, w);
    Product(b - a, w, 1.0);
  }

  /** An interpolated value lies between its two neighbours. */
  lemma InterpolateBetween(s: seq<real>, rank: real)
    requires Ordered(s) && 0.0 <= rank <= (|s| - 1) as real
    ensures
      var low := rank.Floor;
      var high := if rank == low as real then low else low + 1;
      && 0 <= low <= high < |s| && rank <= high as real
      && s[low] <= Interpolate(s, rank) <= s[high]
  {
    var low := rank.Floor;
    if rank != low as real {
      assert low + 1 < |s|;
      var w := rank - low as real;
      Blend(s[low], s[low + 1], w);
      assert (low + 1) as real - rank == 1.0 - w;
    }
  }

  lemma BlendMonotone(a: real, b: real, v: real, w: real)
    requires a <= b && v <= w
    ensures a * (1.0 - v) + b * v <= a * (1.0 - w) + b * w
  {
    Product(b - a, v, w);
    BlendIs(a, b, v);
    BlendIs(a, b, w);
  }

  /** Across neighbouring stretches as within one, a higher rank never gives a lower value. */
  lemma InterpolateMonotone(s: seq<real>, x: real, y: real)
    requires Ordered(s) && 0.0 <= x <= y <= (|s| - 1) as real
    ensures Interpolate(s, x) <= Interpolate(s, y)
  {
    InterpolateBetween(s, x);
    InterpolateBetween(s, y);
    var low := x.Floor;
    if y.Floor == low {
      if x != low as real {
        var v, w := x - low as real, y - low as real;
        assert (low + 1) as real - x == 1.0 - v && (low + 1) as real - y == 1.0 - w;
        BlendMonotone(s[low], s[low + 1], v, w);
      }
    } else {
      assert low + 1 <= y.Floor;
    }
  }

  /** Between neighbouring ranks, both included, the value is linear. */
  lemma InterpolateLinear(s: seq<real>, rank: real, k: nat)
    requires k + 1 < |s| && k as real <= rank <= (k + 1) as real
    ensures Interpolate(s, rank) == s[k] + (s[k + 1] - s[k]) * (rank - k as real)
  {
    if rank == (k + 1) as real {
      assert rank.Floor == k + 1;
    } else {
      assert rank.Floor == k;
      BlendIs(s[k], s[k + 1], rank - k as real);
    }
  }

  /** In the list put in order, the value at a percentage is that of its share of the way from the
      first to the last place, linear between places. */
  lemma PercentileLinear(values: seq<real>, ordered: seq<real>, percent: real, rank: real, k: nat)
    requires 0.0 <= percent <= 100.0 && Ordered(ordered) && multiset(ordered) == multiset(values)
    requires k + 1 < |values| && rank == (|values| - 1) as real * (percent / 100.0)
    requires k as real <= rank <= (k + 1) as real
    ensures |ordered| == |values|
    ensures PercentileOf(values, percent) == ordered[k] + (ordered[k + 1] - ordered[k]) * (rank - k as real)
  {
    SortSorts(values);
    OrderedUnique(Sort(values), ordered);
    PercentileIs(values, percent);
    assert rank == RankOf(|values|, percent);
    hide *;
    InterpolateLinear(ordered, rank, k);
  }

  lemma PercentileIs(values: seq<real>, percent: real)
    requires values != [] && 0.0 <= percent <= 100.0
    ensures 0.0 <= RankOf(|values|, percent) <= (|values| - 1) as real
    ensures PercentileOf(values, percent) == Interpolate(Sort(values), RankOf(|values|, percent))
  {
    RankInRange(|values|, percent);
  }

  /** A percentile lies between the least and the greatest value, which 0 and 100 percent give. */
  lemma PercentileBetween(values: seq<real>, percent: real)
    requires values != [] && 0.0 <= percent <= 100.0
    ensures (exists v :: v in values && v <= PercentileOf(values, percent))
    ensures (exists v :: v in values && v >= PercentileOf(values, percent))
    ensures forall v | v in values :: PercentileOf(values, 0.0) <= v <= PercentileOf(values, 100.0)
  {
    var s := Sort(values);
    SortSorts(values);
    RankInRange(|values|, percent);
    InterpolateBetween(s, RankOf(|values|, percent));
    var low := RankOf(|values|, percent).Floor;
    assert s[low] in multiset(s) && s[low] in values;
    var high := if RankOf(|values|, percent) == low as real then low else low + 1;
    assert s[high] in multiset(s) && s[high] in values;
    assert PercentileOf(values, 0.0) == s[0] by { assert RankOf(|values|, 0.0) == 0.0; }
    assert PercentileOf(values, 100.0) == s[|s| - 1] by { assert RankOf(|values|, 100.0) == (|s| - 1) as real; }
    forall v | v in values ensures s[0] <= v <= s[|s| - 1] {
      assert v in multiset(s);
    }
  }

  /** A higher percentage never gives a lower value. */
  lemma PercentileMonotone(values: seq<real>, p: real, q: real)
    requires 0.0 <= p <= q <= 100.0
    ensures PercentileOf(values, p) <= PercentileOf(values, q)
  {
    if values != [] {
      SortSorts(values);
      RankInRange(|values|, p);
      RankInRange(|values|, q);
      Product((|values| - 1) as real, p / 100.0, q / 100.0);
      InterpolateMonotone(Sort(values), RankOf(|values|, p), RankOf(|values|, q));
    }
  }

  /** The order of the input does not matter. */
  lemma PercentileOfPermutation(a: seq<real>, b: seq<real>, percent: real)
    requires multiset(a) == multiset(b) && 0.0 <= percent <= 100.0
    ensures PercentileOf(a, percent) == PercentileOf(b, percent)
  {
    assert |a| == |multiset(a)| == |b|;
    SortSorts(a);
    SortSorts(b);
    OrderedUnique(Sort(a), Sort(b));
  }
}
