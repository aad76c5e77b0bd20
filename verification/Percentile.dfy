/** The Type 7 percentile of `metrics.py`, over real samples. */
module Percentile {
  import opened Prelude
  import opened Sorting

  function Itself(x: real): real {
    x
  }

  function Ceiling(x: real): int {
    -((-x).Floor)
  }

  /** The value `h` places into an ordered sample, between two places by linear interpolation. */
  function ValueAt(ordered: seq<real>, h: real): real
    requires ordered != [] && 0.0 <= h <= (|ordered| - 1) as real
  {
    var lower, upper := h.Floor, Ceiling(h);
    ordered[lower] + (h - lower as real) * (ordered[upper] - ordered[lower])
  }

  /** How far into the ordered sample a probability points. */
  function Place(n: nat, probability: real): (h: real)
    requires n > 0 && 0.0 <= probability <= 1.0
    ensures 0.0 <= h <= (n - 1) as real
  {
    Scaled((n - 1) as real, probability, 1.0);
    (n - 1) as real * probability
  }

  /** `percentile_type7`: raises for a probability out of range, and has no value for no sample. */
  function PercentileType7(values: seq<real>, probability: real): Result<Option<real>> {
    if !(0.0 <= probability <= 1.0) then Raised
    else if values == [] then Returned(None)
    else
      SortedKeeps(Itself, values);
      var ordered := Sorted(Itself, values);
      if |ordered| == 1 then Returned(Some(ordered[0]))
      else Returned(Some(ValueAt(ordered, Place(|ordered|, probability))))
  }

  lemma Scaled(x: real, a: real, b: real)
    requires 0.0 <= x && 0.0 <= a <= b
    ensures 0.0 <= x * a <= x * b
  {
  }

  lemma NeighbouringPlaces(h: real)
    ensures h.Floor as real <= h && (Ceiling(h) == h.Floor || Ceiling(h) == h.Floor + 1)
    ensures h < (h.Floor + 1) as real && (Ceiling(h) == h.Floor <==> h == h.Floor as real)
  {
  }

  /** Interpolation stays between its two neighbours. */
  lemma ValueIsBetween(ordered: seq<real>, h: real)
    requires ordered != [] && 0.0 <= h <= (|ordered| - 1) as real && Ordered(Itself, ordered)
    ensures ordered[h.Floor] <= ValueAt(ordered, h) <= ordered[Ceiling(h)]
  {
    NeighbouringPlaces(h);
    var lower, upper := h.Floor, Ceiling(h);
    assert Itself(ordered[lower]) <= Itself(ordered[upper]) || lower == upper;
    Scaled(ordered[upper] - ordered[lower], h - lower as real, 1.0);
  }

  lemma ValueIsMonotone(ordered: seq<real>, h: real, g: real)
    requires ordered != [] && 0.0 <= h <= g <= (|ordered| - 1) as real && Ordered(Itself, ordered)
    ensures ValueAt(ordered, h) <= ValueAt(ordered, g)
  {
    NeighbouringPlaces(h);
    NeighbouringPlaces(g);
    ValueIsBetween(ordered, h);
    ValueIsBetween(ordered, g);
    var lower := h.Floor;
    if lower < g.Floor {
      assert Ceiling(h) <= g.Floor;
      assert Itself(ordered[Ceiling(h)]) <= Itself(ordered[g.Floor]) || Ceiling(h) == g.Floor;
    } else if Ceiling(h) == Ceiling(g) {
      var upper := Ceiling(h);
      assert Itself(ordered[lower]) <= Itself(ordered[upper]) || lower == upper;
      Scaled(ordered[upper] - ordered[lower], h - lower as real, g - lower as real);
    }
  }

  // ---------------------------------------------------------------- properties of the percentile

  predicate IsMinimum(values: seq<real>, m: real) {
    m in values && forall i :: 0 <= i < |values| ==> m <= values[i]
  }

  predicate IsMaximum(values: seq<real>, m: real) {
    m in values && forall i :: 0 <= i < |values| ==> values[i] <= m
  }

  /** The percentile as a place in the ordered sample, for samples of one as well. */
  lemma PercentileIsValueAt(values: seq<real>, probability: real)
    requires values != [] && 0.0 <= probability <= 1.0
    ensures var ordered := Sorted(Itself, values);
            && |ordered| == |values| && Ordered(Itself, ordered)
            && PercentileType7(values, probability) == Returned(Some(ValueAt(ordered, Place(|ordered|, probability))))
  {
    SortedIsOrdered(Itself, values);
  }

  /** The result lies between the least and the greatest sample. */
  lemma BetweenMinimumAndMaximum(values: seq<real>, probability: real, least: real, greatest: real)
    requires IsMinimum(values, least) && IsMaximum(values, greatest) && 0.0 <= probability <= 1.0
    ensures PercentileType7(values, probability).Returned? && PercentileType7(values, probability).value.Some?
    ensures least <= PercentileType7(values, probability).value.value <= greatest
  {
    PercentileIsValueAt(values, probability);
    SortedKeeps(Itself, values);
    var ordered := Sorted(Itself, values);
    var h := Place(|ordered|, probability);
    ValueIsBetween(ordered, h);
    NeighbouringPlaces(h);
    SampleIsBetween(values, ordered[h.Floor], least, greatest) by {
      assert ordered[h.Floor] in multiset(ordered);
    }
    SampleIsBetween(values, ordered[Ceiling(h)], least, greatest) by {
      assert ordered[Ceiling(h)] in multiset(ordered);
    }
  }

  lemma SampleIsBetween(values: seq<real>, x: real, least: real, greatest: real)
    requires IsMinimum(values, least) && IsMaximum(values, greatest) && x in multiset(values)
    ensures least <= x <= greatest
  {
    assert x in values;
  }

  /** The order of the sample does not matter. */
  lemma IgnoresSampleOrder(a: seq<real>, b: seq<real>, probability: real)
    requires multiset(a) == multiset(b)
    ensures PercentileType7(a, probability) == PercentileType7(b, probability)
  {
    assert |multiset(a)| == |multiset(b)|;
    SortedIgnoresOrder(Itself, a, b);
  }

  /** A higher probability gives no lower a value: p50 <= p95 <= p99. */
  lemma MonotoneInProbability(values: seq<real>, p: real, q: real)
    requires values != [] && 0.0 <= p <= q <= 1.0
    ensures PercentileType7(values, p).Returned? && PercentileType7(values, p).value.Some?
    ensures PercentileType7(values, q).Returned? && PercentileType7(values, q).value.Some?
    ensures PercentileType7(values, p).value.value <= PercentileType7(values, q).value.value
  {
    PercentileIsValueAt(values, p);
    PercentileIsValueAt(values, q);
    PlaceGrows(|values|, p, q);
    ValueIsMonotone(Sorted(Itself, values), Place(|values|, p), Place(|values|, q));
  }

  /** At probability k/(n-1) it is the k-th smallest sample. */
  lemma HitsOrderStatistics(values: seq<real>, k: nat)
    requires k < |values| && |values| > 1
    ensures |Sorted(Itself, values)| == |values|
    ensures 0.0 <= k as real / (|values| - 1) as real <= 1.0
    ensures PercentileType7(values, k as real / (|values| - 1) as real) == Returned(Some(Sorted(Itself, values)[k]))
  {
    SortedIsOrdered(Itself, values);
    PlaceOf(|values|, k);
    PercentileIsValueAt(values, k as real / (|values| - 1) as real);
    ValueAtWhole(Sorted(Itself, values), k);
  }

  /** Type 7: at a probability of (k+t)/(n-1) the value lies the part `t` of the way from the k-th
      smallest sample to the next. */
  lemma InterpolatesExactly(values: seq<real>, p: real, k: nat, t: real) returns (s: seq<real>)
    requires k + 1 < |values| && 0.0 <= t <= 1.0 && 0.0 <= p <= 1.0
    requires p * (|values| - 1) as real == k as real + t
    ensures s == Sorted(Itself, values) && |s| == |values| && Ordered(Itself, s) && multiset(s) == multiset(values)
    ensures PercentileType7(values, p) == Returned(Some(s[k] + t * (s[k + 1] - s[k])))
  {
    var h: real;
    s, h := PercentileAtPlace(values, p);
    Interpolated(PercentileType7(values, p), s, h, k, t);
  }

  lemma PercentileAtPlace(values: seq<real>, p: real) returns (s: seq<real>, h: real)
    requires values != [] && 0.0 <= p <= 1.0
    ensures s == Sorted(Itself, values) && |s| == |values| && Ordered(Itself, s) && multiset(s) == multiset(values)
    ensures h == p * (|values| - 1) as real && 0.0 <= h <= (|s| - 1) as real
    ensures PercentileType7(values, p) == Returned(Some(ValueAt(s, h)))
  {
    SortedKeeps(Itself, values);
    PercentileIsValueAt(values, p);
    s := Sorted(Itself, values);
    h := Place(|values|, p);
  }

  lemma Interpolated(r: Result<Option<real>>, s: seq<real>, h: real, k: nat, t: real)
    requires k + 1 < |s| && 0.0 <= t <= 1.0 && h == k as real + t
    requires r == Returned(Some(ValueAt(s, h)))
    ensures r == Returned(Some(s[k] + t * (s[k + 1] - s[k])))
  {
    ValueBetweenPlaces(s, k, t);
  }

  lemma ValueBetweenPlaces(ordered: seq<real>, k: nat, t: real)
    requires k + 1 < |ordered| && 0.0 <= t <= 1.0
    ensures ValueAt(ordered, k as real + t) == ordered[k] + t * (ordered[k + 1] - ordered[k])
  {
    if t == 1.0 {
      ValueAtWhole(ordered, k + 1);
    } else {
      FloorBetween(k, t);
      if t == 0.0 {
        ValueAtWhole(ordered, k);
      }
    }
  }

  lemma FloorBetween(k: nat, t: real)
    requires 0.0 <= t < 1.0
    ensures (k as real + t).Floor == k && (t > 0.0 ==> Ceiling(k as real + t) == k + 1)
  {
  }

  /** Every probability is such a one, so that with samples of one and of none the percentile is given
      everywhere. */
  lemma GivenEverywhere(values: seq<real>, p: real) returns (k: nat, t: real)
    ensures PercentileType7(values, p).Raised? <==> p < 0.0 || 1.0 < p
    ensures 0.0 <= p <= 1.0 && |values| == 0 ==> PercentileType7(values, p) == Returned(None)
    ensures 0.0 <= p <= 1.0 && |values| == 1 ==> PercentileType7(values, p) == Returned(Some(values[0]))
    ensures 0.0 <= p <= 1.0 && |values| > 1 ==>
              && k + 1 < |values| && 0.0 <= t <= 1.0 && p * (|values| - 1) as real == k as real + t
  {
    k, t := 0, 0.0;
    if 0.0 <= p <= 1.0 && |values| == 1 {
      OneSample(values, p);
    } else if 0.0 <= p <= 1.0 && |values| > 1 {
      var h := Place(|values|, p);
      k := if h.Floor == |values| - 1 then |values| - 2 else h.Floor;
      t := h - k as real;
    }
  }

  lemma OneSample(values: seq<real>, p: real)
    requires |values| == 1 && 0.0 <= p <= 1.0
    ensures PercentileType7(values, p) == Returned(Some(values[0]))
  {
    SortedKeeps(Itself, values);
    assert values == [values[0]];
    assert Sorted(Itself, values)[0] in multiset(values);
  }

  lemma PlaceOf(n: nat, k: nat)
    requires k < n && n > 1
    ensures 0.0 <= k as real / (n - 1) as real <= 1.0
    ensures Place(n, k as real / (n - 1) as real) == k as real
  {
    DivideBack(k as real, (n - 1) as real);
  }

  lemma PlaceGrows(n: nat, p: real, q: real)
    requires n > 0 && 0.0 <= p <= q <= 1.0
    ensures Place(n, p) <= Place(n, q)
  {
    var last := (n - 1) as real;
    calc {
      Place(n, p);
      last * p;
    <= { Scaled(last, p, q); }
      last * q;
      Place(n, q);
    }
  }

  lemma ValueAtWhole(ordered: seq<real>, k: nat)
    requires k < |ordered|
    ensures ValueAt(ordered, k as real) == ordered[k]
  {
    NeighbouringPlaces(k as real);
  }

  lemma DivideBack(x: real, n: real)
    requires 0.0 <= x <= n && n > 0.0
    ensures n * (x / n) == x && 0.0 <= x / n <= 1.0
  {
  }
}
