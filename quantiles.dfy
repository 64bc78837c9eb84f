/** Quintile binning as `pd.qcut(x, 5, labels=...)` does it, and the
    first-occurrence ranking `Series.rank(method='first')`.

    Edges are the quantiles at 0, 0.2, ..., 1 of the values, linearly
    interpolated between neighbouring order statistics (the default of
    `Series.quantile`), computed here over exact reals. A value falls in
    the right-closed interval (e[i-1], e[i]]; the lowest edge itself goes to
    the first bin. Edges that are not all distinct raise an error
    (`duplicates='raise'`). */
module Quantiles {
  import opened Results
  import opened Tables

  const Bins: nat := 5

  predicate Sorted(v: seq<real>)
  {
    forall i, j :: 0 <= i <= j < |v| ==> v[i] <= v[j]
  }

  /** Puts `x` in its place in an ascending sequence. */
  function Insert(v: seq<real>, x: real): (r: seq<real>)
    requires Sorted(v)
    ensures Sorted(r)
    ensures multiset(r) == multiset(v) + multiset{x}
  {
    if v == [] || x <= v[0] then
      SortedCons(x, v);
      [x] + v
    else
      SortedTail(v);
      var t := Insert(v[1..], x);
      assert v == [v[0]] + v[1..];
      LowerBoundOfInsert(v, x, t);
      SortedCons(v[0], t);
      [v[0]] + t
  }

  /** Dropping the first value keeps values ascending. */
  lemma SortedTail(v: seq<real>)
    requires Sorted(v) && v != []
    ensures Sorted(v[1..])
  {
    forall i, j | 0 <= i <= j < |v[1..]|
      ensures v[1..][i] <= v[1..][j]
    {
      assert v[1..][i] == v[i + 1] && v[1..][j] == v[j + 1];
    }
  }

  /** A value no larger than any of ascending values can go in front. */
  lemma SortedCons(a: real, t: seq<real>)
    requires Sorted(t)
    requires (forall y :: y in t ==> a <= y) || t == [] || a <= t[0]
    ensures Sorted([a] + t)
  {
    var u := [a] + t;
    forall i, j | 0 <= i <= j < |u|
      ensures u[i] <= u[j]
    {
      if 0 < i {
        assert u[i] == t[i - 1] && u[j] == t[j - 1];
      } else if 0 < j {
        assert u[j] == t[j - 1] && t[j - 1] in t;
        if t != [] {
          assert t[0] <= t[j - 1];
        }
      }
    }
  }

  /** Inserting a value above the first one leaves the first one below all. */
  lemma LowerBoundOfInsert(v: seq<real>, x: real, t: seq<real>)
    requires Sorted(v) && v != [] && v[0] < x
    requires multiset(t) == multiset(v[1..]) + multiset{x}
    ensures forall y :: y in t ==> v[0] <= y
  {
    forall y | y in t
      ensures v[0] <= y
    {
      assert y in multiset(t);
      if y != x {
        assert y in multiset(v[1..]);
        var k :| 0 <= k < |v[1..]| && v[1..][k] == y;
        assert y == v[k + 1];
      }
    }
  }

  /** The values in ascending order. */
  function Sort(v: seq<real>): (r: seq<real>)
    ensures Sorted(r)
    ensures multiset(r) == multiset(v)
  {
    if v == [] then []
    else
      assert v == v[..|v| - 1] + [v[|v| - 1]];
      Insert(Sort(v[..|v| - 1]), v[|v| - 1])
  }

  lemma PositionBound(n: nat, k: nat)
    requires n > 0 && k <= Bins
    ensures 0 <= (n - 1) * k <= (n - 1) * Bins
  {
  }

  /** The value at position h/5 of ascending values, linearly interpolated
      between the values at the floor and at the ceiling of that position. */
  function Interpolate(v: seq<real>, h: nat): real
    requires |v| > 0 && h <= Bins * (|v| - 1)
  {
    var lo := h / 5;
    if h % 5 == 0 then v[lo]
    else v[lo] + ((h % 5) as real / 5.0) * (v[lo + 1] - v[lo])
  }

  /** The quantile at k/5 of ascending values (`Series.quantile` with linear
      interpolation): position (n-1)·k/5. */
  function Quantile(v: seq<real>, k: nat): real
    requires |v| > 0 && k <= Bins
  {
    PositionBound(|v|, k);
    Interpolate(v, (|v| - 1) * k)
  }

  /** The six bin edges `qcut` computes for `values`. */
  function Edges(values: seq<real>): (e: seq<real>)
    requires |values| > 0
    ensures |e| == Bins + 1
  {
    var v := Sort(values);
    seq(Bins + 1, k requires 0 <= k <= Bins => Quantile(v, k))
  }

  /** How many edges lie strictly below `x` (`searchsorted(x, side='left')`). */
  function CountBelow(e: seq<real>, x: real): (c: nat)
    ensures c <= |e|
  {
    if e == [] then 0 else (if e[0] < x then 1 else 0) + CountBelow(e[1..], x)
  }

  /** The bin of `x`, 1 to 5: the number of edges below it, with the lowest
      edge itself counted in bin 1 (`include_lowest=True`). */
  function BinOf(e: seq<real>, x: real): nat
    requires |e| > 0
  {
    if x == e[0] then 1 else CountBelow(e, x)
  }

  /** What goes wrong in `pd.qcut`. */
  datatype QcutError = DuplicateEdges

  /** The bin number, 1 to 5, of every value, or the error `qcut` raises.
      The quantiles of no values are all undefined, and undefined edges
      count as one repeated edge, so an empty column raises too. */
  function QcutBins(values: seq<real>): (r: Result<seq<nat>, QcutError>)
    ensures r.Ok? ==> |r.value| == |values|
    ensures r.Ok? ==> forall i :: 0 <= i < |values| ==> 1 <= r.value[i] <= Bins
  {
    if |values| == 0 then Err(DuplicateEdges)
    else
      var e := Edges(values);
      if !Distinct(e) then Err(DuplicateEdges)
      else
        EdgesSpan(values);
        assert forall i :: 0 <= i < |values| ==> 1 <= BinOf(e, values[i]) <= Bins by {
          forall i | 0 <= i < |values|
            ensures 1 <= BinOf(e, values[i]) <= Bins
          {
            BinInRange(e, values[i]);
          }
        }
        Ok(seq(|values|, i requires 0 <= i < |values| => BinOf(e, values[i])))
  }

  /** `pd.qcut(values, 5, labels=labels)`: the label of every value's bin. */
  function Qcut(values: seq<real>, labels: seq<int>): (r: Result<seq<int>, QcutError>)
    requires |labels| == Bins
    ensures r.Ok? <==> QcutBins(values).Ok?
    ensures r.Ok? ==> |r.value| == |values|
    ensures r.Ok? ==> forall i :: 0 <= i < |values| ==> r.value[i] in labels
    ensures r.Ok? ==> forall i :: 0 <= i < |values| ==> r.value[i] == labels[QcutBins(values).value[i] - 1]
  {
    match QcutBins(values)
    case Err(err) => Err(err)
    case Ok(b) => Ok(seq(|b|, i requires 0 <= i < |b| => labels[b[i] - 1]))
  }

  // ---------------------------------------------------------------------
  // The edges

  lemma SortedMembers(v: seq<real>, values: seq<real>, x: real)
    requires Sorted(v) && multiset(v) == multiset(values) && |v| > 0
    requires x in values
    ensures v[0] <= x <= v[|v| - 1]
  {
    assert x in multiset(values);
    assert x in multiset(v);
    var j :| 0 <= j < |v| && v[j] == x;
  }

  /** The first edge is the least value and the last the greatest. */
  lemma EdgesSpan(values: seq<real>)
    requires |values| > 0
    ensures forall i :: 0 <= i < |values| ==> Edges(values)[0] <= values[i] <= Edges(values)[Bins]
  {
    var v := Sort(values);
    assert Edges(values)[0] == v[0];
    assert Edges(values)[Bins] == v[|v| - 1];
    forall i | 0 <= i < |values|
      ensures v[0] <= values[i] <= v[|v| - 1]
    {
      SortedMembers(v, values, values[i]);
    }
  }

  /** An interpolated value lies between the value at its position's floor
      and the next one. */
  lemma InterpolateBracket(v: seq<real>, h: nat)
    requires Sorted(v) && |v| > 0 && h <= Bins * (|v| - 1)
    ensures v[h / 5] <= Interpolate(v, h)
    ensures h % 5 != 0 ==> h / 5 + 1 < |v| && Interpolate(v, h) <= v[h / 5 + 1]
  {
    var lo, r := h / 5, h % 5;
    assert h == 5 * lo + r && 0 <= r < 5;
    if r != 0 {
      assert lo + 1 < |v|;
      var a, d := r as real / 5.0, v[lo + 1] - v[lo];
      assert 0.0 <= d;
      FractionOfGap(a, d);
      assert Interpolate(v, h) == v[lo] + a * d;
    }
  }

  /** Interpolation moves forward with the position. */
  lemma InterpolateMonotone(v: seq<real>, h: nat, h': nat)
    requires Sorted(v) && |v| > 0 && h <= h' <= Bins * (|v| - 1)
    ensures Interpolate(v, h) <= Interpolate(v, h')
  {
    var lo, lo' := h / 5, h' / 5;
    InterpolateBracket(v, h);
    InterpolateBracket(v, h');
    if lo == lo' {
      if h % 5 != 0 {
        GapFractionsOrdered(h % 5, h' % 5, v[lo], v[lo + 1]);
      }
    } else {
      assert v[lo + 1] <= v[lo'];
    }
  }

  /** Quantiles grow with the quantile level, so the edges never decrease. */
  lemma QuantileMonotone(v: seq<real>, k: nat)
    requires Sorted(v) && |v| > 0 && k < Bins
    ensures Quantile(v, k) <= Quantile(v, k + 1)
  {
    PositionBound(|v|, k);
    PositionBound(|v|, k + 1);
    InterpolateMonotone(v, (|v| - 1) * k, (|v| - 1) * (k + 1));
  }

  lemma GapFractionsOrdered(a: int, b: int, x: real, y: real)
    requires 0 < a <= b < 5 && x <= y
    ensures x + (a as real / 5.0) * (y - x) <= x + (b as real / 5.0) * (y - x)
  {
    var fa, fb, d := a as real / 5.0, b as real / 5.0, y - x;
    assert fa <= fb && 0.0 <= d;
    MulNonNegative(fb - fa, d);
    assert fb * d - fa * d == (fb - fa) * d;
  }

  lemma MulNonNegative(p: real, q: real)
    requires 0.0 <= p && 0.0 <= q
    ensures 0.0 <= p * q
  {
  }

  lemma FractionOfGap(a: real, d: real)
    requires 0.0 <= a <= 1.0 && 0.0 <= d
    ensures 0.0 <= a * d <= d
  {
  }

  /** The six edges never decrease, so they are distinct exactly when each is
      below the next. */
  lemma EdgesNonDecreasing(values: seq<real>)
    requires |values| > 0
    ensures forall k :: 0 <= k < Bins ==> Edges(values)[k] <= Edges(values)[k + 1]
    ensures Distinct(Edges(values)) <==> forall k :: 0 <= k < Bins ==> Edges(values)[k] < Edges(values)[k + 1]
  {
    var v := Sort(values);
    var e := Edges(values);
    forall k | 0 <= k < Bins
      ensures e[k] <= e[k + 1]
    {
      QuantileMonotone(v, k);
    }
    if forall k :: 0 <= k < Bins ==> e[k] < e[k + 1] {
      forall i, j | 0 <= i < j <= Bins
        ensures e[i] < e[j]
      {
        AscendingChain(e, i, j);
      }
    }
  }

  lemma {:induction false} AscendingChain(e: seq<real>, i: nat, j: nat)
    requires forall k :: 0 <= k < |e| - 1 ==> e[k] < e[k + 1]
    requires i < j < |e|
    ensures e[i] < e[j]
  {
    if i + 1 < j {
      AscendingChain(e, i, j - 1);
    }
  }

  // ---------------------------------------------------------------------
  // The bins

  lemma {:induction false} CountBelowMonotone(e: seq<real>, x: real, y: real)
    requires x <= y
    ensures CountBelow(e, x) <= CountBelow(e, y)
  {
    if e != [] {
      CountBelowMonotone(e[1..], x, y);
    }
  }

  lemma {:induction false} CountBelowLast(e: seq<real>, x: real)
    requires |e| > 0 && x <= e[|e| - 1]
    ensures CountBelow(e, x) < |e|
  {
    if |e| > 1 {
      CountBelowLast(e[1..], x);
    }
  }

  /** Every value between the first and the last edge has a bin from 1 to 5. */
  lemma BinInRange(e: seq<real>, x: real)
    requires |e| == Bins + 1 && e[0] <= x <= e[Bins]
    ensures 1 <= BinOf(e, x) <= Bins
  {
    CountBelowLast(e, x);
  }

  /** A larger value never lands in a lower bin. */
  lemma BinMonotone(e: seq<real>, x: real, y: real)
    requires |e| > 0 && e[0] <= x <= y
    ensures BinOf(e, x) <= BinOf(e, y)
  {
    CountBelowMonotone(e, x, y);
  }

  /** On ascending edges the edges below `x` are a prefix. */
  lemma {:induction false} CountBelowSplit(e: seq<real>, x: real)
    requires forall i, j :: 0 <= i < j < |e| ==> e[i] < e[j]
    ensures forall j :: 0 <= j < CountBelow(e, x) ==> e[j] < x
    ensures forall j :: CountBelow(e, x) <= j < |e| ==> x <= e[j]
  {
    if e != [] {
      CountBelowSplit(e[1..], x);
      if e[0] < x {
        forall j | 0 < j < CountBelow(e, x)
          ensures e[j] < x
        {
          assert e[j] == e[1..][j - 1];
        }
      } else {
        assert CountBelow(e[1..], x) == 0 by {
          CountBelowNone(e[1..], x);
        }
      }
    }
  }

  lemma {:induction false} CountBelowNone(e: seq<real>, x: real)
    requires forall j :: 0 <= j < |e| ==> x <= e[j]
    ensures CountBelow(e, x) == 0
  {
    if e != [] {
      CountBelowNone(e[1..], x);
    }
  }

  /** Value `x` lies in bin `i` of edges `e`: the right-closed interval
      (e[i-1], e[i]], the first bin also holding e[0]. */
  predicate InBin(e: seq<real>, i: nat, x: real)
    requires 1 <= i < |e|
  {
    (e[i - 1] < x <= e[i]) || (i == 1 && x == e[0])
  }

  /** The bin `BinOf` picks is the one interval that holds the value. */
  lemma BinIsInterval(e: seq<real>, x: real, i: nat)
    requires |e| == Bins + 1 && Distinct(e)
    requires forall k :: 0 <= k < Bins ==> e[k] <= e[k + 1]
    requires e[0] <= x <= e[Bins]
    requires 1 <= i <= Bins
    ensures BinOf(e, x) == i <==> InBin(e, i, x)
  {
    assert forall a, b :: 0 <= a < b < |e| ==> e[a] < e[b] by {
      forall a, b | 0 <= a < b < |e|
        ensures e[a] < e[b]
      {
        assert e[a] != e[b];
        NonDecreasingChain(e, a, b);
      }
    }
    CountBelowSplit(e, x);
    CountBelowLast(e, x);
  }

  lemma {:induction false} NonDecreasingChain(e: seq<real>, i: nat, j: nat)
    requires forall k :: 0 <= k < |e| - 1 ==> e[k] <= e[k + 1]
    requires i <= j < |e|
    ensures e[i] <= e[j]
  {
    if i < j {
      NonDecreasingChain(e, i, j - 1);
    }
  }

  /** Binning is monotone: a value no larger than another gets a bin no
      higher, whatever the column. */
  lemma QcutBinsMonotone(values: seq<real>, i: nat, j: nat)
    requires QcutBins(values).Ok?
    requires i < |values| && j < |values| && values[i] <= values[j]
    ensures QcutBins(values).value[i] <= QcutBins(values).value[j]
  {
    EdgesSpan(values);
    BinMonotone(Edges(values), values[i], values[j]);
  }

  /** Each value lies in the interval of the bin it was given. */
  lemma QcutBinsInterval(values: seq<real>, i: nat)
    requires QcutBins(values).Ok? && i < |values|
    ensures InBin(Edges(values), QcutBins(values).value[i], values[i])
  {
    EdgesSpan(values);
    EdgesNonDecreasing(values);
    BinIsInterval(Edges(values), values[i], QcutBins(values).value[i]);
  }

  /** A column whose values are all equal has six equal edges, so `qcut`
      raises (this covers a cohort of one). */
  lemma QcutConstantFails(values: seq<real>)
    requires |values| > 0
    requires forall i :: 0 <= i < |values| ==> values[i] == values[0]
    ensures QcutBins(values).Err?
  {
    var c := values[0];
    var v := Sort(values);
    SortConstant(values, c);
    EdgeAt(values, 0);
    EdgeAt(values, 1);
    PositionBound(|v|, 1);
    InterpolateConstant(v, c, 0);
    InterpolateConstant(v, c, |v| - 1);
    assert Edges(values)[0] == Edges(values)[1];
  }

  /** Edge k is the quantile at k/5 of the sorted values. */
  lemma EdgeAt(values: seq<real>, k: nat)
    requires |values| > 0 && k <= Bins
    ensures Edges(values)[k] == Quantile(Sort(values), k)
  {
  }

  /** Sorting a column of equal values leaves only that value. */
  lemma SortConstant(values: seq<real>, c: real)
    requires forall i :: 0 <= i < |values| ==> values[i] == c
    ensures forall i :: 0 <= i < |Sort(values)| ==> Sort(values)[i] == c
  {
    var v := Sort(values);
    forall i | 0 <= i < |v|
      ensures v[i] == c
    {
      assert v[i] in multiset(v);
      assert v[i] in multiset(values);
      var j :| 0 <= j < |values| && values[j] == v[i];
    }
  }

  /** Interpolating between equal values gives that value. */
  lemma InterpolateConstant(v: seq<real>, c: real, h: nat)
    requires |v| > 0 && h <= Bins * (|v| - 1)
    requires forall i :: 0 <= i < |v| ==> v[i] == c
    ensures Interpolate(v, h) == c
  {
    var lo := h / 5;
    if h % 5 != 0 {
      assert lo + 1 < |v|;
      assert v[lo + 1] - v[lo] == 0.0;
    }
  }

  /** An empty column raises as well. */
  lemma QcutEmptyFails()
    ensures QcutBins([]).Err?
  {
  }

  lemma MulPositive(p: real, q: real)
    requires 0.0 < p && 0.0 < q
    ensures 0.0 < p * q
  {
  }

  /** Moving r fifths of the way from `x` to a larger `y`, 0 < r < 5, stops
      strictly between them. */
  lemma FifthsInside(x: real, y: real, r: int)
    requires x < y && 0 < r < 5
    ensures x < x + (r as real / 5.0) * (y - x) < y
  {
    var a := r as real / 5.0;
    MulPositive(a, y - x);
    MulPositive(1.0 - a, y - x);
    assert (1.0 - a) * (y - x) == (y - x) - a * (y - x);
  }

  /** More fifths of the way from `x` to a larger `y` go further. */
  lemma FifthsOrder(x: real, y: real, r: int, r': int)
    requires x < y && r < r'
    ensures x + (r as real / 5.0) * (y - x) < x + (r' as real / 5.0) * (y - x)
  {
    var a, b := r as real / 5.0, r' as real / 5.0;
    MulPositive(b - a, y - x);
    assert (b - a) * (y - x) == b * (y - x) - a * (y - x);
  }

  lemma NeighboursStrict(v: seq<real>, i: nat)
    requires Sorted(v) && Distinct(v) && i + 1 < |v|
    ensures v[i] < v[i + 1]
  {
    assert v[i] <= v[i + 1] && v[i] != v[i + 1];
  }

  /** Strictly between two distinct neighbours, interpolation is strictly
      between them. */
  lemma InterpolateStrictBracket(v: seq<real>, h: nat)
    requires Sorted(v) && Distinct(v) && |v| > 0 && h <= Bins * (|v| - 1) && h % 5 != 0
    ensures h / 5 + 1 < |v|
    ensures v[h / 5] < Interpolate(v, h) < v[h / 5 + 1]
  {
    var lo, r := h / 5, h % 5;
    assert h == 5 * lo + r && 0 < r < 5;
    assert lo + 1 < |v|;
    NeighboursStrict(v, lo);
    FifthsInside(v[lo], v[lo + 1], r);
  }

  /** Within one gap between neighbours, a later position interpolates to a
      larger value. */
  lemma SameGapStrict(v: seq<real>, h: nat, h': nat)
    requires Sorted(v) && Distinct(v) && |v| > 0 && h < h' <= Bins * (|v| - 1)
    requires h / 5 == h' / 5
    ensures Interpolate(v, h) < Interpolate(v, h')
  {
    assert h % 5 < h' % 5;
    InterpolateStrictBracket(v, h');
    if h % 5 != 0 {
      var lo := h / 5;
      NeighboursStrict(v, lo);
      FifthsOrder(v[lo], v[lo + 1], h % 5, h' % 5);
    }
  }

  /** Positions in different gaps interpolate to values separated by the
      neighbour that ends the first gap. */
  lemma CrossGapStrict(v: seq<real>, h: nat, h': nat)
    requires Sorted(v) && Distinct(v) && |v| > 0 && h < h' <= Bins * (|v| - 1)
    requires h / 5 < h' / 5
    ensures Interpolate(v, h) < Interpolate(v, h')
  {
    var lo, lo' := h / 5, h' / 5;
    assert lo + 1 <= lo' < |v|;
    NeighboursStrict(v, lo);
    if h % 5 != 0 {
      InterpolateStrictBracket(v, h);
    }
    InterpolateBracket(v, h');
    assert v[lo + 1] <= v[lo'];
  }

  /** Over distinct ascending values interpolation strictly grows with the
      position. */
  lemma InterpolateStrict(v: seq<real>, h: nat, h': nat)
    requires Sorted(v) && Distinct(v) && |v| > 0 && h < h' <= Bins * (|v| - 1)
    ensures Interpolate(v, h) < Interpolate(v, h')
  {
    if h / 5 == h' / 5 {
      SameGapStrict(v, h, h');
    } else {
      CrossGapStrict(v, h, h');
    }
  }

  /** Two or more distinct values never make `qcut` raise: their edges are
      strictly ascending. Many ties, not few values, are what make it fail. */
  lemma QcutDistinctSucceeds(values: seq<real>)
    requires |values| >= 2 && Distinct(values)
    ensures QcutBins(values).Ok?
  {
    var v := Sort(values);
    SortDistinct(values);
    var n := |v|;
    forall k | 0 <= k < Bins
      ensures Edges(values)[k] < Edges(values)[k + 1]
    {
      EdgeAt(values, k);
      EdgeAt(values, k + 1);
      PositionBound(n, k);
      PositionBound(n, k + 1);
      MulStrict(n - 1, k, k + 1);
      InterpolateStrict(v, (n - 1) * k, (n - 1) * (k + 1));
    }
    EdgesNonDecreasing(values);
  }

  // ---------------------------------------------------------------------
  // First-occurrence ranks

  /** Row `j` ranks before row `i`: a smaller value, or an equal value in an
      earlier row. */
  predicate RanksBefore(f: seq<int>, j: nat, i: nat)
    requires j < |f| && i < |f|
  {
    f[j] < f[i] || (f[j] == f[i] && j < i)
  }

  /** How many of the first `k` rows rank before row `i`. */
  function CountBefore(f: seq<int>, i: nat, k: nat): (c: nat)
    requires i < |f| && k <= |f|
    ensures c <= k
  {
    if k == 0 then 0
    else CountBefore(f, i, k - 1) + (if RanksBefore(f, k - 1, i) then 1 else 0)
  }

  /** `Series.rank(method='first')` of row `i`. */
  function RankFirst(f: seq<int>, i: nat): nat
    requires i < |f|
  {
    1 + CountBefore(f, i, |f|)
  }

  /** The ranks of a whole column, as the floats `rank` returns. */
  function RanksFirst(f: seq<int>): (r: seq<real>)
    ensures |r| == |f|
  {
    seq(|f|, i requires 0 <= i < |f| => RankFirst(f, i) as real)
  }

  lemma {:induction false} CountBeforeSelf(f: seq<int>, i: nat, k: nat)
    requires i < |f| && k <= |f|
    ensures CountBefore(f, i, k) <= if i < k then k - 1 else k
  {
    if k > 0 {
      CountBeforeSelf(f, i, k - 1);
    }
  }

  /** A rank lies between 1 and the number of rows. */
  lemma RankFirstBounds(f: seq<int>, i: nat)
    requires i < |f|
    ensures 1 <= RankFirst(f, i) <= |f|
  {
    CountBeforeSelf(f, i, |f|);
  }

  lemma {:induction false} CountBeforeGrows(f: seq<int>, j: nat, i: nat, k: nat)
    requires j < |f| && i < |f| && k <= |f|
    requires RanksBefore(f, j, i)
    ensures CountBefore(f, j, k) + (if j < k then 1 else 0) <= CountBefore(f, i, k)
  {
    if k > 0 {
      CountBeforeGrows(f, j, i, k - 1);
    }
  }

  /** A row that ranks before another gets a smaller rank. */
  lemma RankFirstOrder(f: seq<int>, j: nat, i: nat)
    requires j < |f| && i < |f| && RanksBefore(f, j, i)
    ensures RankFirst(f, j) < RankFirst(f, i)
  {
    CountBeforeGrows(f, j, i, |f|);
  }

  /** A non-decreasing column is ranked 1, 2, ..., n in row order. */
  lemma RankFirstOfNonDecreasing(f: seq<int>, i: nat)
    requires forall a, b :: 0 <= a <= b < |f| ==> f[a] <= f[b]
    requires i < |f|
    ensures RankFirst(f, i) == i + 1
  {
    CountBeforeOfNonDecreasing(f, i, |f|);
  }

  lemma {:induction false} CountBeforeOfNonDecreasing(f: seq<int>, i: nat, k: nat)
    requires forall a, b :: 0 <= a <= b < |f| ==> f[a] <= f[b]
    requires i < |f| && k <= |f|
    ensures CountBefore(f, i, k) == if k < i then k else i
  {
    if k > 0 {
      CountBeforeOfNonDecreasing(f, i, k - 1);
    }
  }

  // ---------------------------------------------------------------------
  // Ranks are a permutation of 1..n, so their edges are always distinct

  function Iota(n: nat): (s: seq<real>)
    ensures |s| == n
    ensures forall i :: 0 <= i < n ==> s[i] == (i + 1) as real
  {
    seq(n, i requires 0 <= i < n => (i + 1) as real)
  }

  predicate Whole(x: real)
  {
    x == x.Floor as real
  }

  lemma {:induction false} DistinctMultiplicity(s: seq<real>, x: real)
    requires Distinct(s)
    ensures multiset(s)[x] <= 1
  {
    if s != [] {
      assert s == [s[0]] + s[1..];
      DistinctMultiplicity(s[1..], x);
      if s[0] == x {
        assert x !in s[1..];
      }
    }
  }

  /** Sorting keeps distinct values distinct. */
  lemma SortDistinct(s: seq<real>)
    requires Distinct(s)
    ensures Distinct(Sort(s))
  {
    var t := Sort(s);
    forall a, b | 0 <= a < b < |t|
      ensures t[a] != t[b]
    {
      if t[a] == t[b] {
        TwoOccurrences(t, a, b);
        DistinctMultiplicity(s, t[a]);
        assert false;
      }
    }
  }

  /** Ascending, distinct whole numbers between 1 and n, n of them, are 1..n. */
  lemma {:induction false} LowerBounds(t: seq<real>, i: nat)
    requires Sorted(t) && Distinct(t) && i < |t|
    requires forall x :: x in t ==> Whole(x) && 1.0 <= x
    ensures (i + 1) as real <= t[i]
  {
    if i > 0 {
      LowerBounds(t, i - 1);
      assert t[i - 1] in t && t[i] in t;
      assert t[i - 1] < t[i];
      assert t[i - 1].Floor < t[i].Floor;
    } else {
      assert t[0] in t;
    }
  }

  lemma {:induction false} UpperBounds(t: seq<real>, i: nat)
    requires Sorted(t) && Distinct(t) && i < |t|
    requires forall x :: x in t ==> Whole(x) && x <= |t| as real
    ensures t[i] <= (i + 1) as real
    decreases |t| - i
  {
    if i < |t| - 1 {
      UpperBounds(t, i + 1);
      assert t[i] in t && t[i + 1] in t;
      assert t[i] < t[i + 1];
      assert t[i].Floor < t[i + 1].Floor;
    } else {
      assert t[i] in t;
    }
  }

  /** The ranks of a column, sorted, are exactly 1, 2, ..., n. */
  lemma SortedRanksAreIota(f: seq<int>)
    ensures Sort(RanksFirst(f)) == Iota(|f|)
  {
    var r := RanksFirst(f);
    var n := |f|;
    assert Distinct(r) by {
      forall a, b | 0 <= a < b < n
        ensures r[a] != r[b]
      {
        if RanksBefore(f, a, b) {
          RankFirstOrder(f, a, b);
        } else {
          RankFirstOrder(f, b, a);
        }
      }
    }
    forall x | x in r
      ensures Whole(x) && 1.0 <= x <= n as real
    {
      var i :| 0 <= i < n && r[i] == x;
      RankFirstBounds(f, i);
    }
    var t := Sort(r);
    SortDistinct(r);
    forall x | x in t
      ensures x in r
    {
      assert x in multiset(t);
    }
    forall i | 0 <= i < n
      ensures t[i] == (i + 1) as real
    {
      LowerBounds(t, i);
      UpperBounds(t, i);
    }
  }

  /** Interpolating in 1..n at position h/5 gives exactly 1 + h/5. */
  lemma InterpolateIota(n: nat, h: nat)
    requires n > 0 && h <= Bins * (n - 1)
    ensures Interpolate(Iota(n), h) == 1.0 + h as real / 5.0
  {
    var lo := h / 5;
    assert h == 5 * lo + h % 5;
    assert (h as real) / 5.0 == lo as real + (h % 5) as real / 5.0;
  }

  /** Quantiles of 1..n fall at 1 + (n-1)·k/5 exactly. */
  lemma QuantileOfIota(n: nat, k: nat)
    requires n > 0 && k <= Bins
    ensures Quantile(Iota(n), k) == 1.0 + ((n - 1) * k) as real / 5.0
  {
    PositionBound(n, k);
    InterpolateIota(n, (n - 1) * k);
  }

  lemma MulStrict(m: nat, a: nat, b: nat)
    requires m > 0 && a < b
    ensures m * a < m * b
  {
  }

  /** The edges of a ranked column are 1 + (n-1)·k/5. */
  lemma RankEdges(f: seq<int>)
    requires |f| > 0
    ensures forall k :: 0 <= k <= Bins ==> Edges(RanksFirst(f))[k] == 1.0 + ((|f| - 1) * k) as real / 5.0
  {
    SortedRanksAreIota(f);
    forall k | 0 <= k <= Bins
      ensures Edges(RanksFirst(f))[k] == 1.0 + ((|f| - 1) * k) as real / 5.0
    {
      QuantileOfIota(|f|, k);
    }
  }

  /** From two rows on, the edges of a ranked column are distinct, so binning
      ranks never raises; with one row it does. */
  lemma RanksBinIffTwoRows(f: seq<int>)
    ensures QcutBins(RanksFirst(f)).Ok? <==> |f| >= 2
  {
    if |f| >= 2 {
      RankEdges(f);
      var e := Edges(RanksFirst(f));
      forall a, b | 0 <= a < b <= Bins
        ensures e[a] != e[b]
      {
        MulStrict(|f| - 1, a, b);
        var x, y := (|f| - 1) * a, (|f| - 1) * b;
        assert e[a] == 1.0 + x as real / 5.0 && e[b] == 1.0 + y as real / 5.0;
      }
    } else if |f| == 1 {
      QcutConstantFails(RanksFirst(f));
    }
  }

  function Below(a: real, x: real): nat
  {
    if a < x then 1 else 0
  }

  /** Six edges, counted one by one. */
  lemma CountBelowSix(e: seq<real>, x: real)
    requires |e| == 6
    ensures CountBelow(e, x) == Below(e[0], x) + Below(e[1], x) + Below(e[2], x) + Below(e[3], x) + Below(e[4], x) + Below(e[5], x)
  {
    assert e[5..][1..] == [];
    assert CountBelow(e[5..], x) == Below(e[5], x);
    assert e[4..][1..] == e[5..];
    assert CountBelow(e[4..], x) == Below(e[4], x) + CountBelow(e[5..], x);
    assert e[3..][1..] == e[4..];
    assert CountBelow(e[3..], x) == Below(e[3], x) + CountBelow(e[4..], x);
    assert e[2..][1..] == e[3..];
    assert CountBelow(e[2..], x) == Below(e[2], x) + CountBelow(e[3..], x);
    assert e[1..][1..] == e[2..];
    assert CountBelow(e[1..], x) == Below(e[1], x) + CountBelow(e[2..], x);
  }

  /** The bin of a rank among ten rows: edges 1, 2.8, 4.6, 6.4, 8.2, 10. */
  lemma BinOfTenRanks(x: nat)
    requires 1 <= x <= 10
    ensures BinOf([1.0, 2.8, 4.6, 6.4, 8.2, 10.0], x as real) == (x + 1) / 2
  {
    CountBelowSix([1.0, 2.8, 4.6, 6.4, 8.2, 10.0], x as real);
  }

  /** The bin of a rank among five rows: edges 1, 1.8, 2.6, 3.4, 4.2, 5. */
  lemma BinOfFiveRanks(x: nat)
    requires 1 <= x <= 5
    ensures BinOf([1.0, 1.8, 2.6, 3.4, 4.2, 5.0], x as real) == x
  {
    CountBelowSix([1.0, 1.8, 2.6, 3.4, 4.2, 5.0], x as real);
  }

  /** A successful binning gives each value the bin of its interval. */
  lemma QcutBinsValue(values: seq<real>, i: nat)
    requires QcutBins(values).Ok? && i < |values|
    ensures QcutBins(values).value[i] == BinOf(Edges(values), values[i])
  {
  }

  lemma TenRankEdges(f: seq<int>)
    requires |f| == 10
    ensures Edges(RanksFirst(f)) == [1.0, 2.8, 4.6, 6.4, 8.2, 10.0]
  {
    RankEdges(f);
  }

  lemma FiveRankEdges(f: seq<int>)
    requires |f| == 5
    ensures Edges(RanksFirst(f)) == [1.0, 1.8, 2.6, 3.4, 4.2, 5.0]
  {
    RankEdges(f);
  }

  /** Ten ranked rows fall two to a bin: ranks 1 and 2 in bin 1, 3 and 4 in
      bin 2, and so on. */
  lemma TenRanksPairUp(f: seq<int>)
    requires |f| == 10
    ensures QcutBins(RanksFirst(f)).Ok?
    ensures forall i :: 0 <= i < 10 ==> QcutBins(RanksFirst(f)).value[i] == (RankFirst(f, i) + 1) / 2
  {
    RanksBinIffTwoRows(f);
    TenRankEdges(f);
    forall i | 0 <= i < 10
      ensures QcutBins(RanksFirst(f)).value[i] == (RankFirst(f, i) + 1) / 2
    {
      RankFirstBounds(f, i);
      QcutBinsValue(RanksFirst(f), i);
      BinOfTenRanks(RankFirst(f, i));
    }
  }

  /** Five ranked rows get one bin each: the bin is the rank, whatever the
      values, ties included. */
  lemma FiveRanksSpread(f: seq<int>)
    requires |f| == 5
    ensures QcutBins(RanksFirst(f)).Ok?
    ensures forall i :: 0 <= i < 5 ==> QcutBins(RanksFirst(f)).value[i] == RankFirst(f, i)
  {
    RanksBinIffTwoRows(f);
    FiveRankEdges(f);
    forall i | 0 <= i < 5
      ensures QcutBins(RanksFirst(f)).value[i] == RankFirst(f, i)
    {
      RankFirstBounds(f, i);
      QcutBinsValue(RanksFirst(f), i);
      BinOfFiveRanks(RankFirst(f, i));
    }
  }

  /** Two ascending orders of the same values are the same sequence. */
  lemma {:induction false} SortedUnique(a: seq<real>, b: seq<real>)
    requires Sorted(a) && Sorted(b) && multiset(a) == multiset(b)
    ensures a == b
  {
    assert |a| == |multiset(a)| == |multiset(b)| == |b|;
    if a != [] {
      SortedHeads(a, b);
      SortedTail(a);
      SortedTail(b);
      SortedRest(a);
      SortedRest(b);
      SortedUnique(a[1..], b[1..]);
      assert a == [a[0]] + a[1..] && b == [b[0]] + b[1..];
    }
  }

  /** Ascending orders of the same values start with the same value. */
  lemma SortedHeads(a: seq<real>, b: seq<real>)
    requires Sorted(a) && Sorted(b) && multiset(a) == multiset(b) && a != [] && b != []
    ensures a[0] == b[0]
  {
    assert a[0] in multiset(b) && b[0] in multiset(a);
    var i :| 0 <= i < |b| && b[i] == a[0];
    var j :| 0 <= j < |a| && a[j] == b[0];
  }

  lemma SortedRest(a: seq<real>)
    requires a != []
    ensures multiset(a[1..]) == multiset(a) - multiset{a[0]}
  {
    assert a == [a[0]] + a[1..];
  }

  /** Sorting ascending values leaves them as they are. */
  lemma SortOfSorted(v: seq<real>)
    requires Sorted(v)
    ensures Sort(v) == v
  {
    SortedUnique(Sort(v), v);
  }

  lemma SortedByNeighbours(v: seq<real>)
    requires forall k :: 0 <= k < |v| - 1 ==> v[k] <= v[k + 1]
    ensures Sorted(v)
  {
    forall i, j | 0 <= i <= j < |v|
      ensures v[i] <= v[j]
    {
      NonDecreasingChain(v, i, j);
    }
  }

  /** The edges of ascending values are their quantiles. */
  lemma EdgeOfSorted(v: seq<real>, k: nat)
    requires |v| > 0 && Sorted(v) && k <= Bins
    ensures Edges(v)[k] == Quantile(v, k)
  {
    SortOfSorted(v);
  }

  /** The quantile at k/5 of eleven values is the value at position 2k. */
  lemma QuantileOfEleven(v: seq<real>, k: nat)
    requires |v| == 11 && k <= Bins
    ensures Quantile(v, k) == v[2 * k]
  {
  }

  /** The quantile at k/5 of four values sits 3k/5 of the way along. */
  lemma QuantileOfFour(v: seq<real>, k: nat)
    requires |v| == 4 && k <= Bins
    ensures Quantile(v, k) == Interpolate(v, 3 * k)
  {
  }

  /** Repeated edges make `qcut` raise. */
  lemma RepeatedEdgesRaise(v: seq<real>)
    requires |v| > 0 && !Distinct(Edges(v))
    ensures QcutBins(v).Err?
  {
  }

  /** The sample columns below are ascending. */
  lemma FourValuesSorted(v: seq<real>)
    requires v == [1.0, 2.0, 3.0, 4.0]
    ensures Sorted(v)
  {
    assert forall k :: 0 <= k < |v| - 1 ==> v[k] <= v[k + 1];
    SortedByNeighbours(v);
  }

  lemma ManyTiesSorted(v: seq<real>)
    requires v == [1.0, 1.0, 1.0, 1.0, 1.0, 1.0, 1.0, 2.0, 3.0, 4.0, 5.0]
    ensures Sorted(v)
  {
    assert forall k :: 0 <= k < |v| - 1 ==> v[k] <= v[k + 1];
    SortedByNeighbours(v);
  }

  lemma FourValuesEdges(v: seq<real>)
    requires v == [1.0, 2.0, 3.0, 4.0] && Sorted(v)
    ensures Edges(v) == [1.0, 1.6, 2.2, 2.8, 3.4, 4.0]
  {
    var e := Edges(v);
    forall k | 0 <= k <= Bins
      ensures e[k] == Interpolate(v, 3 * k)
    {
      EdgeOfSorted(v, k);
      QuantileOfFour(v, k);
    }
    assert Interpolate(v, 0) == 1.0;
    assert Interpolate(v, 3) == 1.6;
    assert Interpolate(v, 6) == 2.2;
    assert Interpolate(v, 9) == 2.8;
    assert Interpolate(v, 12) == 3.4;
    assert Interpolate(v, 15) == 4.0;
  }

  lemma ManyTiesEdges(v: seq<real>)
    requires v == [1.0, 1.0, 1.0, 1.0, 1.0, 1.0, 1.0, 2.0, 3.0, 4.0, 5.0] && Sorted(v)
    ensures Edges(v)[0] == Edges(v)[1]
  {
    EdgeOfSorted(v, 0);
    EdgeOfSorted(v, 1);
    QuantileOfEleven(v, 0);
    QuantileOfEleven(v, 1);
  }

  /** The bins of 1, 2, 3, 4 against the edges 1, 1.6, 2.2, 2.8, 3.4, 4. */
  lemma FourValuesBins(v: seq<real>, e: seq<real>)
    requires v == [1.0, 2.0, 3.0, 4.0] && e == [1.0, 1.6, 2.2, 2.8, 3.4, 4.0]
    ensures Distinct(e)
    ensures seq(|v|, i requires 0 <= i < |v| => BinOf(e, v[i])) == [1, 2, 4, 5]
  {
    CountBelowSix(e, 2.0);
    CountBelowSix(e, 3.0);
    CountBelowSix(e, 4.0);
  }

  /** Four distinct values are enough for `qcut`: the edges of 1, 2, 3, 4
      are 1, 1.6, 2.2, 2.8, 3.4, 4, and the values land in bins 1, 2, 4
      and 5, leaving bin 3 empty. */
  lemma FourValuesBin(v: seq<real>)
    requires v == [1.0, 2.0, 3.0, 4.0]
    ensures QcutBins(v) == Ok([1, 2, 4, 5])
  {
    FourValuesSorted(v);
    FourValuesEdges(v);
    FourValuesBins(v, Edges(v));
  }

  /** Five distinct values are not enough when one of them fills most of
      the column: seven 1s followed by 2, 3, 4, 5 give the edges 1, 1, 1,
      1, 3, 5, and `qcut` raises. */
  lemma ManyTiesRaise(v: seq<real>)
    requires v == [1.0, 1.0, 1.0, 1.0, 1.0, 1.0, 1.0, 2.0, 3.0, 4.0, 5.0]
    ensures QcutBins(v).Err?
  {
    ManyTiesSorted(v);
    ManyTiesEdges(v);
    RepeatedEdgesRaise(v);
  }
}
