/** Averages and extremes of order prices (Calculator.cpp). Prices are exact
    reals here, so sums and quotients do not round. */
module Calculator {
  import opened Entry
  import opened StringOrder

  function Sum(xs: seq<real>): real {
    if xs == [] then 0.0 else Sum(xs[..|xs| - 1]) + xs[|xs| - 1]
  }

  function Prices(orders: seq<OrderBookEntry>): (ps: seq<real>)
    ensures |ps| == |orders|
    ensures forall i :: 0 <= i < |orders| ==> ps[i] == orders[i].price
  {
    seq(|orders|, i requires 0 <= i < |orders| => orders[i].price)
  }

  /** The arithmetic mean, 0 for no values: n values of the mean add up to the sum. */
  function Mean(xs: seq<real>): (m: real)
    ensures xs == [] ==> m == 0.0
    ensures m * (|xs| as real) == Sum(xs)
  {
    if |xs| == 0 then 0.0 else Sum(xs) / (|xs| as real)
  }

  /** The least value: below or equal to every value and one of them. */
  function MinOf(xs: seq<real>): (m: real)
    requires |xs| > 0
    ensures forall i :: 0 <= i < |xs| ==> m <= xs[i]
    ensures m in xs
  {
    if |xs| == 1 then xs[0]
    else
      var m := MinOf(xs[..|xs| - 1]);
      assert xs == xs[..|xs| - 1] + [xs[|xs| - 1]];
      if xs[|xs| - 1] < m then xs[|xs| - 1] else m
  }

  /** The greatest value: above or equal to every value and one of them. */
  function MaxOf(xs: seq<real>): (m: real)
    requires |xs| > 0
    ensures forall i :: 0 <= i < |xs| ==> xs[i] <= m
    ensures m in xs
  {
    if |xs| == 1 then xs[0]
    else
      var m := MaxOf(xs[..|xs| - 1]);
      assert xs == xs[..|xs| - 1] + [xs[|xs| - 1]];
      if xs[|xs| - 1] > m then xs[|xs| - 1] else m
  }

  lemma {:induction false} SumBounds(xs: seq<real>, lo: real, hi: real)
    requires forall i :: 0 <= i < |xs| ==> lo <= xs[i] <= hi
    ensures (|xs| as real) * lo <= Sum(xs) <= (|xs| as real) * hi
  {
    if xs != [] {
      SumBounds(xs[..|xs| - 1], lo, hi);
    }
  }

  lemma DivBetween(s: real, n: real, lo: real, hi: real)
    requires n > 0.0 && n * lo <= s <= n * hi
    ensures lo <= s / n <= hi
  {
    assert (s / n) * n == s;
  }

  /** Bounds on the values bound their mean. */
  lemma MeanWithin(xs: seq<real>, lo: real, hi: real)
    requires |xs| > 0
    requires forall i :: 0 <= i < |xs| ==> lo <= xs[i] <= hi
    ensures lo <= Mean(xs) <= hi
  {
    SumBounds(xs, lo, hi);
    DivBetween(Sum(xs), |xs| as real, lo, hi);
  }

  /** The mean of values lies between their least and their greatest. */
  lemma MeanBetween(xs: seq<real>)
    requires |xs| > 0
    ensures MinOf(xs) <= Mean(xs) <= MaxOf(xs)
  {
    MeanWithin(xs, MinOf(xs), MaxOf(xs));
  }

  /** The mean of equal values is that value. */
  lemma MeanOfConstant(xs: seq<real>, c: real)
    requires |xs| > 0 && forall i :: 0 <= i < |xs| ==> xs[i] == c
    ensures Mean(xs) == c
  {
    SumBounds(xs, c, c);
    assert Sum(xs) == (|xs| as real) * c;
  }

  /** `calculateAveragePriceOfOrders` over entries: 0 for none, otherwise the
      sum of the prices over their count. */
  method CalculateAveragePriceOfOrders(orders: seq<OrderBookEntry>) returns (avg: real)
    ensures avg == Mean(Prices(orders))
  {
    if |orders| == 0 {
      return 0.0;
    }
    var acc := 0.0;
    for i := 0 to |orders|
      invariant acc == Sum(Prices(orders)[..i])
    {
      assert Prices(orders)[..i + 1] == Prices(orders)[..i] + [orders[i].price];
      acc := acc + orders[i].price;
    }
    assert Prices(orders)[..|orders|] == Prices(orders);
    avg := acc / (|orders| as real);
  }

  /** The overload of `calculateAveragePriceOfOrders` over plain prices. */
  method CalculateAveragePriceOfValues(orders: seq<real>) returns (avg: real)
    ensures avg == Mean(orders)
  {
    if |orders| == 0 {
      return 0.0;
    }
    var acc := 0.0;
    for i := 0 to |orders|
      invariant acc == Sum(orders[..i])
    {
      assert orders[..i + 1] == orders[..i] + [orders[i]];
      acc := acc + orders[i];
    }
    assert orders[..|orders|] == orders;
    avg := acc / (|orders| as real);
  }

  /** `getLowPrice`: it reads `orders[0]` unchecked, so the input must not be empty. */
  method GetLowPrice(orders: seq<OrderBookEntry>) returns (min: real)
    requires |orders| > 0
    ensures min == MinOf(Prices(orders))
    ensures forall e :: e in orders ==> min <= e.price
    ensures exists e :: e in orders && e.price == min
  {
    min := orders[0].price;
    for i := 0 to |orders|
      invariant min == MinOf(Prices(orders)[..if i == 0 then 1 else i])
    {
      if orders[i].price < min {
        min := orders[i].price;
      }
      assert Prices(orders)[..i + 1][..i] == Prices(orders)[..i];
    }
    assert Prices(orders)[..|orders|] == Prices(orders);
    var k :| 0 <= k < |orders| && Prices(orders)[k] == min;
    assert orders[k] in orders;
  }

  /** `getHighPrice`: it reads `orders[0]` unchecked, so the input must not be empty. */
  method GetHighPrice(orders: seq<OrderBookEntry>) returns (max: real)
    requires |orders| > 0
    ensures max == MaxOf(Prices(orders))
    ensures forall e :: e in orders ==> e.price <= max
    ensures exists e :: e in orders && e.price == max
  {
    max := orders[0].price;
    for i := 0 to |orders|
      invariant max == MaxOf(Prices(orders)[..if i == 0 then 1 else i])
    {
      if orders[i].price > max {
        max := orders[i].price;
      }
      assert Prices(orders)[..i + 1][..i] == Prices(orders)[..i];
    }
    assert Prices(orders)[..|orders|] == Prices(orders);
    var k :| 0 <= k < |orders| && Prices(orders)[k] == max;
    assert orders[k] in orders;
  }

  /** `minOrMax` names an extreme that `calculateAverageMinMaxOverTimesteps` collects. */
  predicate IsMinOrMax(minOrMax: string) {
    minOrMax == "min" || minOrMax == "max"
  }

  /** The source hands every group to `getLowPrice`/`getHighPrice` without a
      check, so with "min" or "max" no group may be empty. */
  predicate GroupsReady(ordersPerTime: seq<seq<OrderBookEntry>>, minOrMax: string) {
    IsMinOrMax(minOrMax) ==> forall i :: 0 <= i < |ordersPerTime| ==> |ordersPerTime[i]| > 0
  }

  /** The per-group extremes collected in `minOrMaxPrices`: the least prices with
      "min", the greatest with "max", and nothing for any other word. */
  function Extremes(ordersPerTime: seq<seq<OrderBookEntry>>, minOrMax: string): (r: seq<real>)
    requires GroupsReady(ordersPerTime, minOrMax)
    ensures IsMinOrMax(minOrMax) ==> |r| == |ordersPerTime|
    ensures !IsMinOrMax(minOrMax) ==> r == []
  {
    if minOrMax == "min" then
      seq(|ordersPerTime|, i requires 0 <= i < |ordersPerTime| => MinOf(Prices(ordersPerTime[i])))
    else if minOrMax == "max" then
      seq(|ordersPerTime|, i requires 0 <= i < |ordersPerTime| => MaxOf(Prices(ordersPerTime[i])))
    else []
  }

  method CalculateAverageMinMaxOverTimesteps(ordersPerTime: seq<seq<OrderBookEntry>>, minOrMax: string)
    returns (avg: real)
    requires GroupsReady(ordersPerTime, minOrMax)
    ensures avg == Mean(Extremes(ordersPerTime, minOrMax))
    ensures !IsMinOrMax(minOrMax) ==> avg == 0.0
  {
    var minOrMaxPrices: seq<real> := [];
    ghost var all := Extremes(ordersPerTime, minOrMax);
    for i := 0 to |ordersPerTime|
      invariant |minOrMaxPrices| == if IsMinOrMax(minOrMax) then i else 0
      invariant forall k :: 0 <= k < |minOrMaxPrices| ==> minOrMaxPrices[k] == all[k]
    {
      var orders := ordersPerTime[i];
      if minOrMax == "min" {
        var low := GetLowPrice(orders);
        minOrMaxPrices := minOrMaxPrices + [low];
      } else if minOrMax == "max" {
        var high := GetHighPrice(orders);
        minOrMaxPrices := minOrMaxPrices + [high];
      }
    }
    assert minOrMaxPrices == all;
    avg := CalculateAveragePriceOfValues(minOrMaxPrices);
  }

  /** The forecast lies between the least and the greatest of the per-group
      extremes it averages. */
  lemma ForecastBetweenExtremes(ordersPerTime: seq<seq<OrderBookEntry>>, minOrMax: string)
    requires IsMinOrMax(minOrMax) && |ordersPerTime| > 0 && GroupsReady(ordersPerTime, minOrMax)
    ensures var xs := Extremes(ordersPerTime, minOrMax);
      MinOf(xs) <= Mean(xs) <= MaxOf(xs)
  {
    MeanBetween(Extremes(ordersPerTime, minOrMax));
  }

  /** Three bids at one time priced 10, 30 and 20: least 10, greatest 30, mean 20. */
  lemma ThreeBidsScenario(t: string, p: string)
    ensures var orders := [OrderBookEntry(10.0, t, p, Bid), OrderBookEntry(30.0, t, p, Bid), OrderBookEntry(20.0, t, p, Bid)];
      MinOf(Prices(orders)) == 10.0 && MaxOf(Prices(orders)) == 30.0 && Mean(Prices(orders)) == 20.0
  {
    var orders := [OrderBookEntry(10.0, t, p, Bid), OrderBookEntry(30.0, t, p, Bid), OrderBookEntry(20.0, t, p, Bid)];
    var ps := Prices(orders);
    assert ps == [10.0, 30.0, 20.0];
    assert ps[..2] == [10.0, 30.0] && ps[..2][..1] == [10.0] && [10.0][..0] == [];
    assert Sum([10.0]) == 10.0;
    assert Sum([10.0, 30.0]) == 40.0;
    assert Sum(ps) == 60.0;
  }

  /** A "max" forecast over two time steps whose greatest prices are 30 and 50 is 40. */
  lemma TwoStepForecastScenario(g1: seq<OrderBookEntry>, g2: seq<OrderBookEntry>)
    requires |g1| > 0 && |g2| > 0
    requires MaxOf(Prices(g1)) == 30.0 && MaxOf(Prices(g2)) == 50.0
    ensures Mean(Extremes([g1, g2], "max")) == 40.0
  {
    var xs := Extremes([g1, g2], "max");
    assert xs == [30.0, 50.0];
    assert xs[..1] == [30.0] && [30.0][..0] == [];
    assert Sum([30.0]) == 30.0;
    assert Sum(xs) == 80.0;
  }

  /** `compareTimestamps`: `t1 < t2` on strings. It never holds between equal
      strings, and one way or the other it holds between different ones. */
  predicate CompareTimestamps(t1: string, t2: string): (b: bool)
    ensures b ==> t1 != t2
    ensures t1 != t2 ==> b || Less(t2, t1)
  {
    LessIrreflexive(t1);
    LessTotal(t1, t2);
    Less(t1, t2)
  }

  /** Sorting strings by `Id` with `Less` is sorting with `compareTimestamps`: no
      string compares before its predecessor. */
  lemma SortedByCompareTimestamps(s: seq<string>)
    ensures SortedBy(s, Id) <==> forall i :: 0 <= i < |s| - 1 ==> !CompareTimestamps(s[i + 1], s[i])
  {
    SortedByAdjacent(s, Id);
  }

  lemma CompareTimestampsStrictTotal(t1: string, t2: string, t3: string)
    ensures !CompareTimestamps(t1, t1)
    ensures CompareTimestamps(t1, t2) ==> !CompareTimestamps(t2, t1)
    ensures CompareTimestamps(t1, t2) && CompareTimestamps(t2, t3) ==> CompareTimestamps(t1, t3)
    ensures t1 != t2 ==> CompareTimestamps(t1, t2) || CompareTimestamps(t2, t1)
  {
    LessIrreflexive(t1);
    LessAsymmetric(t1, t2);
    LessTotal(t1, t2);
    if CompareTimestamps(t1, t2) && CompareTimestamps(t2, t3) {
      LessTransitive(t1, t2, t3);
    }
  }
}
