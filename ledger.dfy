/** The loaded order book and its queries (OrderBook.h, OrderBook.cpp). */
module Ledger {
  import opened Wrappers
  import opened StringOrder
  import opened Entry
  import Csv

  function ProductsOf(orders: seq<OrderBookEntry>): set<string> {
    set e | e in orders :: e.product
  }

  function TimestampsOf(orders: seq<OrderBookEntry>): set<string> {
    set e | e in orders :: e.timestamp
  }

  /** The filter of `getOrders`: the side must be equal; an empty product or
      timestamp matches anything. */
  predicate Matches(e: OrderBookEntry, orderType: OrderBookType, product: string, timestamp: string) {
    && e.orderType == orderType
    && (product == "" || e.product == product)
    && (timestamp == "" || e.timestamp == timestamp)
  }

  /** The orders that pass the filter, in their original order. */
  function Matching(orders: seq<OrderBookEntry>, orderType: OrderBookType, product: string, timestamp: string)
    : (r: seq<OrderBookEntry>)
    ensures |r| <= |orders|
    ensures forall e :: e in r <==> e in orders && Matches(e, orderType, product, timestamp)
  {
    if orders == [] then []
    else
      var last := orders[|orders| - 1];
      assert orders == orders[..|orders| - 1] + [last];
      Matching(orders[..|orders| - 1], orderType, product, timestamp)
      + if Matches(last, orderType, product, timestamp) then [last] else []
  }

  /** Filtering keeps the original order: filtering two parts one after the
      other gives the filtered parts one after the other. */
  lemma {:induction false} MatchingAppend(a: seq<OrderBookEntry>, b: seq<OrderBookEntry>,
                                          orderType: OrderBookType, product: string, timestamp: string)
    ensures Matching(a + b, orderType, product, timestamp)
         == Matching(a, orderType, product, timestamp) + Matching(b, orderType, product, timestamp)
    decreases |b|
  {
    if b == [] {
      assert a + b == a;
    } else {
      var b', last := b[..|b| - 1], b[|b| - 1];
      var tail := if Matches(last, orderType, product, timestamp) then [last] else [];
      assert (a + b)[..|a + b| - 1] == a + b' && (a + b)[|a + b| - 1] == last;
      calc {
        Matching(a + b, orderType, product, timestamp);
        Matching(a + b', orderType, product, timestamp) + tail;
        { MatchingAppend(a, b', orderType, product, timestamp); }
        (Matching(a, orderType, product, timestamp) + Matching(b', orderType, product, timestamp)) + tail;
        Matching(a, orderType, product, timestamp) + (Matching(b', orderType, product, timestamp) + tail);
        Matching(a, orderType, product, timestamp) + Matching(b, orderType, product, timestamp);
      }
    }
  }

  /** With both wildcards left at "", `getOrders` returns every order of the side. */
  lemma WildcardsSelectSide(orders: seq<OrderBookEntry>, orderType: OrderBookType)
    ensures forall e :: e in Matching(orders, orderType, "", "") <==> e in orders && e.orderType == orderType
  {
  }

  /** `getNextTime`'s scan: the first index at or after `from` whose timestamp
      is later than `timestamp`, or |timestamps| when there is none. */
  function FirstLater(timestamps: seq<string>, timestamp: string, from: nat): (i: nat)
    requires from <= |timestamps|
    ensures from <= i <= |timestamps|
    ensures forall j :: from <= j < i ==> !Less(timestamp, timestamps[j])
    ensures i < |timestamps| ==> Less(timestamp, timestamps[i])
    decreases |timestamps| - from
  {
    if from == |timestamps| then from
    else if Less(timestamp, timestamps[from]) then from
    else FirstLater(timestamps, timestamp, from + 1)
  }

  /** What `getNextTime` returns: the first timestamp later than `timestamp`
      with its index, or the first timestamp with index 0 when none is later. */
  function NextTime(timestamps: seq<string>, timestamp: string): (r: (string, int))
    requires |timestamps| > 0
    ensures 0 <= r.1 < |timestamps| && r.0 == timestamps[r.1]
    ensures forall j :: 0 <= j < r.1 ==> !Less(timestamp, timestamps[j])
    ensures Less(timestamp, r.0)
         || (r.1 == 0 && forall j :: 0 <= j < |timestamps| ==> !Less(timestamp, timestamps[j]))
  {
    var i := FirstLater(timestamps, timestamp, 0);
    if i < |timestamps| then (timestamps[i], i) else (timestamps[0], 0)
  }

  /** On an ascending timeline the result is the least timestamp later than the
      argument, when there is one. */
  lemma NextTimeIsSuccessor(timestamps: seq<string>, timestamp: string, j: nat)
    requires |timestamps| > 0 && StrictlySorted(timestamps)
    requires j < |timestamps| && Less(timestamp, timestamps[j])
    ensures var r := NextTime(timestamps, timestamp);
      Less(timestamp, r.0) && r.1 <= j && (r.0 == timestamps[j] || Less(r.0, timestamps[j]))
  {
  }

  /** On an ascending timeline no timestamp up to the i-th is later than the i-th. */
  lemma NoneLaterUpTo(timestamps: seq<string>, i: nat)
    requires StrictlySorted(timestamps) && i < |timestamps|
    ensures forall j :: 0 <= j <= i ==> !Less(timestamps[i], timestamps[j])
  {
    forall j | 0 <= j <= i ensures !Less(timestamps[i], timestamps[j]) {
      if j == i {
        LessIrreflexive(timestamps[i]);
      } else {
        LessAsymmetric(timestamps[j], timestamps[i]);
      }
    }
  }

  /** `NextTime` from the i-th timestamp, given that none up to it is later and
      that the next one, if any, is. */
  lemma NextTimeAfter(timestamps: seq<string>, i: nat)
    requires i < |timestamps|
    requires forall j :: 0 <= j <= i ==> !Less(timestamps[i], timestamps[j])
    requires i + 1 < |timestamps| ==> Less(timestamps[i], timestamps[i + 1])
    ensures NextTime(timestamps, timestamps[i])
         == if i + 1 < |timestamps| then (timestamps[i + 1], i + 1) else (timestamps[0], 0)
  {
    var k := FirstLater(timestamps, timestamps[i], 0);
    if i + 1 < |timestamps| {
      assert k == i + 1;
    } else {
      assert k == |timestamps|;
    }
  }

  /** Stepping from the i-th timestamp of an ascending timeline lands on the
      next one, and from the last one wraps around to the first. */
  lemma NextTimeCycles(timestamps: seq<string>, i: nat)
    requires StrictlySorted(timestamps) && i < |timestamps|
    ensures NextTime(timestamps, timestamps[i])
         == (timestamps[(i + 1) % |timestamps|], (i + 1) % |timestamps|)
  {
    NoneLaterUpTo(timestamps, i);
    NextTimeAfter(timestamps, i);
    WrapIndex(i, |timestamps|);
  }

  /** The index after i on a cycle of n. */
  lemma WrapIndex(i: nat, n: nat)
    requires i < n
    ensures (i + 1) % n == if i + 1 < n then i + 1 else 0
  {
  }

  /** Distinct products in ascending order: the keys of `prodMap` in `populateProducts`. */
  method PopulateProducts(orders: seq<OrderBookEntry>) returns (products: seq<string>)
    ensures SortedDistinctOf(products, ProductsOf(orders))
  {
    // the keys of the std::map, in its iteration order
    var prodMap: seq<string> := [];
    for i := 0 to |orders|
      invariant SortedDistinctOf(prodMap, ProductsOf(orders[..i]))
    {
      prodMap := InsertKey(prodMap, orders[i].product);
      assert orders[..i + 1] == orders[..i] + [orders[i]];
    }
    assert orders[..|orders|] == orders;
    products := [];
    for i := 0 to |prodMap|
      invariant products == prodMap[..i]
    {
      products := products + [prodMap[i]];
    }
    assert prodMap[..|prodMap|] == prodMap;
  }

  /** Distinct timestamps in ascending order: the keys of `timeMap` in
      `populateTimestamps`, then sorted again, which changes nothing. */
  method PopulateTimestamps(orders: seq<OrderBookEntry>) returns (timestamps: seq<string>)
    ensures SortedDistinctOf(timestamps, TimestampsOf(orders))
  {
    var timeMap: seq<string> := [];
    for i := 0 to |orders|
      invariant SortedDistinctOf(timeMap, TimestampsOf(orders[..i]))
    {
      timeMap := InsertKey(timeMap, orders[i].timestamp);
      assert orders[..i + 1] == orders[..i] + [orders[i]];
    }
    assert orders[..|orders|] == orders;
    timestamps := [];
    for i := 0 to |timeMap|
      invariant timestamps == timeMap[..i]
    {
      timestamps := timestamps + [timeMap[i]];
    }
    assert timeMap[..|timeMap|] == timeMap;
    SortByStrictlySorted(timestamps, Id);
    timestamps := SortBy(timestamps, Id);
  }

  /** The order book: the orders of a file and the two indexes derived from
      them once, at construction. None of them changes afterwards. */
  class OrderBook {
    const orders: seq<OrderBookEntry>
    const products: seq<string>
    const timestamps: seq<string>

    /** The side names that queries accept, with their sides; "unknown" is not one. */
    const orderBookTypes: map<string, OrderBookType> := map["ask" := Ask, "bid" := Bid]

    /** `products` and `timestamps` list the distinct products and timestamps
        of the orders in ascending order, and every order came from a line
        whose timestamp and product fields were non-empty and comma-free. */
    ghost predicate Valid() {
      && SortedDistinctOf(products, ProductsOf(orders))
      && SortedDistinctOf(timestamps, TimestampsOf(orders))
      && forall e :: e in orders ==> Csv.IsField(e.timestamp, ',') && Csv.IsField(e.product, ',')
    }

    /** Loads the lines of a file; `stod` is the library's text-to-number conversion. */
    constructor (lines: seq<string>, stod: string -> Option<real>)
      ensures orders == Csv.LoadedEntries(lines, stod)
      ensures Valid()
    {
      var loaded := Csv.ReadCSV(lines, stod);
      var distinctProducts := PopulateProducts(loaded);
      var distinctTimestamps := PopulateTimestamps(loaded);
      Csv.LoadedEntriesFields(lines, stod);
      orders := loaded;
      products := distinctProducts;
      timestamps := distinctTimestamps;
    }

    /** A book has timestamps exactly when it has orders. */
    lemma NonEmptyBook()
      requires Valid()
      ensures |timestamps| > 0 <==> |orders| > 0
      ensures forall t :: t in timestamps ==> t != ""
    {
      if |orders| > 0 {
        assert orders[0].timestamp in TimestampsOf(orders);
      }
      if |timestamps| > 0 {
        assert timestamps[0] in TimestampsOf(orders);
      }
    }

    method GetOrders(orderType: OrderBookType, product: string := "", timestamp: string := "")
      returns (ordersSub: seq<OrderBookEntry>)
      ensures ordersSub == Matching(orders, orderType, product, timestamp)
    {
      ordersSub := [];
      for i := 0 to |orders|
        invariant ordersSub == Matching(orders[..i], orderType, product, timestamp)
      {
        var e := orders[i];
        if e.orderType == orderType && (product == "" || e.product == product)
           && (timestamp == "" || e.timestamp == timestamp) {
          ordersSub := ordersSub + [e];
        }
        assert orders[..i + 1][..i] == orders[..i];
      }
      assert orders[..|orders|] == orders;
    }

    /** `getEarliestTime` reads `timestamps[0]`, so the book must not be empty;
        the result is the timestamp of an order and no order is earlier. */
    method GetEarliestTime() returns (earliest: string)
      requires Valid() && |timestamps| > 0
      ensures earliest == timestamps[0]
      ensures earliest in TimestampsOf(orders)
      ensures forall e :: e in orders ==> !Less(e.timestamp, earliest)
    {
      earliest := timestamps[0];
      assert earliest in timestamps;
      forall e | e in orders ensures !Less(e.timestamp, earliest) {
        assert e.timestamp in TimestampsOf(orders);
        var j :| 0 <= j < |timestamps| && timestamps[j] == e.timestamp;
        if j == 0 {
          LessIrreflexive(earliest);
        } else {
          LessAsymmetric(earliest, e.timestamp);
        }
      }
    }

    /** `getNextTime` reads `timestamps[0]` when no timestamp is later, so the
        book must not be empty. */
    method GetNextTime(timestamp: string) returns (next: (string, int))
      requires |timestamps| > 0
      ensures next == NextTime(timestamps, timestamp)
    {
      var nextTimestamp := "";
      var timestampIndex := 0;
      var i := 0;
      while i < |timestamps|
        invariant 0 <= i <= |timestamps|
        invariant nextTimestamp == ""
        invariant forall j :: 0 <= j < i ==> !Less(timestamp, timestamps[j])
      {
        if Less(timestamp, timestamps[i]) {
          nextTimestamp := timestamps[i];
          timestampIndex := i;
          break;
        }
        i := i + 1;
      }
      if nextTimestamp == "" {
        nextTimestamp := timestamps[0];
        timestampIndex := 0;
      }
      next := (nextTimestamp, timestampIndex);
      assert FirstLater(timestamps, timestamp, 0) == if i < |timestamps| then i else |timestamps|;
    }

    /** A product is known exactly when some order is for it. */
    predicate CheckProductExists(product: string)
      requires Valid()
      ensures CheckProductExists(product) <==> exists e :: e in orders && e.product == product
    {
      product in products
    }

    /** A side name is valid exactly when it is "ask" or "bid", and its side is
        the one the total conversion gives. */
    predicate IsValidOrderType(orderType: string)
      ensures IsValidOrderType(orderType) <==> orderType == "ask" || orderType == "bid"
      ensures IsValidOrderType(orderType) ==> orderBookTypes[orderType] == StringToOrderBookType(orderType)
      ensures IsValidOrderType(orderType) ==> orderBookTypes[orderType] != Unknown
    {
      orderType in orderBookTypes
    }
  }
}
