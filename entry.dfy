/** One order of the book and the two-way mapping between side names and sides
    (OrderBookEntry.h, OrderBookEntry.cpp). */
module Entry {
  import opened StringOrder

  /** The side of an order; a side token that is neither "bid" nor "ask" reads as `Unknown`. */
  datatype OrderBookType = Bid | Ask | Unknown

  /** An order, built by storing its four fields unchanged; nothing is validated. */
  datatype OrderBookEntry = OrderBookEntry(
    price: real,
    timestamp: string,
    product: string,
    orderType: OrderBookType)

  /** Total: every string that is not "bid" or "ask" gives `Unknown`. */
  function StringToOrderBookType(s: string): (t: OrderBookType)
    ensures t == Bid <==> s == "bid"
    ensures t == Ask <==> s == "ask"
  {
    if s == "bid" then Bid
    else if s == "ask" then Ask
    else Unknown
  }

  /** The name of a side: one of the three side names, a different one per side. */
  function OrderBookTypeToString(t: OrderBookType): (s: string)
    ensures s in {"bid", "ask", "unknown"}
    ensures s == "bid" <==> t == Bid
    ensures s == "ask" <==> t == Ask
  {
    if t == Ask then "ask"
    else if t == Bid then "bid"
    else "unknown"
  }

  /** Reading back the name of a side gives the side. */
  lemma SideNameRoundTrip(t: OrderBookType)
    ensures StringToOrderBookType(OrderBookTypeToString(t)) == t
  {
  }

  /** Naming the side read from `s` gives `s` back exactly for the three side
      names; every other string comes back as "unknown". */
  lemma SideTokenRoundTrip(s: string)
    ensures OrderBookTypeToString(StringToOrderBookType(s)) == s <==> s in {"bid", "ask", "unknown"}
    ensures s !in {"bid", "ask"} ==> OrderBookTypeToString(StringToOrderBookType(s)) == "unknown"
  {
  }

  function TimestampOf(e: OrderBookEntry): string { e.timestamp }

  /** The comparator handed to std::sort: earlier timestamp first. It never holds
      between equal timestamps, and one way or the other it holds between
      different ones. */
  predicate CompareByTimestampAsc(e1: OrderBookEntry, e2: OrderBookEntry): (b: bool)
    ensures b ==> e1.timestamp != e2.timestamp
    ensures e1.timestamp != e2.timestamp ==> b || Less(e2.timestamp, e1.timestamp)
  {
    LessIrreflexive(e1.timestamp);
    LessTotal(e1.timestamp, e2.timestamp);
    Less(e1.timestamp, e2.timestamp)
  }

  /** Sorting by `TimestampOf` with `Less` is sorting with this comparator: no
      entry compares before its predecessor. */
  lemma SortedByTimestamp(s: seq<OrderBookEntry>)
    ensures SortedBy(s, TimestampOf) <==> forall i :: 0 <= i < |s| - 1 ==> !CompareByTimestampAsc(s[i + 1], s[i])
  {
    SortedByAdjacent(s, TimestampOf);
  }

  /** The comparator is a strict order (irreflexive and transitive) and orders
      any two entries whose timestamps differ. */
  lemma CompareByTimestampAscStrict(e1: OrderBookEntry, e2: OrderBookEntry, e3: OrderBookEntry)
    ensures !CompareByTimestampAsc(e1, e1)
    ensures CompareByTimestampAsc(e1, e2) ==> !CompareByTimestampAsc(e2, e1)
    ensures CompareByTimestampAsc(e1, e2) && CompareByTimestampAsc(e2, e3) ==> CompareByTimestampAsc(e1, e3)
    ensures e1.timestamp != e2.timestamp ==> CompareByTimestampAsc(e1, e2) || CompareByTimestampAsc(e2, e1)
  {
    LessIrreflexive(e1.timestamp);
    LessAsymmetric(e1.timestamp, e2.timestamp);
    LessTotal(e1.timestamp, e2.timestamp);
    if CompareByTimestampAsc(e1, e2) && CompareByTimestampAsc(e2, e3) {
      LessTransitive(e1.timestamp, e2.timestamp, e3.timestamp);
    }
  }

  /** `toString`: the fields separated by " | ", the price last. The price text is
      `std::to_string(price)`, a library conversion passed in here. */
  function ToString(e: OrderBookEntry, priceText: string): (s: string)
    ensures |s| == |e.timestamp| + |e.product| + |OrderBookTypeToString(e.orderType)| + |priceText| + 9
    ensures s[..|e.timestamp|] == e.timestamp && s[|s| - |priceText|..] == priceText
  {
    e.timestamp + " | " + e.product + " | " + OrderBookTypeToString(e.orderType) + " | " + priceText
  }

  /** The text starts with the timestamp, the product and the side name, each
      followed by " | ", and ends with the price text. */
  lemma ToStringLayout(e: OrderBookEntry, priceText: string)
    ensures var prefix := e.timestamp + " | " + e.product + " | " + OrderBookTypeToString(e.orderType) + " | ";
      var s := ToString(e, priceText);
      |s| == |prefix| + |priceText| && s[..|prefix|] == prefix && s[|prefix|..] == priceText
  {
  }
}
