/** The state and the computing steps of the advisor's commands
    (AdvisorMain.cpp): the time cursor, and the validation and arithmetic of
    `min`/`max`, `avg` and `predict`. Reading commands and printing results are
    not modelled. */
module Advisor {
  import opened Wrappers
  import opened StringOrder
  import opened Entry
  import opened Calculator
  import opened Ledger

  /** How a command ends instead of producing a number. */
  datatype CommandError =
    | InvalidArguments   // fewer words than the command needs
    | BadTimesteps       // the step count did not convert to an integer
    | UnknownProduct     // no order is for the product
    | InvalidSide        // neither "bid" nor "ask"
    | InvalidMinMax      // neither "min" nor "max"
    | OutOfBounds        // the source reads outside a vector here; its behaviour is undefined

  function Max(a: int, b: int): int {
    if a >= b then a else b
  }

  /** `avg`'s window over the time-sorted orders, as (timeStepsBack,
      timeStepsSkip): the slice averaged is [timeStepsSkip, timeStepsBack). */
  function Window(timeSteps: int, index: int): (w: (int, int))
    ensures w.1 >= 0
    ensures w.0 <= Max(index, 1)
    ensures timeSteps > index ==> w == (Max(index, 1), 0)
    ensures timeSteps <= index ==> w.0 == timeSteps && w.0 + w.1 == index
  {
    if timeSteps > index then (Max(index, 1), 0)
    else (timeSteps, Max(index - timeSteps, 0))
  }

  /** A request reaching further back than the current step is clamped to the
      steps elapsed (at least one): 10 steps asked at step 3 use 3, at step 0 use 1. */
  lemma WindowClamps()
    ensures Window(10, 3) == (3, 0)
    ensures Window(10, 0) == (1, 0)
  {
  }

  /** The source never checks the slice bounds. They hold exactly when the
      request is clamped and the clamped window fits the orders, or the request
      is at least half the current step and fits the orders. */
  lemma WindowInBounds(timeSteps: int, index: int, count: nat)
    ensures var w := Window(timeSteps, index);
      (0 <= w.1 <= w.0 <= count) <==>
        ((timeSteps > index && Max(index, 1) <= count)
         || (timeSteps <= index && index <= 2 * timeSteps && timeSteps <= count))
  {
  }

  /** At step 10, asking for 3 steps gives skip 7 past back 3: an inverted slice. */
  lemma WindowInverted()
    ensures Window(3, 10) == (3, 7)
  {
  }

  /** The orders of one side and product at each of the timestamps 0..index. */
  function GroupsUpTo(orders: seq<OrderBookEntry>, timestamps: seq<string>, orderType: OrderBookType,
                      product: string, index: int): (groups: seq<seq<OrderBookEntry>>)
    requires 0 <= index < |timestamps|
    ensures |groups| == index + 1
  {
    seq(index + 1, i requires 0 <= i <= index => Matching(orders, orderType, product, timestamps[i]))
  }

  class AdvisorMain {
    const orderBook: OrderBook
    /** The time cursor: a timestamp and its index in `orderBook.timestamps`;
        ("", 0) until `Init`. */
    var currentTime: (string, int)

    constructor (orderBook: OrderBook)
      ensures this.orderBook == orderBook
      ensures currentTime == ("", 0)
    {
      this.orderBook := orderBook;
      currentTime := ("", 0);
    }

    /** The cursor names a timestamp of the book by its index. */
    ghost predicate CursorValid()
      reads this
    {
      0 <= currentTime.1 < |orderBook.timestamps| && orderBook.timestamps[currentTime.1] == currentTime.0
    }

    /** The cursor part of `init`: it starts at the earliest timestamp, and only
        when it has not been set, so a retried `init` leaves it where it is. */
    method Init()
      requires orderBook.Valid()
      requires currentTime.0 == "" ==> |orderBook.timestamps| > 0
      modifies this
      ensures old(currentTime.0) == "" ==> currentTime == (orderBook.timestamps[0], 0)
      ensures old(currentTime.0) == "" ==> CursorValid() && currentTime.0 != ""
      ensures old(currentTime.0) != "" ==> currentTime == old(currentTime)
    {
      if currentTime.0 == "" {
        var earliest := orderBook.GetEarliestTime();
        currentTime := (earliest, 0);
        orderBook.NonEmptyBook();
      }
    }

    /** `moveToNextTimestep`: the next later timestamp, wrapping to the first
        after the last. */
    method MoveToNextTimestep()
      requires |orderBook.timestamps| > 0
      modifies this
      ensures currentTime == NextTime(orderBook.timestamps, old(currentTime.0))
      ensures CursorValid()
      ensures orderBook.Valid() && old(CursorValid())
              ==> currentTime.1 == (old(currentTime.1) + 1) % |orderBook.timestamps|
    {
      ghost var wasValid, i := CursorValid(), currentTime.1;
      currentTime := orderBook.GetNextTime(currentTime.0);
      if orderBook.Valid() && wasValid {
        NextTimeCycles(orderBook.timestamps, i);
      }
    }

    /** `min`/`max <product> <bid/ask>`: the least or greatest price among the
        orders of that side and product at the current timestamp. */
    method ProductMinMaxOfType(cmd: seq<string>) returns (r: Result<real, CommandError>)
      requires orderBook.Valid()
      ensures |cmd| < 3 ==> r == Failure(InvalidArguments)
      ensures |cmd| >= 3 && !orderBook.CheckProductExists(cmd[1]) ==> r == Failure(UnknownProduct)
      ensures |cmd| >= 3 && orderBook.CheckProductExists(cmd[1]) && !orderBook.IsValidOrderType(cmd[2])
              ==> r == Failure(InvalidSide)
      ensures |cmd| >= 3 && orderBook.CheckProductExists(cmd[1]) && orderBook.IsValidOrderType(cmd[2]) ==>
        var orders := Matching(orderBook.orders, orderBook.orderBookTypes[cmd[2]], cmd[1], currentTime.0);
        r == if !IsMinOrMax(cmd[0]) then Failure(InvalidMinMax)
             else if orders == [] then Failure(OutOfBounds)
             else if cmd[0] == "min" then Success(MinOf(Prices(orders)))
             else Success(MaxOf(Prices(orders)))
    {
      if |cmd| < 3 {
        return Failure(InvalidArguments);
      }
      var minOrMax, product, orderType := cmd[0], cmd[1], cmd[2];
      if !orderBook.CheckProductExists(product) {
        return Failure(UnknownProduct);
      }
      if !orderBook.IsValidOrderType(orderType) {
        return Failure(InvalidSide);
      }
      var orderBookType := orderBook.orderBookTypes[orderType];
      var orders := orderBook.GetOrders(orderBookType, product, currentTime.0);
      if minOrMax == "min" {
        if |orders| == 0 {
          return Failure(OutOfBounds);  // getLowPrice reads orders[0]
        }
        var price := GetLowPrice(orders);
        r := Success(price);
      } else if minOrMax == "max" {
        if |orders| == 0 {
          return Failure(OutOfBounds);  // getHighPrice reads orders[0]
        }
        var price := GetHighPrice(orders);
        r := Success(price);
      } else {
        r := Failure(InvalidMinMax);
      }
    }

    /** `avg <product> <bid/ask> <timesteps>`: the mean price over a slice of
        the side's and product's orders sorted by timestamp, and the window
        size used. `stoi` is the library's text-to-integer conversion. */
    method ProductAvgOfTypeOverTimesteps(cmd: seq<string>, stoi: string -> Option<int>)
      returns (r: Result<(real, int), CommandError>)
      requires orderBook.Valid()
      ensures |cmd| < 4 ==> r == Failure(InvalidArguments)
      ensures |cmd| >= 4 && stoi(cmd[3]).None? ==> r == Failure(BadTimesteps)
      ensures |cmd| >= 4 && stoi(cmd[3]).Some? && !orderBook.CheckProductExists(cmd[1])
              ==> r == Failure(UnknownProduct)
      ensures (|cmd| >= 4 && stoi(cmd[3]).Some? && orderBook.CheckProductExists(cmd[1])
               && !orderBook.IsValidOrderType(cmd[2])) ==> r == Failure(InvalidSide)
      ensures |cmd| >= 4 && stoi(cmd[3]).Some? && orderBook.CheckProductExists(cmd[1])
              && orderBook.IsValidOrderType(cmd[2]) ==>
        var sorted := SortBy(Matching(orderBook.orders, orderBook.orderBookTypes[cmd[2]], cmd[1], ""), TimestampOf);
        var w := Window(stoi(cmd[3]).value, currentTime.1);
        r == if 0 <= w.1 <= w.0 <= |sorted| then Success((Mean(Prices(sorted[w.1..w.0])), w.0))
             else Failure(OutOfBounds)
    {
      if |cmd| < 4 {
        return Failure(InvalidArguments);
      }
      var product, orderType := cmd[1], cmd[2];
      var parsed := stoi(cmd[3]);
      if parsed.None? {
        return Failure(BadTimesteps);
      }
      var timeSteps := parsed.value;
      if !orderBook.CheckProductExists(product) {
        return Failure(UnknownProduct);
      }
      if !orderBook.IsValidOrderType(orderType) {
        return Failure(InvalidSide);
      }
      var orderBookType := orderBook.orderBookTypes[orderType];
      var orders := orderBook.GetOrders(orderBookType, product);
      orders := SortBy(orders, TimestampOf);
      var (timeStepsBack, timeStepsSkip) := Window(timeSteps, currentTime.1);
      if !(timeStepsSkip <= timeStepsBack <= |orders|) {
        return Failure(OutOfBounds);  // the slice constructor is handed an invalid range
      }
      var ordersBack := orders[timeStepsSkip..timeStepsBack];
      var calculatedAvg := CalculateAveragePriceOfOrders(ordersBack);
      r := Success((calculatedAvg, timeStepsBack));
    }

    /** `predict <min/max> <product> <bid/ask>`: the mean over the timestamps up
        to the current one of the least (or greatest) price of that side and
        product at each. */
    method PredictProductNextMaxMinOfType(cmd: seq<string>) returns (r: Result<real, CommandError>)
      requires orderBook.Valid() && CursorValid()
      ensures |cmd| < 4 ==> r == Failure(OutOfBounds)
      ensures |cmd| >= 4 && !IsMinOrMax(cmd[1]) ==> r == Failure(InvalidMinMax)
      ensures |cmd| >= 4 && IsMinOrMax(cmd[1]) && !orderBook.CheckProductExists(cmd[2])
              ==> r == Failure(UnknownProduct)
      ensures (|cmd| >= 4 && IsMinOrMax(cmd[1]) && orderBook.CheckProductExists(cmd[2])
               && !orderBook.IsValidOrderType(cmd[3])) ==> r == Failure(InvalidSide)
      ensures |cmd| >= 4 && IsMinOrMax(cmd[1]) && orderBook.CheckProductExists(cmd[2])
              && orderBook.IsValidOrderType(cmd[3]) ==>
        var groups := GroupsUpTo(orderBook.orders, orderBook.timestamps,
                                 orderBook.orderBookTypes[cmd[3]], cmd[2], currentTime.1);
        r == if GroupsReady(groups, cmd[1]) then Success(Mean(Extremes(groups, cmd[1])))
             else Failure(OutOfBounds)
    {
      if |cmd| < 4 {
        return Failure(OutOfBounds);  // cmd[1], cmd[2] and cmd[3] are read unchecked
      }
      var minOrMax, product, orderType := cmd[1], cmd[2], cmd[3];
      if minOrMax != "min" && minOrMax != "max" {
        return Failure(InvalidMinMax);
      }
      if !orderBook.CheckProductExists(product) {
        return Failure(UnknownProduct);
      }
      if !orderBook.IsValidOrderType(orderType) {
        return Failure(InvalidSide);
      }
      var orderBookType := orderBook.orderBookTypes[orderType];
      var ordersPerTimestep: seq<seq<OrderBookEntry>> := [];
      for i := 0 to currentTime.1 + 1
        invariant |ordersPerTimestep| == i
        invariant forall k :: 0 <= k < i ==>
          ordersPerTimestep[k] == Matching(orderBook.orders, orderBookType, product, orderBook.timestamps[k])
      {
        var group := orderBook.GetOrders(orderBookType, product, orderBook.timestamps[i]);
        ordersPerTimestep := ordersPerTimestep + [group];
      }
      assert ordersPerTimestep
          == GroupsUpTo(orderBook.orders, orderBook.timestamps, orderBookType, product, currentTime.1);
      if !GroupsReady(ordersPerTimestep, minOrMax) {
        return Failure(OutOfBounds);  // an empty group reaches getLowPrice/getHighPrice
      }
      var predicted := CalculateAverageMinMaxOverTimesteps(ordersPerTimestep, minOrMax);
      r := Success(predicted);
    }
  }
}
