# Order-book query engine (advisorbot) in Dafny

This project models the query engine of an order-book advisor written in C++.
The advisor loads a CSV file of orders. Each order is a line
`timestamp,product,side,price,amount`. From the orders it builds a ledger:
the orders in file order, the sorted distinct products and the strictly
ascending distinct timestamps. It then answers commands at a simulated time
cursor:

- `min`/`max`: the least or greatest price of a side and product at the current timestamp;
- `avg`: the mean price over a window of the side's and product's orders sorted by time;
- `predict`: the mean of the per-timestamp extremes up to the cursor;
- `step`: advances the cursor to the next later timestamp, wrapping to the first.

The modules follow the source files:

- `Entry` (entry.dfy): the side enum, the order record, and the conversions between side names and sides.
- `Csv` (csv.dfy): `tokenise` as a loop, `stringsToOBE`, and the skip-bad-lines loop of `readCSV`.
- `Ledger` (ledger.dfy): the `OrderBook` class.
  - Its fields are fixed at construction, so they are `const`.
  - `populateProducts`/`populateTimestamps` are loops into an ordered key set.
  - `getOrders` and `getNextTime` are loops.
- `Calculator` (calculator.dfy): the accumulator loops for mean, least and greatest price, and the mean of per-group extremes.
- `Advisor` (advisor.dfy): the `AdvisorMain` class with its mutable `currentTime` cursor and the computing steps of the three query commands.
- `StringOrder` (string_order.dfy): `std::string`'s `operator<`, the key order of `std::map`, and a stable insertion sort standing in for `std::sort`. `std::string` compares characters through `char_traits<char>::lt`, that is as `unsigned char`. The signedness of `char` therefore plays no part. `Less` compares characters by their code, which is the same order for bytes.
- `Wrappers` (wrappers.dfy): `Option` and `Result`.

Prices are exact reals. `std::stod` and `std::stoi` are library parsers, so they are
parameters of type `string -> Option<real>` and `string -> Option<int>`.
`std::to_string(price)` in `toString` is likewise a given price text.

Where the source reads outside a vector, its behaviour is undefined. The calculator
functions `getLowPrice`/`getHighPrice` carry that as a `requires`. The command handlers
instead return an explicit `OutOfBounds` error in each such case:

- `min`/`max` with no order at the current time;
- an `avg` slice whose bounds are out of order or past the end;
- `predict` called with fewer than four words;
- a `predict` group that is empty.

The code does not skip an empty `predict` group. It gives `min`/`max` of nothing no
error of its own: both read outside a vector, and the model returns `OutOfBounds`.

## Model

| member | source | states |
|---|---|---|
| Entry.StringToOrderBookType | OrderBookEntry.cpp:4-17 | The side is `Bid` exactly for "bid" and `Ask` exactly for "ask"; anything else is `Unknown` |
| Entry.OrderBookTypeToString | OrderBookEntry.cpp:26-37 | The name is one of "bid", "ask", "unknown": "bid" exactly for `Bid`, "ask" exactly for `Ask` |
| Entry.SideNameRoundTrip | OrderBookEntry.cpp:4-37 | Reading back the name of any of the three sides gives that side |
| Entry.SideTokenRoundTrip | OrderBookEntry.cpp:4-37 | Naming the side read from `s` gives `s` back exactly when `s` is "bid", "ask" or "unknown"; any other string reads as unknown and comes back as "unknown" |
| Entry.CompareByTimestampAsc | OrderBookEntry.cpp:21-23 | Never holds between entries with equal timestamps; between different timestamps it holds one way or the other |
| Entry.SortedByTimestamp | AdvisorMain.cpp:314 | A sequence is sorted by timestamp in the model's sense exactly when no entry compares before its predecessor under `compareByTimestampAsc`, the comparator passed to `std::sort` |
| Entry.CompareByTimestampAscStrict | OrderBookEntry.cpp:21-23 | The timestamp comparator is irreflexive, asymmetric and transitive, and orders any two entries whose timestamps differ |
| Entry.ToString | OrderBookEntry.cpp:40-44 | The text starts with the timestamp, ends with the price text, and is nine characters of separators longer than the four parts |
| Entry.ToStringLayout | OrderBookEntry.cpp:40-44 | The text is timestamp, product and side name, each followed by " \| ", then the price text |
| Csv.FindFirstOf | CSVReader.cpp:58 | The result is NPOS or the first separator position at or after `pos` |
| Csv.FindFirstNotOf | CSVReader.cpp:55 | The result is NPOS or the first non-separator position at or after `pos` |
| Csv.FindFirstOfSkips | CSVReader.cpp:58 | No separator lies between `pos` and the position found, or the end of the line when none is found |
| Csv.FindFirstNotOfSkips | CSVReader.cpp:55 | Only separators lie between `pos` and the position found, or the end of the line when none is found |
| Csv.SplitFrom | CSVReader.cpp:56-71 | The tokens the loop emits from `start`; at most one per remaining character (their full shape is `SplitFromShape`) |
| Csv.TokensOf | CSVReader.cpp:48-73 | What `tokenise` returns: never more tokens than characters (its shape is `TokensOfShape`) |
| Csv.TokeniseStep | CSVReader.cpp:58-71 | A turn that emits a token keeps "emitted tokens followed by the tokens still to come are all the tokens"; after the last token the emitted ones are all of them |
| Csv.Tokenise | CSVReader.cpp:48-73 | The do-while loop returns exactly the tokens of `TokensOf` |
| Csv.SplitFromShape | CSVReader.cpp:56-71 | From a non-separator, the loop emits at least one token, every token non-empty and separator-free; the tokens rejoined are the text up to the end of the line, a trailing separator or two adjacent separators |
| Csv.TokensOfShape | CSVReader.cpp:55-67 | No token is empty or holds the separator; the result is empty iff the line is only separators; otherwise leading separators are skipped and the tokens rejoined are the line up to where the loop stops |
| Csv.TokeniseJoin | CSVReader.cpp:48-73 | Round trip: non-empty separator-free fields joined by the separator tokenise back to the same fields |
| Csv.TokeniseNoSeparator | CSVReader.cpp:63-64 | A non-empty line without the separator is the single token equal to the line |
| Csv.TokeniseStopsAtEmptyField | CSVReader.cpp:59 | "a,,b" gives ["a"]: the rest of the line after two adjacent separators is dropped |
| Csv.TokeniseSkipsOuterSeparators | CSVReader.cpp:55-59 | ",a,b," gives ["a","b"]: leading and trailing separators produce no token |
| Csv.TrailingNewlineIsAToken | CSVReader.cpp:29-32 | "a,\n" tokenises to ["a", "\n"] while "a," gives ["a"]: the newline `fgets` keeps changes the token count |
| Csv.StringsToOBE | CSVReader.cpp:75-96 | A token count other than five fails with that count; an unconvertible price token fails with that token; a success has five tokens, the converted price, timestamp and product unchanged, and the side read by `stringToOrderBookType` |
| Csv.StringsToOBEAccepts | CSVReader.cpp:75-96 | Parsing succeeds iff there are exactly five tokens and the fourth converts; the side token never causes a failure and the fifth does not affect the result |
| Csv.StringsToOBERoundTrip | CSVReader.cpp:75-96 | An entry's fields, written with a price text that converts to its price, parse back to the entry, with side from `stringToOrderBookType` |
| Csv.ParseLineRoundTrip | CSVReader.cpp:32 | A comma-joined line of an entry's fields reads back as the entry |
| Csv.ReadCSV | CSVReader.cpp:13-46 | The line loop keeps exactly `LoadedEntries`: the entries of the lines that parse, in line order |
| Csv.ReadStep | CSVReader.cpp:29-40 | One turn of the line loop adds the parsed entry when the line parses and nothing otherwise |
| Csv.LoadedEntriesAppend | CSVReader.cpp:29-40 | Loading two parts of a file in turn gives both parts' entries in order |
| Csv.SkipsBadLine | CSVReader.cpp:29-40 | A line that does not parse is skipped and loading continues with the next |
| Csv.LoadedEntriesAllGood | CSVReader.cpp:29-40 | When every line parses, the loaded entries are exactly the lines' parses, one per line, in line order |
| Csv.LoadedEntriesFields | CSVReader.cpp:29-40 | Every loaded entry has a non-empty, comma-free timestamp and product |
| StringOrder.Less | OrderBook.cpp:110 | `std::string`'s `<`: characters compared left to right, a proper prefix below the longer string (its order laws are the next rows) |
| StringOrder.LessIrreflexive | OrderBook.cpp:110 | No string is below itself |
| StringOrder.LessAsymmetric | OrderBook.cpp:110 | Two strings are never each below the other |
| StringOrder.LessTransitive | OrderBook.cpp:110 | Below is transitive |
| StringOrder.LessTotal | OrderBook.cpp:110 | Of two different strings one is below the other |
| StringOrder.InsertKey | OrderBook.cpp:30 | The key sequence of a `std::map` after `m[k] = ...` stays strictly ascending and holds exactly the old keys and `k` |
| StringOrder.SortBy | AdvisorMain.cpp:314 | The sorted result is ordered by key and is a permutation of the input |
| StringOrder.SortedByAdjacent | AdvisorMain.cpp:314 | Sorted by key means exactly that no element's key is below its predecessor's |
| StringOrder.SortByStrictlySorted | OrderBook.cpp:67 | Sorting a sequence whose keys already strictly ascend returns it unchanged |
| Ledger.Matching | OrderBook.cpp:74-92 | The filtered orders are exactly the orders that match side, product and timestamp, with "" as a wildcard |
| Ledger.MatchingAppend | OrderBook.cpp:80-88 | Filtering keeps the original order: filtering a concatenation gives the two filtered parts concatenated |
| Ledger.WildcardsSelectSide | OrderBook.h:20-21 | With the default "" product and timestamp, `getOrders` returns exactly the orders of the side |
| Ledger.FirstLater | OrderBook.cpp:107-118 | The scan's stopping index: no timestamp before it is later than the argument, and the one at it (if any) is |
| Ledger.NextTime | OrderBook.cpp:101-128 | The result is a timestamp with its index; it is the first one later than the argument, or index 0 when none is later |
| Ledger.NextTimeIsSuccessor | OrderBook.cpp:101-118 | On an ascending timeline the result is the least timestamp later than the argument |
| Ledger.NextTimeCycles | OrderBook.cpp:101-128 | From timestamp i the result is timestamp (i+1) mod n, so the last one wraps to (timestamps[0], 0) |
| Ledger.PopulateProducts | OrderBook.cpp:22-43 | The result is the distinct products of the orders, strictly ascending |
| Ledger.PopulateTimestamps | OrderBook.cpp:46-71 | The result is the distinct timestamps of the orders, strictly ascending; the final sort leaves it unchanged |
| Ledger.OrderBook.constructor | OrderBook.cpp:9-19 | The orders are the loaded entries and both indexes are sorted, distinct and complete |
| Ledger.OrderBook.NonEmptyBook | OrderBook.cpp:95-98 | A book has timestamps iff it has orders, and no timestamp is "" |
| Ledger.OrderBook.GetOrders | OrderBook.cpp:74-92 | The loop returns exactly `Matching` of the orders |
| Ledger.OrderBook.GetEarliestTime | OrderBook.cpp:95-98 | On a non-empty book, the result is `timestamps[0]`, an order's timestamp that no order precedes |
| Ledger.OrderBook.GetNextTime | OrderBook.cpp:101-128 | The scan with its break and "" sentinel returns `NextTime` |
| Ledger.OrderBook.CheckProductExists | OrderBook.cpp:141-143 | True iff some order is for the product |
| Ledger.OrderBook.IsValidOrderType | OrderBook.cpp:146-148 | True iff the text is "ask" or "bid"; the map then gives the same side as `stringToOrderBookType`, never unknown |
| Calculator.Mean | Calculator.cpp:5-18 | 0 for no values; otherwise n copies of the mean add up to the sum |
| Calculator.MinOf | Calculator.cpp:37-46 | The least value is at most every value and is one of them |
| Calculator.MaxOf | Calculator.cpp:49-58 | The greatest value is at least every value and is one of them |
| Calculator.SumBounds | Calculator.cpp:10-14 | The sum of n values between lo and hi lies between n·lo and n·hi |
| Calculator.MeanWithin | Calculator.cpp:5-18 | The mean of values between lo and hi lies between lo and hi |
| Calculator.MeanBetween | Calculator.cpp:5-18 | The mean of a non-empty list lies between its least and greatest value |
| Calculator.MeanOfConstant | Calculator.cpp:5-18 | The mean of a non-empty list of equal values is that value |
| Calculator.CalculateAveragePriceOfOrders | Calculator.cpp:5-18 | The loop gives 0 for no orders, otherwise the sum of prices divided by their count |
| Calculator.CalculateAveragePriceOfValues | Calculator.cpp:21-34 | The loop gives 0 for no values, otherwise their sum divided by their count |
| Calculator.GetLowPrice | Calculator.cpp:37-46 | On non-empty input, the running minimum is at most every price and equals one of them |
| Calculator.GetHighPrice | Calculator.cpp:49-58 | On non-empty input, the running maximum is at least every price and equals one of them |
| Calculator.Extremes | Calculator.cpp:62-75 | With "min" or "max", one extreme per group; with any other word, none |
| Calculator.CalculateAverageMinMaxOverTimesteps | Calculator.cpp:62-79 | With all groups non-empty, the result is the mean of the per-group minima (or maxima); with any other word, 0 |
| Calculator.ForecastBetweenExtremes | Calculator.cpp:62-79 | The forecast lies between the least and the greatest per-group extreme |
| Calculator.ThreeBidsScenario | Calculator.cpp:5-58 | Prices 10, 30, 20 have least 10, greatest 30 and mean 20 |
| Calculator.TwoStepForecastScenario | Calculator.cpp:62-79 | Group maxima 30 and 50 give a "max" forecast of 40 |
| Calculator.CompareTimestamps | Calculator.cpp:83-85 | Never holds between equal strings; between different strings it holds one way or the other |
| Calculator.SortedByCompareTimestamps | OrderBook.cpp:67 | A string sequence is sorted in the model's sense exactly when no string compares before its predecessor under `compareTimestamps`, the comparator passed to `std::sort` |
| Calculator.CompareTimestampsStrictTotal | Calculator.cpp:83-85 | Timestamp comparison is a strict total order on strings |
| Advisor.Window | AdvisorMain.cpp:319-330 | The skip is never negative and the window never exceeds max(index, 1); a request past the index gives (max(index, 1), 0), otherwise back + skip equals the index |
| Advisor.WindowClamps | AdvisorMain.cpp:319-323 | Asking for 10 steps at step 3 uses 3, and at step 0 uses 1 |
| Advisor.WindowInBounds | AdvisorMain.cpp:319-333 | The slice bounds hold iff the clamped window fits the orders, or the request is at least half the index and fits the orders |
| Advisor.WindowInverted | AdvisorMain.cpp:327-333 | At step 10, a request for 3 gives skip 7 past back 3, an inverted slice |
| Advisor.GroupsUpTo | AdvisorMain.cpp:363-366 | One group per timestamp 0..index |
| Advisor.AdvisorMain.constructor | AdvisorMain.cpp:13 | The cursor starts as ("", 0) |
| Advisor.AdvisorMain.Init | AdvisorMain.cpp:138-142 | An unset cursor becomes (earliest timestamp, 0); a set cursor is kept, so a retried `init` does not move it |
| Advisor.AdvisorMain.MoveToNextTimestep | AdvisorMain.cpp:378-381 | The cursor becomes `NextTime` of its timestamp and names a timestamp by its index; from a valid cursor its index goes to (i+1) mod n |
| Advisor.AdvisorMain.ProductMinMaxOfType | AdvisorMain.cpp:205-265 | Checks the argument count, then the product, then the side, then the min/max word; otherwise the result is the least (greatest) price of the matching orders at the current time, or `OutOfBounds` if none |
| Advisor.AdvisorMain.ProductAvgOfTypeOverTimesteps | AdvisorMain.cpp:267-338 | Checks the argument count, the step count, the product and the side; otherwise the result is the mean over slice [skip, back) of the time-sorted matching orders, with back, or `OutOfBounds` if the slice is invalid |
| Advisor.AdvisorMain.PredictProductNextMaxMinOfType | AdvisorMain.cpp:340-372 | Checks the min/max word, the product and the side; otherwise the result is the mean of the per-group extremes over timestamps 0..index, or `OutOfBounds` if a group is empty or there are fewer than four words |

## Left out

- File handling in `readCSV` is left out (`fopen`/`fgets`/`fclose`, and the error raised when the file cannot be opened). The model loops over lines already read. Each line is the exact string `fgets` returns, newline included, and for such lines the model is exact: the newline is an ordinary character, so after a trailing comma it forms one more token (`Csv.TrailingNewlineIsAToken`).
- The 1024-byte line buffer is left out. It splits longer lines into several lines.
- Diagnostic printing is left out.
- `std::stod` and `std::stoi` are parameters. Their exact syntax, for example accepting a numeric prefix such as "1.5abc", is not modelled.
- `std::to_string(price)` is not modelled. `Entry.ToString` takes the price text as a parameter.
- Floating point is not modelled. Prices are exact reals, so sums and divisions do not round.
- Advisor.AdvisorMain.ProductAvgOfTypeOverTimesteps: `std::sort` is not stable. The model fixes one order, a stable insertion sort by timestamp. With several orders at one timestamp, the source may pick other orders into the window.
- Advisor.AdvisorMain.ProductAvgOfTypeOverTimesteps: `std::stoi` returns a 32-bit `int`. `currentTime.second - timeSteps` can overflow for extreme requests, and the model uses unbounded integers.
- The console plumbing of AdvisorMain.cpp is not modelled. This covers `readUserCommand`, the `handleUserCommand` dispatch, `userPrompt`, the recursive retry and input flushing of `init`, `printHelp`/`printHelpForCmd`, `printAvailableProducts`, `printTime`, `printAllCurrentOrdersOfType` (the `list` command) and `terminateGracefully`.
- AdvisorMain.h (with `helpMap`) is not part of this model.
- main.cpp, which only constructs the advisor and calls `init`, is not part of this model.
