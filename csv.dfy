/** Turning lines of comma-separated text into order book entries (CSVReader.cpp). */
module Csv {
  import opened Wrappers
  import opened Entry

  /** `std::string::npos` as it reads once stored in the `signed int` variables
      of `tokenise`. */
  const NPOS: int := -1

  /** `line.find_first_of(sep, pos)`: the first index at or after `pos` holding
      `sep`, or NPOS. A negative `pos` is npos once converted to the unsigned
      position type, so nothing is found from it. */
  function FindFirstOf(line: string, sep: char, pos: int): (r: int)
    decreases |line| - pos
    ensures r == NPOS || (0 <= pos <= r < |line| && line[r] == sep)
  {
    if pos < 0 || pos >= |line| then NPOS
    else if line[pos] == sep then pos
    else FindFirstOf(line, sep, pos + 1)
  }

  /** No separator lies between `pos` and what `FindFirstOf` finds (or the end). */
  lemma {:induction false} FindFirstOfSkips(line: string, sep: char, pos: int)
    ensures var r := FindFirstOf(line, sep, pos);
      forall i :: 0 <= pos <= i < |line| && (r == NPOS || i < r) ==> line[i] != sep
    decreases |line| - pos
  {
    if 0 <= pos < |line| && line[pos] != sep {
      FindFirstOfSkips(line, sep, pos + 1);
    }
  }

  /** `line.find_first_not_of(sep, pos)`: the first index at or after `pos` not
      holding `sep`, or NPOS. */
  function FindFirstNotOf(line: string, sep: char, pos: int): (r: int)
    decreases |line| - pos
    ensures r == NPOS || (0 <= pos <= r < |line| && line[r] != sep)
  {
    if pos < 0 || pos >= |line| then NPOS
    else if line[pos] != sep then pos
    else FindFirstNotOf(line, sep, pos + 1)
  }

  /** Only separators lie between `pos` and what `FindFirstNotOf` finds (or the end). */
  lemma {:induction false} FindFirstNotOfSkips(line: string, sep: char, pos: int)
    ensures var r := FindFirstNotOf(line, sep, pos);
      forall i :: 0 <= pos <= i < |line| && (r == NPOS || i < r) ==> line[i] == sep
    decreases |line| - pos
  {
    if 0 <= pos < |line| && line[pos] == sep {
      FindFirstNotOfSkips(line, sep, pos + 1);
    }
  }

  /** The tokens the loop of `tokenise` emits from position `start` on: it stops
      at the end of the line, at a separator where a token should begin (two
      separators in a row, or a trailing one), and after a token that runs to
      the end of the line. Each token uses up at least one character. */
  function SplitFrom(line: string, sep: char, start: nat): (t: seq<string>)
    requires start <= |line|
    ensures |t| <= |line| - start
    decreases |line| - start
  {
    if start == |line| then []
    else
      var end := FindFirstOf(line, sep, start);
      if end == start then []
      else if end == NPOS then [line[start..]]
      else [line[start..end]] + SplitFrom(line, sep, end + 1)
  }

  /** What `tokenise(line, sep)` returns: never more tokens than characters. */
  function TokensOf(line: string, sep: char): (t: seq<string>)
    ensures |t| <= |line|
  {
    var start := FindFirstNotOf(line, sep, 0);
    if start == NPOS then [] else SplitFrom(line, sep, start)
  }

  /** A token as `tokenise` can emit it: not empty, no separator inside. */
  predicate IsField(t: string, sep: char) {
    t != [] && sep !in t
  }

  /** The tokens put back together with one separator between neighbours. */
  function Join(tokens: seq<string>, sep: char): string {
    if tokens == [] then []
    else if |tokens| == 1 then tokens[0]
    else tokens[0] + [sep] + Join(tokens[1..], sep)
  }

  /** One turn of the loop of `tokenise` from `start`: it stops, emits the
      rest of the line, or emits a token and goes on after the separator. */
  lemma SplitFromTurn(line: string, sep: char, start: nat)
    requires start <= |line|
    ensures var end := FindFirstOf(line, sep, start);
      && (start == |line| || start == end ==> SplitFrom(line, sep, start) == [])
      && (start < |line| && start != end && end >= 0 ==>
            start < end < |line| && SplitFrom(line, sep, start) == [line[start..end]] + SplitFrom(line, sep, end + 1))
      && (start < |line| && start != end && end < 0 ==> SplitFrom(line, sep, start) == [line[start..]])
  {
    var end := FindFirstOf(line, sep, start);
    var t := SplitFrom(line, sep, start);
    if start < |line| && start != end {
      if end >= 0 {
        assert t == [line[start..end]] + SplitFrom(line, sep, end + 1);
      } else {
        assert t == [line[start..]];
      }
    }
  }

  /** The token a turn of `tokenise` emits is the first of the tokens still to come. */
  lemma TokeniseTurn(line: string, sep: char, start: int, end: int, token: string)
    requires 0 <= start < |line| && end == FindFirstOf(line, sep, start) && end != start
    requires end >= 0 ==> start < end < |line| && token == line[start..end]
    requires end < 0 ==> token == line[start..]
    ensures end != 0
    ensures end >= 0 ==> SplitFrom(line, sep, start) == [token] + SplitFrom(line, sep, end + 1)
    ensures end < 0 ==> SplitFrom(line, sep, start) == [token]
  {
    SplitFromTurn(line, sep, start);
  }

  /** Moving the first of the tokens still to come to the emitted ones. */
  lemma EmitToken(tokens: seq<string>, token: string, rest: seq<string>, all: seq<string>)
    requires tokens + ([token] + rest) == all
    ensures (tokens + [token]) + rest == all
  {
    assert tokens + ([token] + rest) == (tokens + [token]) + rest;
  }

  /** The loop invariant of `tokenise` survives a turn that emits `token`; after
      the last token the emitted ones are all of them. */
  lemma TokeniseStep(line: string, sep: char, tokens: seq<string>, start: int, end: int, token: string)
    requires 0 <= start < |line| && end == FindFirstOf(line, sep, start) && end != start
    requires end >= 0 ==> start < end < |line| && token == line[start..end]
    requires end < 0 ==> token == line[start..]
    requires tokens + Remaining(line, sep, start) == TokensOf(line, sep)
    ensures end != 0
    ensures end >= 0 ==> (tokens + [token]) + Remaining(line, sep, end + 1) == TokensOf(line, sep)
    ensures end < 0 ==> tokens + [token] == TokensOf(line, sep)
  {
    TokeniseTurn(line, sep, start, end, token);
    if end >= 0 {
      EmitToken(tokens, token, SplitFrom(line, sep, end + 1), TokensOf(line, sep));
    }
  }

  /** The tokens still to come from `start`, NPOS meaning none. */
  function Remaining(line: string, sep: char, start: int): seq<string>
    requires start == NPOS || 0 <= start <= |line|
  {
    if start == NPOS then [] else SplitFrom(line, sep, start)
  }

  /** The loop of `tokenise` is done when it stands at the end of the line or
      on a separator. */
  lemma TokeniseStop(line: string, sep: char, tokens: seq<string>, start: int)
    requires start == NPOS || 0 <= start <= |line|
    requires tokens + Remaining(line, sep, start) == TokensOf(line, sep)
    requires start == |line| || start == FindFirstOf(line, sep, start)
    ensures tokens == TokensOf(line, sep)
  {
    if start != NPOS {
      SplitFromTurn(line, sep, start);
    }
    assert tokens + [] == tokens;
  }

  method Tokenise(csvLine: string, separator: char) returns (tokens: seq<string>)
    ensures tokens == TokensOf(csvLine, separator)
  {
    tokens := [];
    var start := FindFirstNotOf(csvLine, separator, 0);
    var end: int;
    while true
      invariant start == NPOS || 0 <= start <= |csvLine|
      invariant tokens + Remaining(csvLine, separator, start) == TokensOf(csvLine, separator)
      decreases |csvLine| - start
    {
      end := FindFirstOf(csvLine, separator, start);
      if start == |csvLine| || start == end {
        TokeniseStop(csvLine, separator, tokens, start);
        break;
      }
      var token;
      if end >= 0 {
        token := csvLine[start..end];
      } else {
        token := csvLine[start..];
      }
      TokeniseStep(csvLine, separator, tokens, start, end, token);
      tokens := tokens + [token];
      start := end + 1;
      if end <= 0 {
        break;
      }
    }
  }

  /** What the loop emits from a position where a token begins: at least one
      token, every token a field, and the tokens rejoined are exactly the text
      from `start` up to a stopping point `p`, which is the end of the line, a
      trailing separator, or the first of two adjacent separators. */
  ghost predicate Shaped(line: string, sep: char, start: nat, t: seq<string>) {
    var p := start + |Join(t, sep)|;
    && t != []
    && (forall i :: 0 <= i < |t| ==> IsField(t[i], sep))
    && p <= |line| && line[start..p] == Join(t, sep)
    && (p == |line| || (line[p] == sep && (p + 1 == |line| || line[p + 1] == sep)))
  }

  lemma {:induction false} SplitFromShape(line: string, sep: char, start: nat, t: seq<string>)
    requires start < |line| && line[start] != sep
    requires t == SplitFrom(line, sep, start)
    ensures Shaped(line, sep, start, t)
    decreases |line| - start
  {
    var end := FindFirstOf(line, sep, start);
    if end != NPOS && end + 1 < |line| && line[end + 1] != sep {
      var rest := SplitFrom(line, sep, end + 1);
      SplitFromTurn(line, sep, start);
      TokenIsField(line, sep, start);
      SplitFromShape(line, sep, end + 1, rest);
      ShapeCons(line, sep, start, end, rest, t);
    } else {
      SplitFromShapeOne(line, sep, start);
    }
  }

  /** The cases where the loop emits a single token from `start`. */
  lemma SplitFromShapeOne(line: string, sep: char, start: nat)
    requires start < |line| && line[start] != sep
    requires var end := FindFirstOf(line, sep, start);
      end == NPOS || end + 1 == |line| || line[end + 1] == sep
    ensures Shaped(line, sep, start, SplitFrom(line, sep, start))
  {
    var end := FindFirstOf(line, sep, start);
    var t := SplitFrom(line, sep, start);
    SplitFromTurn(line, sep, start);
    TokenIsField(line, sep, start);
    if end == NPOS {
      ShapeLast(line, sep, start, t);
    } else {
      ShapeStop(line, sep, start, end, t);
    }
  }

  /** The token that begins at a non-separator is a field. */
  lemma TokenIsField(line: string, sep: char, start: nat)
    requires start < |line| && line[start] != sep
    ensures var end := FindFirstOf(line, sep, start);
      && (end == NPOS ==> IsField(line[start..], sep))
      && (end != NPOS ==> start < end && IsField(line[start..end], sep))
  {
    var end := FindFirstOf(line, sep, start);
    var tok := if end == NPOS then line[start..] else line[start..end];
    FindFirstOfSkips(line, sep, start);
    forall i | 0 <= i < |tok| ensures tok[i] != sep {
      assert tok[i] == line[start + i];
    }
  }

  /** A single field running to the end of the line. */
  lemma ShapeLast(line: string, sep: char, start: nat, t: seq<string>)
    requires start < |line| && IsField(line[start..], sep) && t == [line[start..]]
    ensures Shaped(line, sep, start, t)
  {
  }

  /** A single field ended by a trailing separator or by two adjacent ones. */
  lemma ShapeStop(line: string, sep: char, start: nat, end: nat, t: seq<string>)
    requires start < end < |line| && line[end] == sep && IsField(line[start..end], sep)
    requires end + 1 == |line| || line[end + 1] == sep
    requires t == [line[start..end]]
    ensures Shaped(line, sep, start, t)
  {
  }

  /** The emitted text grows by one field and one separator in front. */
  lemma ShapeCons(line: string, sep: char, start: nat, end: nat, rest: seq<string>, t: seq<string>)
    requires start < end < |line| && line[end] == sep && IsField(line[start..end], sep)
    requires Shaped(line, sep, end + 1, rest)
    requires t == [line[start..end]] + rest
    ensures Shaped(line, sep, start, t)
  {
    var tok := line[start..end];
    assert t[1..] == rest;
    JoinCons(t, sep);
    var p := end + 1 + |Join(rest, sep)|;
    assert line[start..p] == line[start..end] + [line[end]] + line[end + 1..p];
  }

  /** `tokenise` never emits an empty token nor one holding the separator; it
      returns nothing for a line made only of separators; otherwise it skips the
      leading separators and the tokens rejoined are exactly the line from the
      first non-separator up to where it stops: the end of the line, a trailing
      separator, or the first of two adjacent separators (the rest of the line
      is dropped). */
  lemma TokensOfShape(line: string, sep: char)
    ensures var t := TokensOf(line, sep);
      forall i :: 0 <= i < |t| ==> IsField(t[i], sep)
    ensures FindFirstNotOf(line, sep, 0) == NPOS <==> TokensOf(line, sep) == []
    ensures var t := TokensOf(line, sep);
      var s := FindFirstNotOf(line, sep, 0);
      var p := s + |Join(t, sep)|;
      s != NPOS ==>
        && (forall i :: 0 <= i < s ==> line[i] == sep)
        && p <= |line| && line[s..p] == Join(t, sep)
        && (p == |line| || (line[p] == sep && (p + 1 == |line| || line[p + 1] == sep)))
  {
    var s := FindFirstNotOf(line, sep, 0);
    FindFirstNotOfSkips(line, sep, 0);
    if s != NPOS {
      SplitFromShape(line, sep, s, SplitFrom(line, sep, s));
    }
  }

  /** Searching for the separator from the start of a field stops right after it. */
  lemma FindAfterField(line: string, sep: char, start: nat, tok: string)
    requires start + |tok| <= |line| && line[start..start + |tok|] == tok && sep !in tok
    requires start + |tok| == |line| || line[start + |tok|] == sep
    ensures FindFirstOf(line, sep, start) == if start + |tok| == |line| then NPOS else start + |tok|
  {
    var r := FindFirstOf(line, sep, start);
    FindFirstOfSkips(line, sep, start);
  }

  /** From the start of a field that a separator ends, the loop emits the field
      and carries on after the separator. */
  lemma SplitFromStep(line: string, sep: char, start: nat, tok: string)
    requires IsField(tok, sep)
    requires start + |tok| < |line| && line[start..start + |tok|] == tok && line[start + |tok|] == sep
    ensures SplitFrom(line, sep, start) == [tok] + SplitFrom(line, sep, start + |tok| + 1)
  {
    FindAfterField(line, sep, start, tok);
  }

  /** From the start of a field that ends the line, the loop emits the field and stops. */
  lemma SplitFromLast(line: string, sep: char, start: nat, tok: string)
    requires IsField(tok, sep)
    requires start + |tok| == |line| && line[start..] == tok
    ensures SplitFrom(line, sep, start) == [tok]
  {
    assert line[start..start + |tok|] == tok;
    FindAfterField(line, sep, start, tok);
  }

  /** The step of `SplitFromStep`, with what follows the separator known. */
  lemma SplitFromCons(line: string, sep: char, start: nat, tokens: seq<string>)
    requires |tokens| > 1 && IsField(tokens[0], sep)
    requires start + |tokens[0]| < |line| && line[start..start + |tokens[0]|] == tokens[0]
    requires line[start + |tokens[0]|] == sep
    requires SplitFrom(line, sep, start + |tokens[0]| + 1) == tokens[1..]
    ensures SplitFrom(line, sep, start) == tokens
  {
    SplitFromStep(line, sep, start, tokens[0]);
    assert tokens == [tokens[0]] + tokens[1..];
  }

  lemma JoinCons(tokens: seq<string>, sep: char)
    requires |tokens| > 1
    ensures Join(tokens, sep) == tokens[0] + [sep] + Join(tokens[1..], sep)
  {
  }

  /** Where fields joined by the separator begin, the first field comes first,
      then a separator, then the other fields joined. */
  lemma JoinParts(line: string, start: nat, tokens: seq<string>, sep: char)
    requires |tokens| > 1
    requires start <= |line| && line[start..] == Join(tokens, sep)
    ensures start + |tokens[0]| < |line|
    ensures line[start..start + |tokens[0]|] == tokens[0] && line[start + |tokens[0]|] == sep
    ensures line[start + |tokens[0]| + 1..] == Join(tokens[1..], sep)
  {
    var tok, rest := tokens[0], line[start..];
    JoinCons(tokens, sep);
    assert rest == tok + [sep] + Join(tokens[1..], sep);
    assert line[start..start + |tok|] == rest[..|tok|];
    assert line[start + |tok|] == rest[|tok|];
    assert line[start + |tok| + 1..] == rest[|tok| + 1..];
  }

  /** `tokens` lie in `line` from `start` on as fields, each but the last
      followed by one separator, the last one ending the line. */
  ghost predicate FieldsAt(line: string, sep: char, start: nat, tokens: seq<string>)
    decreases |tokens|
  {
    && tokens != []
    && IsField(tokens[0], sep)
    && start + |tokens[0]| <= |line|
    && line[start..start + |tokens[0]|] == tokens[0]
    && if |tokens| == 1 then start + |tokens[0]| == |line|
       else
         && start + |tokens[0]| < |line|
         && line[start + |tokens[0]|] == sep
         && FieldsAt(line, sep, start + |tokens[0]| + 1, tokens[1..])
  }

  /** Fields joined by the separator lie in the line as `FieldsAt` says. */
  lemma {:induction false} JoinFieldsAt(line: string, sep: char, start: nat, tokens: seq<string>)
    requires tokens != []
    requires forall i :: 0 <= i < |tokens| ==> IsField(tokens[i], sep)
    requires start <= |line| && line[start..] == Join(tokens, sep)
    ensures FieldsAt(line, sep, start, tokens)
    decreases |tokens|
  {
    assert IsField(tokens[0], sep);
    if |tokens| == 1 {
      assert line[start..start + |tokens[0]|] == line[start..];
    } else {
      var tail := tokens[1..];
      assert forall i :: 0 <= i < |tail| ==> IsField(tail[i], sep) by {
        forall i | 0 <= i < |tail| ensures IsField(tail[i], sep) {
          assert tail[i] == tokens[i + 1];
        }
      }
      JoinParts(line, start, tokens, sep);
      JoinFieldsAt(line, sep, start + |tokens[0]| + 1, tail);
    }
  }

  /** From where fields lie as `FieldsAt` says, the loop emits exactly those fields. */
  lemma {:induction false} SplitFromFields(line: string, sep: char, start: nat, tokens: seq<string>)
    requires FieldsAt(line, sep, start, tokens)
    ensures SplitFrom(line, sep, start) == tokens
    decreases |tokens|
  {
    if |tokens| == 1 {
      assert line[start..] == line[start..start + |tokens[0]|];
      SplitFromLast(line, sep, start, tokens[0]);
      assert tokens == [tokens[0]];
    } else {
      SplitFromFields(line, sep, start + |tokens[0]| + 1, tokens[1..]);
      SplitFromCons(line, sep, start, tokens);
    }
  }

  /** A line that does not begin with the separator has its first token at 0. */
  lemma FirstNotOfAtZero(line: string, sep: char)
    requires line != [] && line[0] != sep
    ensures FindFirstNotOf(line, sep, 0) == 0
  {
  }

  /** Round trip: joining fields with the separator and tokenising the result
      gives the fields back. */
  lemma TokeniseJoin(tokens: seq<string>, sep: char)
    requires tokens != []
    requires forall i :: 0 <= i < |tokens| ==> IsField(tokens[i], sep)
    ensures TokensOf(Join(tokens, sep), sep) == tokens
  {
    var line := Join(tokens, sep);
    assert line[0..] == line;
    JoinFieldsAt(line, sep, 0, tokens);
    SplitFromFields(line, sep, 0, tokens);
    assert IsField(tokens[0], sep);
    assert line[0] == tokens[0][0] by {
      if |tokens| > 1 {
        JoinCons(tokens, sep);
      }
    }
    FirstNotOfAtZero(line, sep);
  }

  /** A non-empty line without the separator is a single token. */
  lemma TokeniseNoSeparator(line: string, sep: char)
    requires line != [] && sep !in line
    ensures TokensOf(line, sep) == [line]
  {
    TokeniseJoin([line], sep);
  }

  /** Two adjacent separators end the line early: "a,,b" gives only "a". */
  lemma TokeniseStopsAtEmptyField()
    ensures TokensOf("a,,b", ',') == ["a"]
  {
    var line := "a,,b";
    assert FindFirstNotOf(line, ',', 0) == 0;
    assert FindFirstOf(line, ',', 0) == 1;
    assert FindFirstOf(line, ',', 2) == 2;
    assert line[0..1] == "a";
  }

  /** Leading and trailing separators produce no tokens: ",a,b," gives "a", "b". */
  lemma TokeniseSkipsOuterSeparators()
    ensures TokensOf(",a,b,", ',') == ["a", "b"]
  {
    var line := ",a,b,";
    assert FindFirstNotOf(line, ',', 1) == 1;
    assert FindFirstNotOf(line, ',', 0) == 1;
    assert FindFirstOf(line, ',', 1) == 2;
    assert FindFirstOf(line, ',', 3) == 4;
    assert line[1..2] == "a" && line[3..4] == "b";
    assert SplitFrom(line, ',', 5) == [];
    assert SplitFrom(line, ',', 3) == ["b"];
  }

  /** The newline `fgets` keeps at the end of a line is a character like any
      other: after a trailing separator it becomes one more token. */
  lemma TrailingNewlineIsAToken()
    ensures TokensOf("a,\n", ',') == ["a", "\n"]
    ensures TokensOf("a,", ',') == ["a"]
  {
    var line := "a,\n";
    assert FindFirstNotOf(line, ',', 0) == 0;
    assert FindFirstOf(line, ',', 0) == 1;
    assert FindFirstOf(line, ',', 2) == NPOS;
    assert line[0..1] == "a" && line[2..] == "\n";
    assert SplitFrom(line, ',', 2) == ["\n"];
    var short := "a,";
    assert FindFirstNotOf(short, ',', 0) == 0;
    assert FindFirstOf(short, ',', 0) == 1;
    assert short[0..1] == "a";
    assert SplitFrom(short, ',', 2) == [];
  }

  datatype ParseError =
    | WrongTokenCount(count: nat)   // "Bad line, expected 5 tokens"
    | BadFloat(token: string)       // the price token did not convert

  /** `stringsToOBE`: exactly five tokens `timestamp, product, side, price, _`.
      `stod` is the library's string-to-double conversion, passed in. */
  function StringsToOBE(tokens: seq<string>, stod: string -> Option<real>): (r: Result<OrderBookEntry, ParseError>)
    ensures |tokens| != 5 ==> r == Failure(WrongTokenCount(|tokens|))
    ensures |tokens| == 5 && stod(tokens[3]).None? ==> r == Failure(BadFloat(tokens[3]))
    ensures r.Success? ==> && |tokens| == 5
                           && stod(tokens[3]) == Some(r.value.price)
                           && r.value.timestamp == tokens[0] && r.value.product == tokens[1]
                           && r.value.orderType == StringToOrderBookType(tokens[2])
  {
    if |tokens| != 5 then Failure(WrongTokenCount(|tokens|))
    else match stod(tokens[3])
      case None => Failure(BadFloat(tokens[3]))
      case Some(price) =>
        Success(OrderBookEntry(price, tokens[0], tokens[1], StringToOrderBookType(tokens[2])))
  }

  /** The five fields of a line holding `e`; the last one does not affect the entry. */
  function EntryTokens(e: OrderBookEntry, priceText: string, extra: string): seq<string> {
    [e.timestamp, e.product, OrderBookTypeToString(e.orderType), priceText, extra]
  }

  /** Which token lists `stringsToOBE` accepts: exactly those of length five whose
      fourth token converts; the side token never causes a failure and the fifth
      token does not affect the result. */
  lemma StringsToOBEAccepts(tokens: seq<string>, stod: string -> Option<real>, side: string, extra: string)
    ensures StringsToOBE(tokens, stod).Success? <==> |tokens| == 5 && stod(tokens[3]).Some?
    ensures |tokens| == 5 ==> StringsToOBE(tokens[2 := side], stod).Success? == StringsToOBE(tokens, stod).Success?
    ensures |tokens| == 5 ==> StringsToOBE(tokens[4 := extra], stod) == StringsToOBE(tokens, stod)
  {
  }

  /** Round trip: the fields of an entry, written out with a price text that
      converts back to its price, parse back to the entry. */
  lemma StringsToOBERoundTrip(e: OrderBookEntry, priceText: string, extra: string, stod: string -> Option<real>)
    requires stod(priceText) == Some(e.price)
    ensures StringsToOBE(EntryTokens(e, priceText, extra), stod) == Success(e)
  {
    SideNameRoundTrip(e.orderType);
  }

  /** One line of the file, as the loop of `readCSV` treats it. */
  function ParseLine(line: string, stod: string -> Option<real>): Result<OrderBookEntry, ParseError> {
    StringsToOBE(TokensOf(line, ','), stod)
  }

  /** Round trip through a whole line: an entry whose timestamp and product are
      non-empty and comma-free, written as a comma-separated line, reads back as
      itself. */
  lemma ParseLineRoundTrip(e: OrderBookEntry, priceText: string, extra: string, stod: string -> Option<real>)
    requires IsField(e.timestamp, ',') && IsField(e.product, ',')
    requires IsField(priceText, ',') && IsField(extra, ',')
    requires stod(priceText) == Some(e.price)
    ensures ParseLine(Join(EntryTokens(e, priceText, extra), ','), stod) == Success(e)
  {
    var tokens := EntryTokens(e, priceText, extra);
    assert IsField(OrderBookTypeToString(e.orderType), ',');
    assert forall i :: 0 <= i < |tokens| ==> IsField(tokens[i], ',');
    TokeniseJoin(tokens, ',');
    StringsToOBERoundTrip(e, priceText, extra, stod);
  }

  /** The entries one line contributes: its entry when it parses, none otherwise. */
  function Kept(parsed: Result<OrderBookEntry, ParseError>): (r: seq<OrderBookEntry>)
    ensures |r| <= 1
    ensures parsed.Success? ==> r == [parsed.value]
    ensures parsed.Failure? ==> r == []
  {
    match parsed
    case Success(e) => [e]
    case Failure(_) => []
  }

  /** The entries kept from `lines` when each line is read with `parse`. */
  function KeepParsed(lines: seq<string>, parse: string -> Result<OrderBookEntry, ParseError>)
    : seq<OrderBookEntry>
  {
    if lines == [] then []
    else KeepParsed(lines[..|lines| - 1], parse) + Kept(parse(lines[|lines| - 1]))
  }

  /** The entries `readCSV` keeps from `lines`: those of the lines that parse,
      in line order. */
  function LoadedEntries(lines: seq<string>, stod: string -> Option<real>): seq<OrderBookEntry> {
    KeepParsed(lines, line => ParseLine(line, stod))
  }

  /** The file loop of `readCSV`, over lines already read: each line is the
      exact text `fgets` returns, its newline included. */
  method ReadCSV(lines: seq<string>, stod: string -> Option<real>) returns (entries: seq<OrderBookEntry>)
    ensures entries == LoadedEntries(lines, stod)
  {
    entries := [];
    for i := 0 to |lines|
      invariant entries == LoadedEntries(lines[..i], stod)
    {
      var tokens := Tokenise(lines[i], ',');
      var obe := StringsToOBE(tokens, stod);
      ReadStep(lines, i, entries, obe, stod);
      if obe.Success? {
        entries := entries + [obe.value];
      }
    }
    assert lines[..|lines|] == lines;
  }

  /** One turn of the file loop of `readCSV`: the parse of line i is kept when it succeeds. */
  lemma ReadStep(lines: seq<string>, i: nat, entries: seq<OrderBookEntry>,
                 obe: Result<OrderBookEntry, ParseError>, stod: string -> Option<real>)
    requires i < |lines| && entries == LoadedEntries(lines[..i], stod)
    requires obe == ParseLine(lines[i], stod)
    ensures LoadedEntries(lines[..i + 1], stod) == entries + Kept(obe)
  {
    assert lines[..i + 1] == lines[..i] + [lines[i]];
    KeepParsedSnoc(lines[..i + 1], lines[..i], lines[i], line => ParseLine(line, stod));
  }

  /** Reading one more line adds what that line contributes. */
  lemma KeepParsedSnoc(lines: seq<string>, init: seq<string>, last: string,
                       parse: string -> Result<OrderBookEntry, ParseError>)
    requires lines == init + [last]
    ensures KeepParsed(lines, parse) == KeepParsed(init, parse) + Kept(parse(last))
  {
    assert lines[..|lines| - 1] == init;
  }

  lemma {:induction false} KeepParsedAppend(a: seq<string>, b: seq<string>,
                                            parse: string -> Result<OrderBookEntry, ParseError>)
    ensures KeepParsed(a + b, parse) == KeepParsed(a, parse) + KeepParsed(b, parse)
    decreases |b|
  {
    if b == [] {
      assert a + b == a;
    } else {
      var b', last := b[..|b| - 1], b[|b| - 1];
      assert b == b' + [last];
      assert a + b == (a + b') + [last];
      var kept := Kept(parse(last));
      calc {
        KeepParsed(a + b, parse);
        { KeepParsedSnoc(a + b, a + b', last, parse); }
        KeepParsed(a + b', parse) + kept;
        { KeepParsedAppend(a, b', parse); }
        (KeepParsed(a, parse) + KeepParsed(b', parse)) + kept;
        KeepParsed(a, parse) + (KeepParsed(b', parse) + kept);
        { KeepParsedSnoc(b, b', last, parse); }
        KeepParsed(a, parse) + KeepParsed(b, parse);
      }
    }
  }

  lemma {:induction false} KeepParsedAllGood(lines: seq<string>, parse: string -> Result<OrderBookEntry, ParseError>,
                                             parsed: seq<OrderBookEntry>)
    requires |parsed| == |lines|
    requires forall i :: 0 <= i < |lines| ==> parse(lines[i]) == Success(parsed[i])
    ensures KeepParsed(lines, parse) == parsed
  {
    if lines != [] {
      var n := |lines|;
      var init, last, parsedInit := lines[..n - 1], lines[n - 1], parsed[..n - 1];
      forall i | 0 <= i < n - 1 ensures parse(init[i]) == Success(parsedInit[i]) {
        assert init[i] == lines[i] && parsedInit[i] == parsed[i];
      }
      KeepParsedAllGood(init, parse, parsedInit);
      KeepParsedSnoc(lines, init, last, parse);
      calc {
        KeepParsed(lines, parse);
        parsedInit + Kept(parse(last));
        { assert parse(last) == Success(parsed[n - 1]); }
        parsedInit + [parsed[n - 1]];
        { assert parsed == parsedInit + [parsed[n - 1]]; }
        parsed;
      }
    }
  }

  lemma KeepParsedSkips(a: seq<string>, bad: string, b: seq<string>,
                        parse: string -> Result<OrderBookEntry, ParseError>)
    requires parse(bad).Failure?
    ensures KeepParsed(a + [bad] + b, parse) == KeepParsed(a, parse) + KeepParsed(b, parse)
  {
    KeepParsedAppend(a + [bad], b, parse);
    KeepParsedSnoc(a + [bad], a, bad, parse);
    assert KeepParsed(a + [bad], parse) == KeepParsed(a, parse);
  }

  /** Loading two parts of a file one after the other gives the entries of both,
      in order. */
  lemma LoadedEntriesAppend(a: seq<string>, b: seq<string>, stod: string -> Option<real>)
    ensures LoadedEntries(a + b, stod) == LoadedEntries(a, stod) + LoadedEntries(b, stod)
  {
    KeepParsedAppend(a, b, line => ParseLine(line, stod));
  }

  /** A line that does not parse is skipped and loading goes on with the next. */
  lemma SkipsBadLine(a: seq<string>, bad: string, b: seq<string>, stod: string -> Option<real>)
    requires ParseLine(bad, stod).Failure?
    ensures LoadedEntries(a + [bad] + b, stod) == LoadedEntries(a, stod) + LoadedEntries(b, stod)
  {
    KeepParsedSkips(a, bad, b, line => ParseLine(line, stod));
  }

  /** When every line parses, one entry is kept per line, in line order: the
      loaded entries are exactly the lines' parses. */
  lemma LoadedEntriesAllGood(lines: seq<string>, stod: string -> Option<real>, parsed: seq<OrderBookEntry>)
    requires |parsed| == |lines|
    requires forall i :: 0 <= i < |lines| ==> ParseLine(lines[i], stod) == Success(parsed[i])
    ensures LoadedEntries(lines, stod) == parsed
  {
    KeepParsedAllGood(lines, line => ParseLine(line, stod), parsed);
  }

  /** Every kept entry has a non-empty, comma-free timestamp and product. */
  lemma {:induction false} LoadedEntriesFields(lines: seq<string>, stod: string -> Option<real>)
    ensures forall e :: e in LoadedEntries(lines, stod) ==> IsField(e.timestamp, ',') && IsField(e.product, ',')
  {
    if lines != [] {
      var init, last := lines[..|lines| - 1], lines[|lines| - 1];
      LoadedEntriesFields(init, stod);
      KeepParsedSnoc(lines, init, last, line => ParseLine(line, stod));
      TokensOfShape(last, ',');
    }
  }
}
