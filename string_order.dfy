/**
 * The orderings the order book relies on: `operator<` of std::string, the key
 * order of a std::map<std::string, ...>, and the effect of std::sort.
 */
module StringOrder {

  /** `a < b` on std::string: characters compared left to right, a proper
      prefix being the smaller. */
  predicate Less(a: string, b: string)
    decreases |a|
  {
    if |b| == 0 then false
    else if |a| == 0 then true
    else if a[0] != b[0] then a[0] < b[0]
    else Less(a[1..], b[1..])
  }

  lemma {:induction false} LessIrreflexive(a: string)
    ensures !Less(a, a)
  {
    if |a| > 0 {
      LessIrreflexive(a[1..]);
    }
  }

  lemma {:induction false} LessAsymmetric(a: string, b: string)
    ensures !(Less(a, b) && Less(b, a))
  {
    if |a| > 0 && |b| > 0 && a[0] == b[0] {
      LessAsymmetric(a[1..], b[1..]);
    }
  }

  lemma {:induction false} LessTransitive(a: string, b: string, c: string)
    requires Less(a, b) && Less(b, c)
    ensures Less(a, c)
  {
    if |a| > 0 && a[0] == b[0] && b[0] == c[0] {
      LessTransitive(a[1..], b[1..], c[1..]);
    }
  }

  /** Any two different strings are ordered one way or the other. */
  lemma {:induction false} LessTotal(a: string, b: string)
    ensures a == b || Less(a, b) || Less(b, a)
  {
    if |a| > 0 && |b| > 0 && a[0] == b[0] {
      LessTotal(a[1..], b[1..]);
      if a[1..] == b[1..] {
        assert a == [a[0]] + a[1..] && b == [b[0]] + b[1..];
      }
    }
  }

  ghost predicate StrictlySorted(s: seq<string>) {
    forall i, j :: 0 <= i < j < |s| ==> Less(s[i], s[j])
  }

  /** `s` lists every element of `keys` exactly once, in ascending order: the
      shape of the key sequence of a std::map and of the order book's indexes. */
  ghost predicate SortedDistinctOf(s: seq<string>, keys: set<string>) {
    StrictlySorted(s) && forall x :: x in s <==> x in keys
  }

  /** The head of a strictly ascending list of a set's elements is its least element. */
  lemma HeadIsLeast(s: seq<string>, keys: set<string>, x: string)
    requires SortedDistinctOf(s, keys) && x in keys
    ensures s != [] && (x == s[0] || Less(s[0], x))
  {
    var j :| 0 <= j < |s| && s[j] == x;
  }

  /** A strictly ascending list of a set's elements is unique. */
  lemma {:induction false} SortedDistinctUnique(s1: seq<string>, s2: seq<string>, keys: set<string>)
    requires SortedDistinctOf(s1, keys) && SortedDistinctOf(s2, keys)
    ensures s1 == s2
    decreases |s1|
  {
    if s1 != [] {
      HeadIsLeast(s2, keys, s1[0]);
      HeadIsLeast(s1, keys, s2[0]);
      LessAsymmetric(s1[0], s2[0]);
      var rest := keys - {s1[0]};
      forall x ensures x in s1[1..] <==> x in rest {
        if x in s1[1..] {
          var k :| 1 <= k < |s1| && s1[k] == x;
          LessIrreflexive(x);
        }
      }
      forall x ensures x in s2[1..] <==> x in rest {
        if x in s2[1..] {
          var k :| 1 <= k < |s2| && s2[k] == x;
          LessIrreflexive(x);
        }
      }
      SortedDistinctUnique(s1[1..], s2[1..], rest);
      assert s1 == [s1[0]] + s1[1..] && s2 == [s2[0]] + s2[1..];
    } else if s2 != [] {
      HeadIsLeast(s1, keys, s2[0]);
    }
  }

  /** The key sequence of a std::map after `m[k] = ...`: `k` is added at its
      place in the order unless it is already a key. */
  function InsertKey(keys: seq<string>, k: string): (r: seq<string>)
    requires StrictlySorted(keys)
    ensures StrictlySorted(r)
    ensures forall x :: x in r <==> x in keys || x == k
  {
    if keys == [] then [k]
    else if k == keys[0] then keys
    else if Less(k, keys[0]) then
      assert forall j :: 0 < j < |keys| ==> Less(k, keys[j]) by {
        forall j | 0 < j < |keys| { LessTransitive(k, keys[0], keys[j]); }
      }
      [k] + keys
    else
      LessTotal(k, keys[0]);
      var tail := InsertKey(keys[1..], k);
      assert forall y :: y in tail ==> Less(keys[0], y) by {
        forall y | y in tail ensures Less(keys[0], y) {
          if y != k {
            var j :| 0 <= j < |keys[1..]| && keys[1..][j] == y;
            assert keys[j + 1] == y;
          }
        }
      }
      [keys[0]] + tail
  }

  /** Keys are compared through `key` with `Less`; equal keys may appear in any order. */
  ghost predicate SortedBy<T>(s: seq<T>, key: T -> string) {
    forall i, j :: 0 <= i < j < |s| ==> !Less(key(s[j]), key(s[i]))
  }

  /** An element whose key is below the first key is below every key of a sorted sequence. */
  lemma BelowHead<T>(sorted: seq<T>, x: T, key: T -> string)
    requires SortedBy(sorted, key) && sorted != [] && Less(key(x), key(sorted[0]))
    ensures forall j :: 0 <= j < |sorted| ==> !Less(key(sorted[j]), key(x))
  {
    forall j | 0 <= j < |sorted| ensures !Less(key(sorted[j]), key(x)) {
      if Less(key(sorted[j]), key(x)) {
        LessTransitive(key(sorted[j]), key(x), key(sorted[0]));
        if j == 0 { LessIrreflexive(key(sorted[0])); }
      }
    }
  }

  /** No element of `tail`, made of the rest of a sorted sequence and an element `x`
      not below its head, has a key below that head. */
  lemma NotBelowHead<T>(sorted: seq<T>, x: T, key: T -> string, tail: seq<T>)
    requires SortedBy(sorted, key) && sorted != [] && !Less(key(x), key(sorted[0]))
    requires multiset(tail) == multiset(sorted[1..]) + multiset{x}
    ensures forall y :: y in tail ==> !Less(key(y), key(sorted[0]))
  {
    forall y | y in tail ensures !Less(key(y), key(sorted[0])) {
      assert y in multiset(tail);
      if y != x {
        assert y in multiset(sorted[1..]);
        var j :| 0 <= j < |sorted[1..]| && sorted[1..][j] == y;
        assert sorted[j + 1] == y;
      }
    }
  }

  /** Putting a head whose key is not above any other in front keeps a sequence sorted. */
  lemma ConsSorted<T>(h: T, tail: seq<T>, key: T -> string)
    requires SortedBy(tail, key)
    requires forall y :: y in tail ==> !Less(key(y), key(h))
    ensures SortedBy([h] + tail, key)
  {
    var r := [h] + tail;
    forall i, j | 0 <= i < j < |r| ensures !Less(key(r[j]), key(r[i])) {
      if i == 0 {
        assert r[j] == tail[j - 1];
      } else {
        assert r[i] == tail[i - 1] && r[j] == tail[j - 1];
      }
    }
  }

  /** Inserts `x` after every element whose key is not above its own. */
  function InsertBy<T>(sorted: seq<T>, x: T, key: T -> string): (r: seq<T>)
    requires SortedBy(sorted, key)
    ensures SortedBy(r, key)
    ensures multiset(r) == multiset(sorted) + multiset{x}
  {
    if sorted == [] then [x]
    else if Less(key(x), key(sorted[0])) then
      BelowHead(sorted, x, key);
      ConsSorted(x, sorted, key);
      [x] + sorted
    else
      var tail := InsertBy(sorted[1..], x, key);
      NotBelowHead(sorted, x, key, tail);
      ConsSorted(sorted[0], tail, key);
      assert sorted == [sorted[0]] + sorted[1..];
      [sorted[0]] + tail
  }

  /** A stable sort by key: the model of std::sort with a comparator that
      compares keys with `<`. */
  function SortBy<T>(s: seq<T>, key: T -> string): (r: seq<T>)
    ensures SortedBy(r, key)
    ensures multiset(r) == multiset(s)
  {
    if s == [] then []
    else
      assert s == s[..|s| - 1] + [s[|s| - 1]];
      InsertBy(SortBy(s[..|s| - 1], key), s[|s| - 1], key)
  }

  lemma {:induction false} InsertByGreatest<T>(sorted: seq<T>, x: T, key: T -> string)
    requires SortedBy(sorted, key)
    requires forall j :: 0 <= j < |sorted| ==> Less(key(sorted[j]), key(x))
    ensures InsertBy(sorted, x, key) == sorted + [x]
  {
    if sorted != [] {
      LessAsymmetric(key(sorted[0]), key(x));
      InsertByGreatest(sorted[1..], x, key);
      assert sorted == [sorted[0]] + sorted[1..];
    }
  }

  /** "Not below" is transitive: keys that never step down along a chain never
      step down across it. */
  lemma NotLessTransitive(a: string, b: string, c: string)
    requires !Less(b, a) && !Less(c, b)
    ensures !Less(c, a)
  {
    LessTotal(a, b);
    if Less(c, a) && a != b {
      LessTransitive(c, a, b);
    }
  }

  /** Sorted by key means exactly that no element's key is below its predecessor's. */
  lemma {:induction false} SortedByAdjacent<T>(s: seq<T>, key: T -> string)
    ensures SortedBy(s, key) <==> forall i :: 0 <= i < |s| - 1 ==> !Less(key(s[i + 1]), key(s[i]))
  {
    if forall i :: 0 <= i < |s| - 1 ==> !Less(key(s[i + 1]), key(s[i])) {
      forall i, j | 0 <= i < j < |s| ensures !Less(key(s[j]), key(s[i])) {
        NotBelowAcross(s, key, i, j);
      }
    }
  }

  lemma {:induction false} NotBelowAcross<T>(s: seq<T>, key: T -> string, i: nat, j: nat)
    requires i < j < |s|
    requires forall k :: 0 <= k < |s| - 1 ==> !Less(key(s[k + 1]), key(s[k]))
    ensures !Less(key(s[j]), key(s[i]))
    decreases j - i
  {
    if i + 1 < j {
      NotBelowAcross(s, key, i, j - 1);
      assert !Less(key(s[j - 1 + 1]), key(s[j - 1]));
      NotLessTransitive(key(s[i]), key(s[j - 1]), key(s[j]));
    } else {
      assert !Less(key(s[i + 1]), key(s[i]));
    }
  }

  /** `SortBy` on a non-empty sequence inserts its last element into the sorted prefix. */
  lemma SortBySnoc<T>(s: seq<T>, key: T -> string, init: seq<T>, last: T)
    requires s != [] && init == s[..|s| - 1] && last == s[|s| - 1]
    ensures s == init + [last]
    ensures SortBy(s, key) == InsertBy(SortBy(init, key), last, key)
  {
  }

  /** Sorting a sequence whose keys already ascend strictly changes nothing. */
  lemma {:induction false} SortByStrictlySorted<T>(s: seq<T>, key: T -> string)
    requires forall i, j :: 0 <= i < j < |s| ==> Less(key(s[i]), key(s[j]))
    ensures SortBy(s, key) == s
  {
    if s != [] {
      var init, last := s[..|s| - 1], s[|s| - 1];
      SortBySnoc(s, key, init, last);
      SortByStrictlySorted(init, key);
      InsertByGreatest(init, last, key);
    }
  }

  /** The identity key, used to sort strings themselves. */
  function Id(s: string): string { s }
}
