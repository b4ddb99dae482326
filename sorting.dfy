/**
 * A stable ascending sort by a string key, with the semantics of lodash's
 * `_.sortBy(xs, key)` and of `Array.prototype.sort()` on strings.
 */
module Sorting {
  import Text

  /** Every element's key is at most the key of every later element. */
  predicate SortedBy<T>(s: seq<T>, key: T -> string) {
    forall i, j :: 0 <= i < j < |s| ==> Text.LessEq(key(s[i]), key(s[j]))
  }

  /** Places `x` after every element whose key is not greater than its own. */
  function Insert<T>(x: T, s: seq<T>, key: T -> string): (r: seq<T>)
    ensures multiset(r) == multiset(s) + multiset{x}
    ensures |r| == |s| + 1
  {
    if s == [] then [x]
    else if Text.Less(key(x), key(s[0])) then [x] + s
    else
      assert s == [s[0]] + s[1..];
      [s[0]] + Insert(x, s[1..], key)
  }

  /** The elements of `s` ordered by key; equal keys keep their order in `s`. */
  function SortBy<T>(s: seq<T>, key: T -> string): (r: seq<T>)
    ensures |r| == |s|
  {
    if s == [] then [] else Insert(s[|s| - 1], SortBy(s[..|s| - 1], key), key)
  }

  lemma {:induction false} InsertSorted<T>(x: T, s: seq<T>, key: T -> string)
    requires SortedBy(s, key)
    ensures SortedBy(Insert(x, s, key), key)
    ensures forall i :: 0 <= i < |Insert(x, s, key)| ==> Insert(x, s, key)[i] == x || Insert(x, s, key)[i] in s
  {
    var r := Insert(x, s, key);
    if s == [] {
    } else if Text.Less(key(x), key(s[0])) {
      forall i, j | 0 <= i < j < |r|
        ensures Text.LessEq(key(r[i]), key(r[j]))
      {
        if i == 0 && j > 1 {
          assert Text.LessEq(key(s[0]), key(s[j - 1]));
          if key(s[0]) != key(s[j - 1]) {
            Text.LessTransitive(key(x), key(s[0]), key(s[j - 1]));
          }
        }
      }
    } else {
      InsertSorted(x, s[1..], key);
      var t := Insert(x, s[1..], key);
      assert r == [s[0]] + t;
      Text.LessTotal(key(x), key(s[0]));
      forall j | 0 <= j < |t|
        ensures Text.LessEq(key(s[0]), key(t[j]))
      {
        if t[j] != x {
          var k :| 1 <= k < |s| && s[k] == t[j];
        }
      }
      forall i, j | 0 <= i < j < |r|
        ensures Text.LessEq(key(r[i]), key(r[j]))
      {
        if i == 0 {
          assert r[j] == t[j - 1];
        } else {
          assert r[i] == t[i - 1] && r[j] == t[j - 1];
        }
      }
    }
  }

  /** `SortBy` returns its input reordered by key. */
  lemma {:induction false} SortByCorrect<T>(s: seq<T>, key: T -> string)
    ensures SortedBy(SortBy(s, key), key)
    ensures multiset(SortBy(s, key)) == multiset(s)
  {
    if s != [] {
      var init, last := s[..|s| - 1], s[|s| - 1];
      assert s == init + [last];
      var sortedInit := SortBy(init, key);
      SortByCorrect(init, key);
      assert SortBy(s, key) == Insert(last, sortedInit, key);
      assert SortedBy(SortBy(s, key), key) by {
        InsertSorted(last, sortedInit, key);
      }
      calc {
        multiset(SortBy(s, key));
        multiset(sortedInit) + multiset{last};
        multiset(init) + multiset{last};
        multiset(s);
      }
    }
  }
  /** The key of a plain string sort: the string itself. */
  function Itself(s: string): string {
    s
  }

  /** Two sorted lists of strings with the same elements are the same list. */
  lemma {:induction false} SortedStringsUnique(a: seq<string>, b: seq<string>)
    requires SortedBy(a, Itself) && SortedBy(b, Itself) && multiset(a) == multiset(b)
    ensures a == b
  {
    assert |a| == |multiset(a)| == |multiset(b)| == |b|;
    if a != [] {
      assert a[0] in multiset(b) && b[0] in multiset(a);
      SortedHeadLeast(b, a[0]);
      SortedHeadLeast(a, b[0]);
      if a[0] != b[0] {
        Text.LessAsymmetric(a[0], b[0]);
      }
      SameTails(a, b);
      SortedStringsUnique(a[1..], b[1..]);
      assert a == [a[0]] + a[1..] && b == [b[0]] + b[1..];
    }
  }

  lemma SortedHeadLeast(a: seq<string>, x: string)
    requires SortedBy(a, Itself) && x in a
    ensures Text.LessEq(a[0], x)
  {
    var i :| 0 <= i < |a| && a[i] == x;
    if i > 0 {
      assert Text.LessEq(Itself(a[0]), Itself(a[i]));
    }
  }

  lemma SameTails(a: seq<string>, b: seq<string>)
    requires a != [] && b != [] && a[0] == b[0] && multiset(a) == multiset(b)
    ensures multiset(a[1..]) == multiset(b[1..])
  {
    assert a == [a[0]] + a[1..] && b == [b[0]] + b[1..];
    assert multiset(a) == multiset{a[0]} + multiset(a[1..]);
    assert multiset(b) == multiset{b[0]} + multiset(b[1..]);
    forall y
      ensures multiset(a[1..])[y] == multiset(b[1..])[y]
    {
      assert multiset(a)[y] == multiset{a[0]}[y] + multiset(a[1..])[y];
      assert multiset(b)[y] == multiset{b[0]}[y] + multiset(b[1..])[y];
    }
  }

  /**
   * `x.sort()` and `y.sort()` are equal exactly when `x` and `y` hold the
   * same strings the same number of times.
   */
  lemma SortedEqualIffSameElements(x: seq<string>, y: seq<string>)
    ensures SortBy(x, Itself) == SortBy(y, Itself) <==> multiset(x) == multiset(y)
  {
    SortByCorrect(x, Itself);
    SortByCorrect(y, Itself);
    if multiset(x) == multiset(y) {
      SortedStringsUnique(SortBy(x, Itself), SortBy(y, Itself));
    }
  }
}
