/**
 * `ORDER BY ... DESC LIMIT n` as the store's reads use it: rows are put in
 * descending order of a two-part sort key (the second part breaks ties of the
 * first) and the first `n` are kept. SQLite does not fix the order of rows
 * whose keys are equal, so what is promised about a read is that its result is
 * in descending order, is drawn from the matching rows and holds their top
 * `n`; the sort below is one order with those properties.
 */
module Ordering {
  /** A sort key: `first` descending, then `second` descending. */
  datatype Key = Key(first: int, second: int)

  /** `a` may come before `b` in descending order. */
  predicate AtLeast(a: Key, b: Key) {
    a.first > b.first || (a.first == b.first && a.second >= b.second)
  }

  predicate Descending<T>(s: seq<T>, key: T -> Key) {
    forall i, j :: 0 <= i < j < |s| ==> AtLeast(key(s[i]), key(s[j]))
  }

  /** Inserts `x` before the first element whose key it is at least. */
  function Insert<T(==)>(x: T, s: seq<T>, key: T -> Key): (r: seq<T>)
    ensures multiset(r) == multiset(s) + multiset{x}
    ensures Descending(s, key) ==> Descending(r, key)
  {
    if s == [] then [x]
    else if AtLeast(key(x), key(s[0])) then
      assert Descending(s, key) ==> Descending([x] + s, key) by {
        if Descending(s, key) {
          ConsDescending(x, s, key);
        }
      }
      [x] + s
    else
      var t := Insert(x, s[1..], key);
      assert s == [s[0]] + s[1..];
      assert Descending(s, key) ==> Descending([s[0]] + t, key) by {
        if Descending(s, key) {
          DescendingTail(s, key);
          HeadAtLeast(s, x, t, key);
          PrependDescending(s[0], t, key);
        }
      }
      [s[0]] + t
  }

  lemma DescendingTail<T>(s: seq<T>, key: T -> Key)
    requires s != [] && Descending(s, key)
    ensures Descending(s[1..], key)
  {
    forall i, j | 0 <= i < j < |s| - 1 ensures AtLeast(key(s[1..][i]), key(s[1..][j])) {
      assert s[1..][i] == s[i + 1] && s[1..][j] == s[j + 1];
    }
  }

  /** A row at least every row of a descending sequence can go in front of it. */
  lemma PrependDescending<T>(h: T, t: seq<T>, key: T -> Key)
    requires Descending(t, key) && forall j :: 0 <= j < |t| ==> AtLeast(key(h), key(t[j]))
    ensures Descending([h] + t, key)
  {
    var r := [h] + t;
    forall i, j | 0 <= i < j < |r| ensures AtLeast(key(r[i]), key(r[j])) {
      assert r[j] == t[j - 1];
      if i > 0 {
        assert r[i] == t[i - 1];
      }
    }
  }

  /** A row at least the head of a descending sequence can go in front of it. */
  lemma ConsDescending<T>(x: T, s: seq<T>, key: T -> Key)
    requires s != [] && Descending(s, key) && AtLeast(key(x), key(s[0]))
    ensures Descending([x] + s, key)
  {
    var r := [x] + s;
    forall i, j | 0 <= i < j < |r| ensures AtLeast(key(r[i]), key(r[j])) {
      assert r[j] == s[j - 1];
      if i > 0 {
        assert r[i] == s[i - 1];
      } else if j > 1 {
        assert AtLeast(key(s[0]), key(s[j - 1]));
      }
    }
  }

  /** The head of a descending `s` that `x` does not precede is at least every row of `s[1..]` with `x` added. */
  lemma HeadAtLeast<T>(s: seq<T>, x: T, t: seq<T>, key: T -> Key)
    requires s != [] && Descending(s, key) && !AtLeast(key(x), key(s[0]))
    requires multiset(t) == multiset(s[1..]) + multiset{x}
    ensures forall j :: 0 <= j < |t| ==> AtLeast(key(s[0]), key(t[j]))
  {
    forall j | 0 <= j < |t| ensures AtLeast(key(s[0]), key(t[j])) {
      assert t[j] in multiset(t);
      if t[j] != x {
        assert t[j] in multiset(s[1..]);
        var k :| 0 <= k < |s[1..]| && s[1..][k] == t[j];
        assert s[k + 1] == t[j];
      }
    }
  }

  /** The rows in descending key order. */
  function Sort<T(==)>(s: seq<T>, key: T -> Key): (r: seq<T>)
    ensures multiset(r) == multiset(s)
    ensures Descending(r, key)
  {
    if s == [] then []
    else
      assert s == [s[0]] + s[1..];
      Insert(s[0], Sort(s[1..], key), key)
  }

  /** SQLite's `LIMIT n`: the first `n` rows; a negative `n` means no limit. */
  function Limit<T>(s: seq<T>, n: int): (r: seq<T>)
    ensures |r| == if 0 <= n < |s| then n else |s|
    ensures r == s[..|r|]
  {
    if 0 <= n < |s| then s[..n] else s
  }

  /** `ORDER BY key DESC LIMIT n` over the rows `s`. */
  function TopRows<T(==)>(s: seq<T>, key: T -> Key, n: int): seq<T> {
    Limit(Sort(s, key), n)
  }

  /** In descending order, a row after the first `k` has a key no greater than any of the first `k`. */
  lemma BelowPrefix<T>(t: seq<T>, key: T -> Key, k: nat, j: nat, x: T)
    requires Descending(t, key) && j < k <= |t| && x in multiset(t[k..])
    ensures AtLeast(key(t[j]), key(x))
  {
    var m :| 0 <= m < |t[k..]| && t[k..][m] == x;
    assert t[k + m] == x;
  }

  /**
   * What a read promises of its result `r` for the rows `s`: `r` is in
   * descending order, is drawn from `s`, has `n` rows (all of them when there
   * are fewer or `n` is negative), and every row left out has a key no greater
   * than any row kept.
   */
  ghost predicate IsTopRows<T>(r: seq<T>, s: seq<T>, key: T -> Key, n: int) {
    && Descending(r, key)
    && multiset(r) <= multiset(s)
    && |r| == (if 0 <= n < |s| then n else |s|)
    && forall i, j :: 0 <= i < |s| && 0 <= j < |r| && s[i] in multiset(s) - multiset(r) ==>
         AtLeast(key(r[j]), key(s[i]))
  }

  lemma TopRowsSpec<T>(s: seq<T>, key: T -> Key, n: int)
    ensures IsTopRows(TopRows(s, key, n), s, key, n)
  {
    var t := Sort(s, key);
    var r := Limit(t, n);
    var k := |r|;
    assert t == r + t[k..];
    assert multiset(t) == multiset(r) + multiset(t[k..]);
    assert multiset(s) - multiset(r) == multiset(t[k..]);
    assert Descending(r, key) by {
      forall i, j | 0 <= i < j < |r| ensures AtLeast(key(r[i]), key(r[j])) {
        assert r[i] == t[i] && r[j] == t[j];
      }
    }
    forall i, j | 0 <= i < |s| && 0 <= j < |r| && s[i] in multiset(s) - multiset(r)
      ensures AtLeast(key(r[j]), key(s[i]))
    {
      BelowPrefix(t, key, k, j, s[i]);
    }
  }
}
