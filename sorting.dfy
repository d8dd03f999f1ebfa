/**
 * Python's `sorted(children, key=lambda n: n.y)`: a stable sort by an integer key.
 * It is modelled by insertion sort, whose result is the only ordering that is
 * ascending in the key and keeps equal-key elements in their original order.
 */
module Sorting {
  import opened Lists

  /** Every element has a key. */
  predicate Keyed<T>(s: seq<T>, key: map<T, int>) {
    forall x <- s :: x in key
  }

  /** Keys never decrease along the list. */
  ghost predicate Ascending<T>(s: seq<T>, key: map<T, int>)
    requires Keyed(s, key)
  {
    forall i, j :: 0 <= i < j < |s| ==> key[s[i]] <= key[s[j]]
  }

  /** The elements whose key is `k`, in the order they occur. */
  function WithKey<T>(s: seq<T>, key: map<T, int>, k: int): seq<T>
    requires Keyed(s, key)
  {
    if s == [] then []
    else (if key[s[0]] == k then [s[0]] else []) + WithKey(s[1..], key, k)
  }

  lemma {:induction false} WithKeyAppend<T>(a: seq<T>, b: seq<T>, key: map<T, int>, k: int)
    requires Keyed(a, key) && Keyed(b, key)
    ensures WithKey(a + b, key, k) == WithKey(a, key, k) + WithKey(b, key, k)
  {
    if a != [] {
      assert (a + b)[1..] == a[1..] + b;
      WithKeyAppend(a[1..], b, key, k);
    } else {
      assert a + b == b;
    }
  }

  /** Places `x` before the first element whose key is not smaller. */
  function Insert<T>(x: T, t: seq<T>, key: map<T, int>): (r: seq<T>)
    requires x in key && Keyed(t, key)
    ensures Keyed(r, key)
    ensures multiset(r) == multiset([x] + t)
  {
    if t == [] || key[x] <= key[t[0]] then [x] + t
    else
      assert t == [t[0]] + t[1..];
      [t[0]] + Insert(x, t[1..], key)
  }

  lemma WithKeyOne<T>(y: T, key: map<T, int>, k: int)
    requires y in key
    ensures WithKey([y], key, k) == if key[y] == k then [y] else []
  {
    assert [y][1..] == [];
  }

  /** Every element of the result is `x` or comes from `t`. */
  lemma InsertFrom<T>(x: T, t: seq<T>, key: map<T, int>, y: T)
    requires x in key && Keyed(t, key) && y in Insert(x, t, key)
    ensures y == x || y in t
  {
    assert y in multiset(Insert(x, t, key));
    assert y in multiset([x] + t);
  }

  lemma {:induction false} InsertAscending<T>(x: T, t: seq<T>, key: map<T, int>)
    requires x in key && Keyed(t, key) && Ascending(t, key)
    ensures Ascending(Insert(x, t, key), key)
  {
    if t != [] && key[t[0]] < key[x] {
      assert t == [t[0]] + t[1..];
      assert Ascending(t[1..], key) by {
        forall i, j | 0 <= i < j < |t| - 1 ensures key[t[1..][i]] <= key[t[1..][j]] {
          assert t[1..][i] == t[i + 1] && t[1..][j] == t[j + 1];
        }
      }
      var rest := Insert(x, t[1..], key);
      InsertAscending(x, t[1..], key);
      var r := [t[0]] + rest;
      assert Insert(x, t, key) == r;
      forall j | 0 <= j < |rest| ensures key[t[0]] <= key[rest[j]] {
        InsertFrom(x, t[1..], key, rest[j]);
        if rest[j] != x {
          var m :| 0 <= m < |t[1..]| && t[1..][m] == rest[j];
          assert t[m + 1] == rest[j];
        }
      }
      forall i, j | 0 <= i < j < |r| ensures key[r[i]] <= key[r[j]] {
        if i == 0 {
          assert r[j] == rest[j - 1];
        } else {
          assert r[i] == rest[i - 1] && r[j] == rest[j - 1];
        }
      }
    }
  }

  lemma {:induction false} InsertStable<T>(x: T, t: seq<T>, key: map<T, int>, k: int)
    requires x in key && Keyed(t, key)
    ensures WithKey(Insert(x, t, key), key, k) == WithKey([x] + t, key, k)
  {
    if t != [] && key[t[0]] < key[x] {
      var head, tail := t[0], t[1..];
      assert t == [head] + tail;
      var rest := Insert(x, tail, key);
      assert Insert(x, t, key) == [head] + rest;
      InsertStable(x, tail, key, k);
      var a, b, c := WithKey([head], key, k), WithKey([x], key, k), WithKey(tail, key, k);
      calc {
        WithKey(Insert(x, t, key), key, k);
        { WithKeyAppend([head], rest, key, k); }
        a + WithKey(rest, key, k);
        { WithKeyAppend([x], tail, key, k); }
        a + (b + c);
        { WithKeyOne(x, key, k); WithKeyOne(head, key, k); OneSideEmpty(a, b, c); }
        b + (a + c);
        { WithKeyAppend([head], tail, key, k); }
        b + WithKey(t, key, k);
        { WithKeyAppend([x], t, key, k); }
        WithKey([x] + t, key, k);
      }
    }
  }

  lemma OneSideEmpty<T>(a: seq<T>, b: seq<T>, c: seq<T>)
    requires a == [] || b == []
    ensures a + (b + c) == b + (a + c)
  {
    if a == [] {
      assert a + (b + c) == b + c == b + (a + c);
    } else {
      assert a + (b + c) == a + c == b + (a + c);
    }
  }

  /** `sorted(s, key=...)`: ascending in the key, a permutation of `s`, and stable. */
  function SortBy<T>(s: seq<T>, key: map<T, int>): (r: seq<T>)
    requires Keyed(s, key)
    ensures Keyed(r, key)
    ensures multiset(r) == multiset(s)
    ensures Ascending(r, key)
    ensures forall k :: WithKey(r, key, k) == WithKey(s, key, k)
  {
    if s == [] then []
    else
      assert s == [s[0]] + s[1..];
      var rest := SortBy(s[1..], key);
      InsertAscending(s[0], rest, key);
      forall k ensures WithKey(Insert(s[0], rest, key), key, k) == WithKey(s, key, k) {
        InsertStable(s[0], rest, key, k);
        WithKeyAppend([s[0]], rest, key, k);
        WithKeyAppend([s[0]], s[1..], key, k);
      }
      Insert(s[0], rest, key)
  }
  /** `WithKey` keeps exactly the elements whose key is `k`. */
  lemma {:induction false} WithKeyMembers<T>(s: seq<T>, key: map<T, int>, k: int, y: T)
    requires Keyed(s, key)
    ensures y in WithKey(s, key, k) <==> y in s && key[y] == k
  {
    if s != [] {
      assert s == [s[0]] + s[1..];
      WithKeyMembers(s[1..], key, k, y);
    }
  }

  /**
   * Two ascending lists that agree on the order within every key group are equal:
   * a stable sort has only one possible result.
   */
  lemma {:induction false} SortUnique<T>(a: seq<T>, b: seq<T>, key: map<T, int>)
    requires Keyed(a, key) && Keyed(b, key) && Ascending(a, key) && Ascending(b, key)
    requires forall k :: WithKey(a, key, k) == WithKey(b, key, k)
    ensures a == b
  {
    if a == [] || b == [] {
      if a != [] {
        WithKeyMembers(a, key, key[a[0]], a[0]);
        WithKeyMembers(b, key, key[a[0]], a[0]);
      }
      if b != [] {
        WithKeyMembers(b, key, key[b[0]], b[0]);
        WithKeyMembers(a, key, key[b[0]], b[0]);
      }
    } else {
      var x, y := a[0], b[0];
      WithKeyMembers(a, key, key[y], y);
      WithKeyMembers(b, key, key[y], y);
      WithKeyMembers(a, key, key[x], x);
      WithKeyMembers(b, key, key[x], x);
      assert key[x] == key[y] by {
        var i :| 0 <= i < |a| && a[i] == y;
        var j :| 0 <= j < |b| && b[j] == x;
        assert key[a[0]] <= key[a[i]] && key[b[0]] <= key[b[j]];
      }
      assert x == y by {
        assert WithKey(a, key, key[x])[0] == x;
        assert WithKey(b, key, key[x])[0] == y;
      }
      forall k ensures WithKey(a[1..], key, k) == WithKey(b[1..], key, k) {
        var head := if key[x] == k then [x] else [];
        assert WithKey(a, key, k) == head + WithKey(a[1..], key, k);
        assert WithKey(b, key, k) == head + WithKey(b[1..], key, k);
        assert (head + WithKey(a[1..], key, k))[|head|..] == WithKey(a[1..], key, k);
        assert (head + WithKey(b[1..], key, k))[|head|..] == WithKey(b[1..], key, k);
      }
      assert Ascending(a[1..], key) by {
        forall i, j | 0 <= i < j < |a| - 1 ensures key[a[1..][i]] <= key[a[1..][j]] {
          assert a[1..][i] == a[i + 1] && a[1..][j] == a[j + 1];
        }
      }
      assert Ascending(b[1..], key) by {
        forall i, j | 0 <= i < j < |b| - 1 ensures key[b[1..][i]] <= key[b[1..][j]] {
          assert b[1..][i] == b[i + 1] && b[1..][j] == b[j + 1];
        }
      }
      SortUnique(a[1..], b[1..], key);
      assert a == [x] + a[1..] && b == [y] + b[1..];
    }
  }

  /** A list already ascending in the key is left as it is. */
  lemma AscendingSorted<T>(s: seq<T>, key: map<T, int>)
    requires Keyed(s, key) && Ascending(s, key)
    ensures SortBy(s, key) == s
  {
    SortUnique(SortBy(s, key), s, key);
  }

  /** No two different elements share a key. */
  predicate KeyInjective<T(==)>(s: seq<T>, key: map<T, int>)
    requires Keyed(s, key)
  {
    forall x, y :: x in s && y in s && key[x] == key[y] ==> x == y
  }

  /** With distinct keys a key group holds at most one element. */
  lemma {:induction false} WithKeyAtMostOne<T>(s: seq<T>, key: map<T, int>, k: int)
    requires Keyed(s, key) && KeyInjective(s, key) && NoDup(s)
    ensures |WithKey(s, key, k)| <= 1
    ensures forall y :: y in s && key[y] == k ==> WithKey(s, key, k) == [y]
  {
    if s != [] {
      assert s == [s[0]] + s[1..];
      assert NoDup(s[1..]) by {
        forall i, j | 0 <= i < j < |s| - 1 ensures s[1..][i] != s[1..][j] {
          assert s[i + 1] != s[j + 1];
        }
      }
      WithKeyAtMostOne(s[1..], key, k);
      var w := WithKey(s[1..], key, k);
      if key[s[0]] == k && w != [] {
        WithKeyMembers(s[1..], key, k, w[0]);
        assert false;
      }
      forall y | y in s && key[y] == k ensures WithKey(s, key, k) == [y] {
        WithKeyMembers(s, key, k, y);
        if key[s[0]] != k {
          assert y in s[1..];
        }
      }
    }
  }

  /**
   * With distinct keys the order of the input does not matter: any two
   * arrangements of the same elements sort to the same list.
   */
  lemma SortByDistinct<T>(a: seq<T>, b: seq<T>, key: map<T, int>)
    requires Keyed(a, key) && KeyInjective(a, key) && NoDup(a) && NoDup(b)
    requires forall y :: y in a <==> y in b
    ensures Keyed(b, key) && SortBy(a, key) == SortBy(b, key)
  {
    assert KeyInjective(b, key);
    forall k ensures WithKey(a, key, k) == WithKey(b, key, k) {
      WithKeyAtMostOne(a, key, k);
      WithKeyAtMostOne(b, key, k);
      if WithKey(a, key, k) != [] {
        WithKeyMembers(a, key, k, WithKey(a, key, k)[0]);
      }
      if WithKey(b, key, k) != [] {
        WithKeyMembers(b, key, k, WithKey(b, key, k)[0]);
      }
    }
    SortUnique(SortBy(a, key), SortBy(b, key), key);
  }
}
