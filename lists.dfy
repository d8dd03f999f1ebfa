/**
 * The Python list operations the mind map relies on: `list.index`, `list.remove`,
 * the tuple swap of two entries, and the absence of duplicates that the tree keeps.
 */
module Lists {

  /** No element occurs twice. */
  predicate NoDup<T(==)>(s: seq<T>) {
    forall i, j :: 0 <= i < j < |s| ==> s[i] != s[j]
  }

  /** `s.index(x)`: the position of the first occurrence of `x`. */
  function IndexOf<T(==)>(s: seq<T>, x: T): (i: nat)
    requires x in s
    ensures i < |s| && s[i] == x
    ensures forall k :: 0 <= k < i ==> s[k] != x
  {
    if s[0] == x then 0 else 1 + IndexOf(s[1..], x)
  }

  /** In a list without duplicates the position of `s[i]` is `i`. */
  lemma IndexOfDistinct<T>(s: seq<T>, i: nat)
    requires NoDup(s) && i < |s|
    ensures IndexOf(s, s[i]) == i
  {
  }

  /** In a list without duplicates `s[i]` is not among the entries before it. */
  lemma NoDupPrefix<T>(s: seq<T>, i: nat)
    requires NoDup(s) && i < |s|
    ensures s[i] !in s[..i] && s[..i + 1] == s[..i] + [s[i]]
  {
    forall k | 0 <= k < i ensures s[..i][k] != s[i] {
    }
  }

  /** `s.remove(x)`: the list without the first occurrence of `x`. */
  function Remove<T(==)>(s: seq<T>, x: T): (r: seq<T>)
    requires x in s
    ensures |r| == |s| - 1
  {
    if s[0] == x then s[1..] else [s[0]] + Remove(s[1..], x)
  }

  /** `remove` takes out one copy of `x` and nothing else. */
  lemma {:induction false} RemoveMultiset<T>(s: seq<T>, x: T)
    requires x in s
    ensures multiset(Remove(s, x)) == multiset(s) - multiset{x}
  {
    assert s == [s[0]] + s[1..];
    if s[0] != x {
      RemoveMultiset(s[1..], x);
    }
  }

  /** Removing the first occurrence keeps every other element, in its order. */
  lemma {:induction false} RemoveKeepsOrder<T>(s: seq<T>, x: T)
    requires x in s
    ensures Remove(s, x) == s[..IndexOf(s, x)] + s[IndexOf(s, x) + 1..]
  {
    if s[0] != x {
      RemoveKeepsOrder(s[1..], x);
      ConsCut(s, IndexOf(s[1..], x));
    }
  }

  /** Cutting entry `i + 1` out of `s` is putting `s[0]` in front of the tail with entry `i` cut out. */
  lemma ConsCut<T>(s: seq<T>, i: nat)
    requires i + 1 < |s|
    ensures [s[0]] + (s[1..][..i] + s[1..][i + 1..]) == s[..i + 1] + s[i + 2..]
  {
    assert [s[0]] + s[1..][..i] == s[..i + 1];
    assert s[1..][i + 1..] == s[i + 2..];
  }

  /** On a list without duplicates, `remove` takes out exactly `x` and leaves a list without duplicates. */
  lemma {:induction false} RemoveDistinct<T>(s: seq<T>, x: T)
    requires NoDup(s) && x in s
    ensures NoDup(Remove(s, x))
    ensures forall y :: y in Remove(s, x) <==> y in s && y != x
  {
    assert s == [s[0]] + s[1..];
    assert NoDup(s[1..]) by {
      forall i, j | 0 <= i < j < |s| - 1 ensures s[1..][i] != s[1..][j] {
        assert s[i + 1] != s[j + 1];
      }
    }
    assert s[0] !in s[1..] by {
      forall k | 0 <= k < |s| - 1 ensures s[1..][k] != s[0] {
        assert s[k + 1] != s[0];
      }
    }
    if s[0] != x {
      RemoveDistinct(s[1..], x);
      var t := Remove(s[1..], x);
      assert Remove(s, x) == [s[0]] + t;
      forall i, j | 0 <= i < j < |t| + 1 ensures ([s[0]] + t)[i] != ([s[0]] + t)[j] {
        if i == 0 {
          assert ([s[0]] + t)[j] == t[j - 1];
          assert t[j - 1] in t;
        }
      }
    }
  }

  /** A list without duplicates holds each value at most once. */
  lemma {:induction false} NoDupCount<T>(s: seq<T>, x: T)
    requires NoDup(s)
    ensures multiset(s)[x] <= 1
  {
    if s != [] {
      assert s == [s[0]] + s[1..];
      assert NoDup(s[1..]) by {
        forall i, j | 0 <= i < j < |s| - 1 ensures s[1..][i] != s[1..][j] {
          assert s[i + 1] != s[j + 1];
        }
      }
      NoDupCount(s[1..], x);
      if x == s[0] {
        forall k | 0 <= k < |s| - 1 ensures s[1..][k] != x {
          assert s[k + 1] != s[0];
        }
        assert x !in s[1..];
      }
    }
  }

  /** A permutation of a list without duplicates has none either. */
  lemma NoDupPermutation<T>(a: seq<T>, b: seq<T>)
    requires NoDup(a) && multiset(a) == multiset(b)
    ensures NoDup(b)
  {
    forall i, j | 0 <= i < j < |b| ensures b[i] != b[j] {
      if b[i] == b[j] {
        var x := b[i];
        assert b == b[..j] + [b[j]] + b[j + 1..];
        assert x in b[..j];
        assert multiset(b)[x] >= 2;
        NoDupCount(a, x);
        assert false;
      }
    }
  }

  /** The tuple assignment `s[i], s[j] = s[j], s[i]`. */
  function Swap<T>(s: seq<T>, i: nat, j: nat): (r: seq<T>)
    requires i < |s| && j < |s|
    ensures |r| == |s| && r[i] == s[j] && r[j] == s[i]
    ensures forall k :: 0 <= k < |s| && k != i && k != j ==> r[k] == s[k]
  {
    s[i := s[j]][j := s[i]]
  }

  /** A swap permutes the list: nothing is lost, nothing is duplicated. */
  lemma SwapPermutes<T>(s: seq<T>, i: nat, j: nat)
    requires i < |s| && j < |s|
    ensures multiset(Swap(s, i, j)) == multiset(s)
    ensures NoDup(s) ==> NoDup(Swap(s, i, j))
    ensures forall y :: y in Swap(s, i, j) <==> y in s
  {
    var r := Swap(s, i, j);
    if i != j {
      assert r == s[i := s[j]][j := s[i]];
    }
    assert multiset(r) == multiset(s);
    forall y ensures y in r <==> y in s {
      assert y in r <==> y in multiset(r);
    }
  }

  /** Swapping the same two positions twice restores the list. */
  lemma SwapTwice<T>(s: seq<T>, i: nat, j: nat)
    requires i < |s| && j < |s|
    ensures Swap(Swap(s, i, j), i, j) == s
  {
  }

  /** Exchanging the same two places in either order restores the list. */
  lemma SwapBack<T>(s: seq<T>, i: nat, j: nat)
    requires i < |s| && j < |s|
    ensures Swap(Swap(s, i, j), j, i) == s
  {
    SwapTwice(s, i, j);
    assert Swap(Swap(s, i, j), j, i) == Swap(Swap(s, i, j), i, j);
  }
}
