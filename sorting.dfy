/**
  Python's `sort(..., reverse=True)` / `sorted(..., reverse=True)` as one
  stable insertion sort: the result is newest-first under a total preorder,
  a permutation of the input, and elements that tie keep their input order.
 */
module Sorting {

  /** `le(a, b)`: the key of `a` is not greater than the key of `b`. */
  ghost predicate TotalPreorder<T(!new)>(le: (T, T) -> bool) {
    && (forall a, b :: le(a, b) || le(b, a))
    && (forall a, b, c :: le(a, b) && le(b, c) ==> le(a, c))
  }

  /** Non-increasing: every element's key is at least the key of every later one. */
  predicate Descending<T>(s: seq<T>, le: (T, T) -> bool) {
    forall i, j :: 0 <= i < j < |s| ==> le(s[j], s[i])
  }

  /** The keys of `a` and `b` are equal. */
  predicate Tie<T>(le: (T, T) -> bool, a: T, b: T) {
    le(a, b) && le(b, a)
  }

  /** The elements of `s` whose key equals the key of `k`, in order. */
  function Ties<T>(s: seq<T>, le: (T, T) -> bool, k: T): (r: seq<T>)
    ensures |r| <= |s|
  {
    if |s| == 0 then []
    else Ties(s[..|s| - 1], le, k) + (if Tie(le, s[|s| - 1], k) then [s[|s| - 1]] else [])
  }

  lemma {:induction false} TiesAppend<T>(a: seq<T>, b: seq<T>, le: (T, T) -> bool, k: T)
    ensures Ties(a + b, le, k) == Ties(a, le, k) + Ties(b, le, k)
    decreases |b|
  {
    if |b| == 0 {
      assert a + b == a;
    } else {
      assert (a + b)[..|a + b| - 1] == a + b[..|b| - 1];
      TiesAppend(a, b[..|b| - 1], le, k);
    }
  }

  /**
    Inserting `x` into a descending list: before the first element with a
    strictly smaller key, so after every element that ties with it.
   */
  function InsertDesc<T>(s: seq<T>, x: T, le: (T, T) -> bool): (r: seq<T>)
    ensures |r| == |s| + 1
  {
    if |s| == 0 then [x]
    else if le(s[0], x) && !le(x, s[0]) then [x] + s
    else [s[0]] + InsertDesc(s[1..], x, le)
  }

  /** The stable newest-first sort: each element in turn inserted into the sorted prefix. */
  function SortDesc<T>(xs: seq<T>, le: (T, T) -> bool): (r: seq<T>)
    ensures |r| == |xs|
  {
    if |xs| == 0 then []
    else InsertDesc(SortDesc(xs[..|xs| - 1], le), xs[|xs| - 1], le)
  }

  /** Insertion adds exactly one occurrence of `x`. */
  lemma {:induction false} InsertDescMultiset<T>(s: seq<T>, x: T, le: (T, T) -> bool)
    ensures multiset(InsertDesc(s, x, le)) == multiset(s) + multiset{x}
    decreases |s|
  {
    if |s| > 0 && !(le(s[0], x) && !le(x, s[0])) {
      InsertDescMultiset(s[1..], x, le);
      assert s == [s[0]] + s[1..];
    }
  }

  /** Insertion keeps a descending list descending. */
  lemma {:induction false} InsertDescCorrect<T(!new)>(s: seq<T>, x: T, le: (T, T) -> bool)
    requires TotalPreorder(le)
    requires Descending(s, le)
    ensures Descending(InsertDesc(s, x, le), le)
    ensures multiset(InsertDesc(s, x, le)) == multiset(s) + multiset{x}
    decreases |s|
  {
    InsertDescMultiset(s, x, le);
    if |s| > 0 && !(le(s[0], x) && !le(x, s[0])) {
      var t := s[1..];
      assert Descending(t, le);
      InsertDescCorrect(t, x, le);
      var rest := InsertDesc(t, x, le);
      var r := InsertDesc(s, x, le);
      assert r == [s[0]] + rest;
      forall j | 0 <= j < |rest| ensures le(rest[j], s[0]) {
        assert rest[j] in multiset(rest);
        if rest[j] != x {
          assert rest[j] in multiset(t);
          var m :| 0 <= m < |t| && t[m] == rest[j];
          assert s[m + 1] == rest[j];
        }
      }
    }
  }

  /** The sort yields a descending permutation of its input. */
  lemma {:induction false} SortDescCorrect<T(!new)>(xs: seq<T>, le: (T, T) -> bool)
    requires TotalPreorder(le)
    ensures Descending(SortDesc(xs, le), le)
    ensures multiset(SortDesc(xs, le)) == multiset(xs)
  {
    if |xs| > 0 {
      var init, last := xs[..|xs| - 1], xs[|xs| - 1];
      var s := SortDesc(init, le);
      SortDescCorrect(init, le);
      InsertDescCorrect(s, last, le);
      assert SortDesc(xs, le) == InsertDesc(s, last, le);
      assert multiset(xs) == multiset(init) + multiset{last} by {
        assert xs == init + [last];
      }
    }
  }

  lemma {:induction false} InsertDescTies<T(!new)>(s: seq<T>, x: T, le: (T, T) -> bool, k: T)
    requires TotalPreorder(le)
    requires Descending(s, le)
    ensures Ties(InsertDesc(s, x, le), le, k) == Ties(s, le, k) + Ties([x], le, k)
    decreases |s|
  {
    if |s| == 0 {
      assert InsertDesc(s, x, le) == [x];
      assert Ties(s, le, k) == [];
    } else if le(s[0], x) && !le(x, s[0]) {
      assert InsertDesc(s, x, le) == [x] + s;
      FrontTies(s, x, le, k);
    } else {
      var t := s[1..];
      assert s == [s[0]] + t;
      assert Descending(t, le);
      var r := InsertDesc(t, x, le);
      assert InsertDesc(s, x, le) == [s[0]] + r;
      InsertDescTies(t, x, le, k);
      TiesAppend([s[0]], t, le, k);
      TiesAppend([s[0]], r, le, k);
    }
  }

  /** `x` above the whole of a descending list: its ties are unaffected by where it goes. */
  lemma FrontTies<T(!new)>(s: seq<T>, x: T, le: (T, T) -> bool, k: T)
    requires TotalPreorder(le)
    requires Descending(s, le)
    requires |s| > 0 && le(s[0], x) && !le(x, s[0])
    ensures Ties([x] + s, le, k) == Ties(s, le, k) + Ties([x], le, k)
  {
    TiesAppend([x], s, le, k);
    if Tie(le, x, k) {
      NoTiesBelow(s, le, k);
      assert Ties([x], le, k) == [x];
    } else {
      assert Ties([x], le, k) == [];
    }
  }

  /** When the head of a descending list is strictly below `k`, nothing in it ties with `k`. */
  lemma {:induction false} NoTiesBelow<T(!new)>(s: seq<T>, le: (T, T) -> bool, k: T)
    requires TotalPreorder(le)
    requires Descending(s, le)
    requires |s| > 0 && le(s[0], k) && !le(k, s[0])
    ensures Ties(s, le, k) == []
    decreases |s|
  {
    var init := s[..|s| - 1];
    if |init| > 0 {
      assert Descending(init, le);
      NoTiesBelow(init, le, k);
    }
    assert le(s[|s| - 1], s[0]);
  }

  /** Stability: for every key, the elements with that key keep their input order. */
  lemma {:induction false} SortDescStable<T(!new)>(xs: seq<T>, le: (T, T) -> bool, k: T)
    requires TotalPreorder(le)
    ensures Ties(SortDesc(xs, le), le, k) == Ties(xs, le, k)
  {
    if |xs| > 0 {
      var init := xs[..|xs| - 1];
      SortDescStable(init, le, k);
      SortDescCorrect(init, le);
      InsertDescTies(SortDesc(init, le), xs[|xs| - 1], le, k);
    }
  }
}
