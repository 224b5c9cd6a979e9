/**
  Linear searches in both directions: Python's `for x in xs: if p(x): ...; break`
  and the same loop over `reversed(xs)`.
 */
module Search {
  import opened Wrappers

  /** The index of the first element satisfying `P`, scanning forward. */
  function FirstWhere<T>(s: seq<T>, P: T -> bool): (r: Option<nat>)
    ensures r.Some? ==> r.value < |s| && P(s[r.value]) && forall j :: 0 <= j < r.value ==> !P(s[j])
    ensures r.None? ==> forall j :: 0 <= j < |s| ==> !P(s[j])
    decreases |s|
  {
    if |s| == 0 then None
    else if P(s[0]) then Some(0)
    else match FirstWhere(s[1..], P)
      case None => None
      case Some(k) => Some(k + 1)
  }

  /** The index of the last element satisfying `P`: the first hit when scanning in reverse. */
  function LastWhere<T>(s: seq<T>, P: T -> bool): (r: Option<nat>)
    ensures r.Some? ==> r.value < |s| && P(s[r.value]) && forall j :: r.value < j < |s| ==> !P(s[j])
    ensures r.None? ==> forall j :: 0 <= j < |s| ==> !P(s[j])
    decreases |s|
  {
    if |s| == 0 then None
    else if P(s[|s| - 1]) then Some(|s| - 1)
    else LastWhere(s[..|s| - 1], P)
  }

  /** Two searches that agree on every element agree on the result. */
  lemma {:induction false} LastWhereCongruent<T>(s: seq<T>, P: T -> bool, Q: T -> bool)
    requires forall j :: 0 <= j < |s| ==> (P(s[j]) <==> Q(s[j]))
    ensures LastWhere(s, P) == LastWhere(s, Q)
    decreases |s|
  {
    if |s| > 0 && !P(s[|s| - 1]) {
      LastWhereCongruent(s[..|s| - 1], P, Q);
    }
  }

  /** The forward search stops at `i` when `i` satisfies `P` and nothing before it does. */
  lemma FirstWhereIs<T>(s: seq<T>, P: T -> bool, i: nat)
    requires i < |s| && P(s[i]) && forall j :: 0 <= j < i ==> !P(s[j])
    ensures FirstWhere(s, P) == Some(i)
  {
  }

  /** The reverse search stops at `i` when `i` satisfies `P` and nothing after it does. */
  lemma LastWhereIs<T>(s: seq<T>, P: T -> bool, i: nat)
    requires i < |s| && P(s[i]) && forall j :: i < j < |s| ==> !P(s[j])
    ensures LastWhere(s, P) == Some(i)
  {
  }

  /** After inserting `x` between `a` and `b`, element `i` of `a + b` sits at `i` or `i + 1`. */
  lemma InsertedShift<T>(a: seq<T>, x: T, b: seq<T>, i: nat)
    requires i < |a + b|
    ensures (a + [x] + b)[if i < |a| then i else i + 1] == (a + b)[i]
  {
    if i >= |a| {
      assert (a + [x] + b)[i + 1] == b[i - |a|];
    }
  }

  /** Inserting an element that fails `P` shifts the forward search's answer past it and changes nothing else. */
  lemma FirstWhereSkip<T>(a: seq<T>, x: T, b: seq<T>, P: T -> bool)
    requires !P(x)
    ensures FirstWhere(a + [x] + b, P) ==
      match FirstWhere(a + b, P)
      case None => None
      case Some(i) => Some(if i < |a| then i else i + 1)
  {
    var s, t := a + [x] + b, a + b;
    assert forall j :: 0 <= j < |a| ==> s[j] == t[j];
    assert forall j :: |a| < j < |s| ==> s[j] == t[j - 1];
    match FirstWhere(t, P) {
      case None =>
      case Some(i) =>
        if i < |a| {
          FirstWhereIs(s, P, i);
        } else {
          FirstWhereIs(s, P, i + 1);
        }
    }
  }

  /** Inserting an element that fails `P` shifts the reverse search's answer past it and changes nothing else. */
  lemma LastWhereSkip<T>(a: seq<T>, x: T, b: seq<T>, P: T -> bool)
    requires !P(x)
    ensures LastWhere(a + [x] + b, P) ==
      match LastWhere(a + b, P)
      case None => None
      case Some(i) => Some(if i < |a| then i else i + 1)
  {
    var s, t := a + [x] + b, a + b;
    assert forall j :: 0 <= j < |a| ==> s[j] == t[j];
    assert forall j :: |a| < j < |s| ==> s[j] == t[j - 1];
    match LastWhere(t, P) {
      case None =>
      case Some(i) =>
        if i < |a| {
          LastWhereIs(s, P, i);
        } else {
          LastWhereIs(s, P, i + 1);
        }
    }
  }

  /** How many elements of `s` satisfy `P`. */
  function Count<T>(s: seq<T>, P: T -> bool): nat {
    if |s| == 0 then 0
    else Count(s[..|s| - 1], P) + (if P(s[|s| - 1]) then 1 else 0)
  }

  /** Two sequences whose elements pass their tests in step have equal counts. */
  lemma {:induction false} CountAgree<T, U>(s: seq<T>, t: seq<U>, P: T -> bool, Q: U -> bool)
    requires |s| == |t|
    requires forall k :: 0 <= k < |s| ==> P(s[k]) == Q(t[k])
    ensures Count(s, P) == Count(t, Q)
    decreases |s|
  {
    if |s| > 0 {
      var n := |s| - 1;
      assert forall k :: 0 <= k < n ==> s[..n][k] == s[k] && t[..n][k] == t[k];
      CountAgree(s[..n], t[..n], P, Q);
    }
  }

  /** `[F(x) for x in s if P(x)]`. */
  function MapFilter<T, U>(s: seq<T>, P: T -> bool, F: T -> U): (r: seq<U>)
    ensures |r| <= |s|
  {
    if |s| == 0 then []
    else MapFilter(s[..|s| - 1], P, F) + (if P(s[|s| - 1]) then [F(s[|s| - 1])] else [])
  }

  /** The comprehension distributes over concatenation, so it keeps the order of `s`. */
  lemma {:induction false} MapFilterAppend<T, U>(a: seq<T>, b: seq<T>, P: T -> bool, F: T -> U)
    ensures MapFilter(a + b, P, F) == MapFilter(a, P, F) + MapFilter(b, P, F)
    decreases |b|
  {
    if |b| == 0 {
      assert a + b == a;
    } else {
      var b' := b[..|b| - 1];
      assert (a + b)[..|a + b| - 1] == a + b';
      MapFilterAppend(a, b', P, F);
    }
  }

  /** A value is produced exactly when some element passes the filter and maps to it. */
  lemma {:induction false} MapFilterSpec<T, U>(s: seq<T>, P: T -> bool, F: T -> U, u: U)
    ensures u in MapFilter(s, P, F) <==> exists j :: 0 <= j < |s| && P(s[j]) && u == F(s[j])
  {
    if |s| > 0 {
      var init := s[..|s| - 1];
      MapFilterSpec(init, P, F, u);
      if exists j :: 0 <= j < |s| && P(s[j]) && u == F(s[j]) {
        var j :| 0 <= j < |s| && P(s[j]) && u == F(s[j]);
        if j < |s| - 1 {
          assert init[j] == s[j];
        }
      }
      if exists j :: 0 <= j < |init| && P(init[j]) && u == F(init[j]) {
        var j :| 0 <= j < |init| && P(init[j]) && u == F(init[j]);
        assert s[j] == init[j];
      }
    }
  }

  /**
    `list(a_set)`: the elements of a set, each exactly once, in an order the
    model leaves open (Python's iteration order of a set).
   */
  method ListOf<T>(s: set<T>) returns (xs: seq<T>)
    ensures forall x :: x in xs <==> x in s
    ensures forall a, b :: 0 <= a < b < |xs| ==> xs[a] != xs[b]
  {
    xs := [];
    var rest := s;
    while rest != {}
      invariant rest !! set x | x in xs
      invariant (set x | x in xs) + rest == s
      invariant forall a, b :: 0 <= a < b < |xs| ==> xs[a] != xs[b]
      decreases |rest|
    {
      var t :| t in rest;
      xs := xs + [t];
      rest := rest - {t};
    }
  }
}
