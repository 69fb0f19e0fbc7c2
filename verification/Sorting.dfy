/** A stable sort, standing in for the standard library's `sort_by_key`. */
module Sorting {

  ghost predicate TotalPreorder<T(!new)>(leq: (T, T) -> bool) {
    && (forall x, y :: leq(x, y) || leq(y, x))
    && (forall x, y, z :: leq(x, y) && leq(y, z) ==> leq(x, z))
  }

  ghost predicate Sorted<T>(leq: (T, T) -> bool, s: seq<T>) {
    forall i, j :: 0 <= i < j < |s| ==> leq(s[i], s[j])
  }

  /** The elements that compare equal to `k`, in list order. */
  ghost function Ties<T>(leq: (T, T) -> bool, k: T, s: seq<T>): seq<T> {
    if s == [] then []
    else (if leq(s[0], k) && leq(k, s[0]) then [s[0]] else []) + Ties(leq, k, s[1..])
  }

  lemma {:induction false} TiesConcat<T>(leq: (T, T) -> bool, k: T, s: seq<T>, t: seq<T>)
    ensures Ties(leq, k, s + t) == Ties(leq, k, s) + Ties(leq, k, t)
  {
    if s == [] {
      assert s + t == t;
    } else {
      assert (s + t)[1..] == s[1..] + t;
      TiesConcat(leq, k, s[1..], t);
    }
  }

  lemma {:induction false} NoTies<T>(leq: (T, T) -> bool, k: T, s: seq<T>)
    requires forall x :: x in s ==> !(leq(x, k) && leq(k, x))
    ensures Ties(leq, k, s) == []
  {
    if s != [] {
      NoTies(leq, k, s[1..]);
    }
  }

  // The first of the ties with `k` stands in front of all other elements that tie with it.
  lemma {:induction false} FirstTie<T>(leq: (T, T) -> bool, k: T, s: seq<T>) returns (i: nat)
    requires exists x :: x in s && leq(x, k) && leq(k, x)
    ensures i < |s| && leq(s[i], k) && leq(k, s[i])
    ensures Ties(leq, k, s) != [] && Ties(leq, k, s)[0] == s[i]
    ensures forall j :: 0 <= j < i ==> !(leq(s[j], k) && leq(k, s[j]))
  {
    if leq(s[0], k) && leq(k, s[0]) {
      i := 0;
    } else {
      assert s == [s[0]] + s[1..];
      var n := FirstTie(leq, k, s[1..]);
      i := n + 1;
    }
  }

  // Inserting `x` behind everything it ties with and in front of everything above it keeps each tie in order.
  lemma InsertIsStable<T(!new)>(leq: (T, T) -> bool, k: T, lo: seq<T>, x: T, hi: seq<T>)
    requires TotalPreorder(leq)
    requires forall y :: y in hi ==> !leq(y, x)
    ensures Ties(leq, k, lo + [x] + hi) == Ties(leq, k, lo + hi) + Ties(leq, k, [x])
  {
    hide Ties;
    var l, m, h := Ties(leq, k, lo), Ties(leq, k, [x]), Ties(leq, k, hi);
    TiesConcat(leq, k, lo + [x], hi);
    TiesConcat(leq, k, lo, [x]);
    TiesConcat(leq, k, lo, hi);
    assert m == [] || h == [] by {
      if leq(x, k) && leq(k, x) {
        NoTies(leq, k, hi);
      } else {
        NoTies(leq, k, [x]);
      }
    }
    assert (l + m) + h == (l + h) + m;
  }

  lemma InsertIsSorted<T(!new)>(leq: (T, T) -> bool, lo: seq<T>, x: T, hi: seq<T>)
    requires TotalPreorder(leq) && Sorted(leq, lo + hi)
    requires lo != [] ==> leq(lo[|lo| - 1], x)
    requires forall y :: y in hi ==> !leq(y, x)
    ensures Sorted(leq, lo + [x] + hi)
  {
    var s, t := lo + hi, lo + [x] + hi;
    forall i, j | 0 <= i < j < |t|
      ensures leq(t[i], t[j])
    {
      var n := |lo|;
      if i < n && j == n {
        assert t[i] == s[i] && s[n - 1] == lo[n - 1];
        assert i == n - 1 || leq(s[i], s[n - 1]);
      } else if i == n {
        assert t[j] in hi;
      } else {
        assert t[i] == s[if i < n then i else i - 1];
        assert t[j] == s[if j < n then j else j - 1];
      }
    }
  }

  method Insert<T(!new)>(s: seq<T>, x: T, leq: (T, T) -> bool) returns (r: seq<T>)
    requires TotalPreorder(leq) && Sorted(leq, s)
    ensures Sorted(leq, r)
    ensures multiset(r) == multiset(s) + multiset{x}
    ensures forall k :: Ties(leq, k, r) == Ties(leq, k, s) + Ties(leq, k, [x])
  {
    var p := |s|;
    while p > 0 && !leq(s[p - 1], x)
      invariant 0 <= p <= |s|
      invariant forall y :: y in s[p..] ==> !leq(y, x)
    {
      p := p - 1;
      assert s[p..] == [s[p]] + s[p + 1..];
    }
    assert s == s[..p] + s[p..];
    InsertIsSorted(leq, s[..p], x, s[p..]);
    forall k {
      InsertIsStable(leq, k, s[..p], x, s[p..]);
    }
    r := s[..p] + [x] + s[p..];
  }

  method StableSort<T(!new)>(xs: seq<T>, leq: (T, T) -> bool) returns (r: seq<T>)
    requires TotalPreorder(leq)
    ensures Sorted(leq, r)
    ensures multiset(r) == multiset(xs)
    ensures forall k :: Ties(leq, k, r) == Ties(leq, k, xs)
  {
    r := [];
    for n := 0 to |xs|
      invariant Sorted(leq, r)
      invariant multiset(r) == multiset(xs[..n])
      invariant forall k :: Ties(leq, k, r) == Ties(leq, k, xs[..n])
    {
      assert xs[..n + 1] == xs[..n] + [xs[n]];
      forall k {
        TiesConcat(leq, k, xs[..n], [xs[n]]);
      }
      r := Insert(r, xs[n], leq);
    }
    assert xs[..|xs|] == xs;
  }

  // A symmetric relation between the elements at any two positions survives reordering.
  lemma PairwisePermuted<T>(rel: (T, T) -> bool, s: seq<T>, t: seq<T>)
    requires multiset(s) == multiset(t)
    requires forall i, j :: 0 <= i < |s| && 0 <= j < |s| && i != j ==> rel(s[i], s[j])
    ensures forall i, j :: 0 <= i < |t| && 0 <= j < |t| && i != j ==> rel(t[i], t[j])
  {
    forall i, j | 0 <= i < |t| && 0 <= j < |t| && i != j
      ensures rel(t[i], t[j])
    {
      assert t[i] in multiset(s) && t[j] in multiset(s);
      if t[i] == t[j] {
        TwoPlacesCount(t, i, j);
        var k, l := TwoPlaces(s, t[i]);
      }
    }
  }

  lemma TwoPlacesCount<T>(s: seq<T>, i: nat, j: nat)
    requires i < |s| && j < |s| && i != j && s[i] == s[j]
    ensures multiset(s)[s[i]] >= 2
  {
    var lo, hi := if i < j then i else j, if i < j then j else i;
    assert s == s[..lo] + [s[lo]] + s[lo + 1..hi] + [s[hi]] + s[hi + 1..];
  }

  lemma TwoPlaces<T>(s: seq<T>, x: T) returns (i: nat, j: nat)
    requires multiset(s)[x] >= 2
    ensures i < |s| && j < |s| && i != j && s[i] == x && s[j] == x
  {
    assert x in multiset(s);
    i :| 0 <= i < |s| && s[i] == x;
    var rest := s[..i] + s[i + 1..];
    assert s == s[..i] + [x] + s[i + 1..];
    assert multiset(s) == multiset(rest) + multiset{x};
    assert x in multiset(rest);
    var k :| 0 <= k < |rest| && rest[k] == x;
    j := if k < i then k else k + 1;
  }
}
