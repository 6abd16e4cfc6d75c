/** A model of JavaScript's `Array.prototype.sort`, which is required to be stable: insertion
    sort by a comparator read as "may come first" (`compare(a, b) <= 0`). For a comparator that is
    a total preorder on the elements, a stable sort has exactly one possible result, so this
    definition stands for any stable sorting algorithm. */
module StableSort {
  import opened Seqs

  /** `le` is total and transitive on the elements of `dom`. */
  ghost predicate TotalPreorderOn<T>(le: (T, T) -> bool, dom: seq<T>)
  {
    && (forall a, b | a in dom && b in dom :: le(a, b) || le(b, a))
    && (forall a, b, c | a in dom && b in dom && c in dom && le(a, b) && le(b, c) :: le(a, c))
  }

  ghost predicate Sorted<T>(s: seq<T>, le: (T, T) -> bool)
  {
    forall i, j | 0 <= i < j < |s| :: le(s[i], s[j])
  }

  /** Puts `x` before the first element it may precede, so that it stays ahead of equal elements. */
  function Insert<T(==)>(x: T, t: seq<T>, le: (T, T) -> bool): (r: seq<T>)
    ensures |r| == |t| + 1
    ensures multiset(r) == multiset(t) + multiset{x}
  {
    if t == [] || le(x, t[0]) then [x] + t
    else
      assert t == [t[0]] + t[1..];
      [t[0]] + Insert(x, t[1..], le)
  }

  /** The stably sorted permutation of `s`. */
  function SortBy<T(==)>(s: seq<T>, le: (T, T) -> bool): (r: seq<T>)
    ensures |r| == |s|
    ensures multiset(r) == multiset(s)
  {
    if s == [] then []
    else
      assert s == [s[0]] + s[1..];
      Insert(s[0], SortBy(s[1..], le), le)
  }

  /** The elements `le`-equivalent to `e`, as a filter predicate. */
  function EquivalentTo<T>(e: T, le: (T, T) -> bool): T -> bool
  {
    x => le(x, e) && le(e, x)
  }

  /** The elements of `s` equivalent to `e`, in their order in `s`. */
  function Equivalents<T(==,!new)>(s: seq<T>, e: T, le: (T, T) -> bool): seq<T>
  {
    Filter(s, EquivalentTo(e, le))
  }

  lemma {:induction false} InsertSorted<T(!new)>(x: T, t: seq<T>, le: (T, T) -> bool, dom: seq<T>)
    requires TotalPreorderOn(le, dom)
    requires x in dom && forall y :: y in t ==> y in dom
    requires Sorted(t, le)
    ensures Sorted(Insert(x, t, le), le)
  {
    if t == [] {
    } else if le(x, t[0]) {
      var r := [x] + t;
      forall i, j | 0 <= i < j < |r| ensures le(r[i], r[j]) {
        if i == 0 {
          assert t[0] in dom && t[j - 1] in dom;
          if j > 1 {
            assert le(t[0], t[j - 1]);
          }
        }
      }
    } else {
      assert t[0] in dom;
      var rest := Insert(x, t[1..], le);
      InsertSorted(x, t[1..], le, dom);
      var r := [t[0]] + rest;
      forall k | 0 <= k < |rest| ensures le(t[0], rest[k]) {
        assert rest[k] in multiset(rest);
        if rest[k] != x {
          assert rest[k] in t[1..];
          var m :| 0 <= m < |t[1..]| && t[1..][m] == rest[k];
          assert le(t[0], t[m + 1]);
        }
      }
      forall i, j | 0 <= i < j < |r| ensures le(r[i], r[j]) {
        if i == 0 {
          assert r[j] == rest[j - 1];
        } else {
          assert r[i] == rest[i - 1] && r[j] == rest[j - 1];
        }
      }
    }
  }

  lemma {:induction false} SortBySorted'<T(!new)>(s: seq<T>, le: (T, T) -> bool, dom: seq<T>)
    requires TotalPreorderOn(le, dom)
    requires forall y :: y in s ==> y in dom
    ensures Sorted(SortBy(s, le), le)
  {
    if s != [] {
      SortBySorted'(s[1..], le, dom);
      var t := SortBy(s[1..], le);
      forall y | y in t ensures y in dom {
        assert y in multiset(t);
      }
      InsertSorted(s[0], t, le, dom);
    }
  }

  /** The result is ordered: each element may come before every later one. */
  lemma SortBySorted<T(!new)>(s: seq<T>, le: (T, T) -> bool)
    requires TotalPreorderOn(le, s)
    ensures Sorted(SortBy(s, le), le)
  {
    SortBySorted'(s, le, s);
  }

  lemma SortedTail<T>(t: seq<T>, le: (T, T) -> bool)
    requires t != [] && Sorted(t, le)
    ensures Sorted(t[1..], le)
  {
    forall i, j | 0 <= i < j < |t[1..]| ensures le(t[1..][i], t[1..][j]) {
      assert t[1..][i] == t[i + 1] && t[1..][j] == t[j + 1];
    }
  }

  lemma {:induction false} InsertStable<T(!new)>(x: T, t: seq<T>, e: T, le: (T, T) -> bool, dom: seq<T>)
    requires TotalPreorderOn(le, dom)
    requires x in dom && e in dom && forall y :: y in t ==> y in dom
    requires Sorted(t, le)
    ensures Equivalents(Insert(x, t, le), e, le)
         == (if EquivalentTo(e, le)(x) then [x] else []) + Equivalents(t, e, le)
  {
    var p := EquivalentTo(e, le);
    var px: seq<T> := if p(x) then [x] else [];
    if t == [] {
      assert Filter([x], p) == px + Filter([], p);
    } else if le(x, t[0]) {
      assert Insert(x, t, le) == [x] + t;
      assert ([x] + t)[1..] == t;
    } else {
      var rest := Insert(x, t[1..], le);
      assert Insert(x, t, le) == [t[0]] + rest;
      assert t == [t[0]] + t[1..];
      SortedTail(t, le);
      InsertStable(x, t[1..], e, le, dom);
      assert t[0] in dom;
      assert !(p(x) && p(t[0]));
      FilterConsSwap(t[0], rest, t[1..], px, p);
    }
  }

  /** The filter step of `InsertStable` past a head `h` that `x` may not precede: at most one of
      `h` and `x` passes `p`, so their order among the survivors does not matter. */
  lemma FilterConsSwap<T(!new)>(h: T, rest: seq<T>, tail: seq<T>, px: seq<T>, p: T -> bool)
    requires p(h) ==> px == []
    requires Filter(rest, p) == px + Filter(tail, p)
    ensures Filter([h] + rest, p) == px + Filter([h] + tail, p)
  {
    var hr, ht := [h] + rest, [h] + tail;
    assert hr[0] == h && hr[1..] == rest;
    assert ht[0] == h && ht[1..] == tail;
    var fr, ft := Filter(rest, p), Filter(tail, p);
    if p(h) {
      assert Filter(hr, p) == [h] + fr;
      assert Filter(ht, p) == [h] + ft;
      assert px + ft == ft;
    } else {
      assert Filter(hr, p) == fr;
      assert Filter(ht, p) == ft;
    }
  }

  lemma {:induction false} SortByStable'<T(!new)>(s: seq<T>, e: T, le: (T, T) -> bool, dom: seq<T>)
    requires TotalPreorderOn(le, dom)
    requires e in dom && forall y :: y in s ==> y in dom
    ensures Equivalents(SortBy(s, le), e, le) == Equivalents(s, e, le)
  {
    if s != [] {
      var t := SortBy(s[1..], le);
      SortByStable'(s[1..], e, le, dom);
      SortBySorted'(s[1..], le, dom);
      forall y | y in t ensures y in dom {
        assert y in multiset(t);
      }
      InsertStable(s[0], t, e, le, dom);
    }
  }

  /** Stability: for every element `e`, the elements equivalent to `e` keep their input order. */
  lemma SortByStable<T(!new)>(s: seq<T>, e: T, le: (T, T) -> bool)
    requires TotalPreorderOn(le, s) && e in s
    ensures Equivalents(SortBy(s, le), e, le) == Equivalents(s, e, le)
  {
    SortByStable'(s, e, le, s);
  }

  /** Sorting an ordered sequence changes nothing. */
  lemma {:induction false} SortBySortedFixpoint<T(!new)>(s: seq<T>, le: (T, T) -> bool)
    requires Sorted(s, le)
    ensures SortBy(s, le) == s
  {
    if s != [] {
      assert Sorted(s[1..], le) by {
        forall i, j | 0 <= i < j < |s[1..]| ensures le(s[1..][i], s[1..][j]) {
          assert s[1..][i] == s[i + 1] && s[1..][j] == s[j + 1];
        }
      }
      SortBySortedFixpoint(s[1..], le);
      if |s| > 1 {
        assert le(s[0], s[1]);
      }
      assert [s[0]] + s[1..] == s;
    }
  }

  /** Sorting twice is sorting once. */
  lemma SortByIdempotent<T(!new)>(s: seq<T>, le: (T, T) -> bool)
    requires TotalPreorderOn(le, s)
    ensures SortBy(SortBy(s, le), le) == SortBy(s, le)
  {
    SortBySorted(s, le);
    SortBySortedFixpoint(SortBy(s, le), le);
  }
}
