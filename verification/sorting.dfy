/** Stable sorting by a comparator, as Python's `sorted(data, key=...)` does
    (equal keys keep their input order). The comparator `le` is a total
    preorder: "a sorts no later than b". */
module Sorting {

  ghost predicate TotalPreorder<T(!new)>(le: (T, T) -> bool) {
    && (forall a, b :: le(a, b) || le(b, a))
    && (forall a, b, c :: le(a, b) && le(b, c) ==> le(a, c))
  }

  /** Every earlier element sorts no later than every later one. */
  ghost predicate SortedBy<T>(s: seq<T>, le: (T, T) -> bool) {
    forall i, j :: 0 <= i < j < |s| ==> le(s[i], s[j])
  }

  /** `a` and `b` tie under `le`. */
  predicate Tied<T>(le: (T, T) -> bool, a: T, b: T) {
    le(a, b) && le(b, a)
  }

  /** The elements of `s` tied with `x`, in their order in `s`. */
  function TiedWith<T>(s: seq<T>, le: (T, T) -> bool, x: T): seq<T>
    decreases |s|
  {
    if |s| == 0 then []
    else (if Tied(le, x, s[0]) then [s[0]] else []) + TiedWith(s[1..], le, x)
  }

  /** Place `x` before the first element it sorts no later than. */
  function Insert<T>(x: T, s: seq<T>, le: (T, T) -> bool): (r: seq<T>)
    ensures |r| == |s| + 1
    decreases |s|
  {
    if |s| == 0 || le(x, s[0]) then [x] + s
    else [s[0]] + Insert(x, s[1..], le)
  }

  /** Insertion sort: each element is inserted ahead of everything after it
      that it ties with, which keeps ties in input order. */
  function SortBy<T>(s: seq<T>, le: (T, T) -> bool): (r: seq<T>)
    ensures |r| == |s|
    decreases |s|
  {
    if |s| == 0 then [] else Insert(s[0], SortBy(s[1..], le), le)
  }

  lemma {:induction false} InsertPermutation<T>(x: T, s: seq<T>, le: (T, T) -> bool)
    ensures multiset(Insert(x, s, le)) == multiset([x] + s)
    decreases |s|
  {
    if |s| > 0 && !le(x, s[0]) {
      InsertPermutation(x, s[1..], le);
      assert s == [s[0]] + s[1..];
    }
  }

  /** Sorting rearranges its input: same elements, same multiplicities. */
  lemma {:induction false} SortPermutation<T>(s: seq<T>, le: (T, T) -> bool)
    ensures multiset(SortBy(s, le)) == multiset(s)
    ensures |SortBy(s, le)| == |s|
    decreases |s|
  {
    if |s| > 0 {
      SortPermutation(s[1..], le);
      InsertPermutation(s[0], SortBy(s[1..], le), le);
      assert s == [s[0]] + s[1..];
      assert |multiset(SortBy(s, le))| == |multiset(s)|;
    }
  }

  lemma {:induction false} InsertSorted<T(!new)>(x: T, s: seq<T>, le: (T, T) -> bool)
    requires TotalPreorder(le) && SortedBy(s, le)
    ensures SortedBy(Insert(x, s, le), le)
    decreases |s|
  {
    if |s| > 0 && !le(x, s[0]) {
      InsertSorted(x, s[1..], le);
      InsertPermutation(x, s[1..], le);
      var t := Insert(x, s[1..], le);
      assert le(s[0], x);
      forall k | 0 <= k < |t|
        ensures le(s[0], t[k])
      {
        assert t[k] in multiset([x] + s[1..]);
        assert t[k] in [x] + s[1..];
      }
    }
  }

  /** The result is ordered by `le`. */
  lemma {:induction false} SortSorted<T(!new)>(s: seq<T>, le: (T, T) -> bool)
    requires TotalPreorder(le)
    ensures SortedBy(SortBy(s, le), le)
    decreases |s|
  {
    if |s| > 0 {
      SortSorted(s[1..], le);
      InsertSorted(s[0], SortBy(s[1..], le), le);
    }
  }

  lemma TiedWithAppend<T>(a: seq<T>, b: seq<T>, le: (T, T) -> bool, x: T)
    ensures TiedWith(a + b, le, x) == TiedWith(a, le, x) + TiedWith(b, le, x)
    decreases |a|
  {
    if |a| == 0 {
      assert a + b == b;
    } else {
      assert (a + b)[0] == a[0];
      assert (a + b)[1..] == a[1..] + b;
      TiedWithAppend(a[1..], b, le, x);
    }
  }

  lemma {:induction false} InsertStable<T(!new)>(y: T, s: seq<T>, le: (T, T) -> bool, x: T)
    requires TotalPreorder(le)
    ensures TiedWith(Insert(y, s, le), le, x) == TiedWith([y] + s, le, x)
    decreases |s|
  {
    if |s| > 0 && !le(y, s[0]) {
      var h, t := s[0], s[1..];
      assert s == [h] + t;
      InsertStable(y, t, le, x);
      assert Insert(y, s, le) == [h] + Insert(y, t, le);
      TiedWithAppend([h], Insert(y, t, le), le, x);
      TiedWithAppend([y], t, le, x);
      TiedWithAppend([h], t, le, x);
      assert [y] + s == [y] + ([h] + t);
      TiedWithAppend([y], [h] + t, le, x);
      assert !(Tied(le, x, y) && Tied(le, x, h));
      var ty, th := TiedWith([y], le, x), TiedWith([h], le, x);
      assert ty == [] || th == [];
      assert ty + th == th + ty;
    }
  }

  /** Stability: among elements that tie with any given `x`, sorting keeps
      the input order. */
  lemma {:induction false} SortStable<T(!new)>(s: seq<T>, le: (T, T) -> bool, x: T)
    requires TotalPreorder(le)
    ensures TiedWith(SortBy(s, le), le, x) == TiedWith(s, le, x)
    decreases |s|
  {
    if |s| > 0 {
      SortStable(s[1..], le, x);
      InsertStable(s[0], SortBy(s[1..], le), le, x);
      TiedWithAppend([s[0]], SortBy(s[1..], le), le, x);
      TiedWithAppend([s[0]], s[1..], le, x);
      assert s == [s[0]] + s[1..];
    }
  }
}
