/** Stable sorting with a caller-supplied "not greater than" comparison.

    `Vec::sort_by` in Rust is a stable sort: the installer sorts the free
    ranges by length and the partition device paths by string with it.
    Every stable sort produces the same sequence, so the model takes insertion
    sort: `StableSort` is the specification and `SortInPlace` the in-place
    algorithm proved to produce exactly it.
 */
module Sorting {

  function Last<T>(s: seq<T>): (x: T)
    requires |s| > 0
  {
    s[|s| - 1]
  }

  function DropLast<T>(s: seq<T>): (init: seq<T>)
    requires |s| > 0
  {
    s[..|s| - 1]
  }

  /** `le(a, b)` holds when `a` must not go after `b`: for `sort_by(cmp)`,
      `cmp(a, b) != Greater`. */
  ghost predicate Total<T(!new)>(le: (T, T) -> bool)
  {
    forall a, b :: le(a, b) || le(b, a)
  }

  ghost predicate Sorted<T>(s: seq<T>, le: (T, T) -> bool)
  {
    forall i :: 0 <= i < |s| - 1 ==> le(s[i], s[i + 1])
  }

  /** Inserts `x` into `s` after every trailing element that may go before it,
      so that `x` ends up behind all elements it ties with. */
  function Insert<T>(s: seq<T>, x: T, le: (T, T) -> bool): (r: seq<T>)
    ensures |r| == |s| + 1
    ensures Last(r) == if |s| > 0 && !le(Last(s), x) then Last(s) else x
    decreases |s|
  {
    if |s| == 0 || le(Last(s), x) then s + [x]
    else
      assert s == DropLast(s) + [Last(s)];
      Insert(DropLast(s), x, le) + [Last(s)]
  }

  /** The stable sort of `s`: each element is inserted, in order, behind the
      ones already placed that it ties with. */
  function StableSort<T>(s: seq<T>, le: (T, T) -> bool): (r: seq<T>)
    ensures |r| == |s|
    decreases |s|
  {
    if |s| == 0 then []
    else
      assert s == DropLast(s) + [Last(s)];
      Insert(StableSort(DropLast(s), le), Last(s), le)
  }

  lemma {:induction false} InsertPermutes<T>(s: seq<T>, x: T, le: (T, T) -> bool)
    ensures multiset(Insert(s, x, le)) == multiset(s) + multiset{x}
    decreases |s|
  {
    if |s| > 0 && !le(Last(s), x) {
      InsertPermutes(DropLast(s), x, le);
      assert s == DropLast(s) + [Last(s)];
    }
  }

  /** The stable sort of `s` is a permutation of `s`. */
  lemma {:induction false} StableSortPermutes<T>(s: seq<T>, le: (T, T) -> bool)
    ensures multiset(StableSort(s, le)) == multiset(s)
    decreases |s|
  {
    if |s| > 0 {
      StableSortPermutes(DropLast(s), le);
      InsertPermutes(StableSort(DropLast(s), le), Last(s), le);
      assert s == DropLast(s) + [Last(s)];
    }
  }

  lemma {:induction false} InsertSorted<T(!new)>(s: seq<T>, x: T, le: (T, T) -> bool)
    requires Total(le)
    requires Sorted(s, le)
    ensures Sorted(Insert(s, x, le), le)
    decreases |s|
  {
    if |s| == 0 || le(Last(s), x) {
    } else {
      var init := DropLast(s);
      assert Sorted(init, le);
      InsertSorted(init, x, le);
      var r := Insert(init, x, le);
      assert le(Last(r), Last(s)) by {
        if |init| > 0 && !le(Last(init), x) {
          assert Last(init) == s[|s| - 2];
        }
      }
      assert Insert(s, x, le) == r + [Last(s)];
    }
  }

  /** The result of the stable sort is ordered by `le`. */
  lemma {:induction false} StableSortSorted<T(!new)>(s: seq<T>, le: (T, T) -> bool)
    requires Total(le)
    ensures Sorted(StableSort(s, le), le)
    decreases |s|
  {
    if |s| > 0 {
      StableSortSorted(DropLast(s), le);
      InsertSorted(StableSort(DropLast(s), le), Last(s), le);
    }
  }

  /** A sequence already in order is its own stable sort. */
  lemma {:induction false} StableSortOfSorted<T>(s: seq<T>, le: (T, T) -> bool)
    requires Sorted(s, le)
    ensures StableSort(s, le) == s
    decreases |s|
  {
    if |s| > 0 {
      var init := DropLast(s);
      forall i | 0 <= i < |init| - 1 ensures le(init[i], init[i + 1]) {
        assert init[i] == s[i] && init[i + 1] == s[i + 1];
      }
      StableSortOfSorted(init, le);
      if |init| > 0 {
        assert Last(init) == s[|s| - 2];
        assert le(Last(init), Last(s));
      }
      assert Insert(init, Last(s), le) == init + [Last(s)];
      assert init + [Last(s)] == s;
    }
  }

  /** The elements of `s` that satisfy `p`, in their order in `s`. */
  function Filter<T>(s: seq<T>, p: T -> bool): (f: seq<T>)
    decreases |s|
  {
    if |s| == 0 then []
    else Filter(DropLast(s), p) + (if p(Last(s)) then [Last(s)] else [])
  }

  /** Among elements that all tie with one another, insertion puts `x`
      behind every one already present and moves none of them. */
  lemma {:induction false} InsertKeepsTieOrder<T>(s: seq<T>, x: T, le: (T, T) -> bool, p: T -> bool)
    requires forall a, b :: p(a) && p(b) ==> le(a, b)
    ensures Filter(Insert(s, x, le), p) == Filter(s, p) + (if p(x) then [x] else [])
    decreases |s|
  {
    var r := Insert(s, x, le);
    if |s| == 0 || le(Last(s), x) {
      assert r == s + [x];
      assert DropLast(r) == s && Last(r) == x;
    } else {
      var init := DropLast(s);
      var y := Last(s);
      var r0 := Insert(init, x, le);
      assert r == r0 + [y];
      assert DropLast(r) == r0 && Last(r) == y;
      InsertKeepsTieOrder(init, x, le, p);
      assert !(p(x) && p(y));
    }
  }

  /** Stability: elements that all tie with one another leave the sort in
      the order they came in. */
  lemma {:induction false} StableSortKeepsTieOrder<T>(s: seq<T>, le: (T, T) -> bool, p: T -> bool)
    requires forall a, b :: p(a) && p(b) ==> le(a, b)
    ensures Filter(StableSort(s, le), p) == Filter(s, p)
    decreases |s|
  {
    if |s| > 0 {
      StableSortKeepsTieOrder(DropLast(s), le, p);
      InsertKeepsTieOrder(StableSort(DropLast(s), le), Last(s), le, p);
    }
  }

  /** The element a stable sort puts last: starting from the first element,
      every later element that is not below the current one replaces it. */
  function LastMaximal<T>(s: seq<T>, le: (T, T) -> bool): (m: T)
    requires |s| > 0
    ensures m in s
    decreases |s|
  {
    if |s| == 1 then s[0]
    else
      var m := LastMaximal(DropLast(s), le);
      if le(m, Last(s)) then Last(s) else m
  }

  /** The last element of the stable sort is `LastMaximal`. */
  lemma {:induction false} LastOfStableSort<T>(s: seq<T>, le: (T, T) -> bool)
    requires |s| > 0
    ensures Last(StableSort(s, le)) == LastMaximal(s, le)
    decreases |s|
  {
    if |s| > 1 {
      LastOfStableSort(DropLast(s), le);
    }
  }

  lemma DropLastSlices<T>(s: seq<T>, j: nat)
    requires j < |s|
    ensures DropLast(s)[..j] == s[..j]
    ensures DropLast(s)[j..] + [Last(s)] == s[j..]
  {
  }

  /** `Insert` puts `x` at position `j` exactly when the element before `j`
      may go first and every element from `j` on must go after `x`. */
  lemma {:induction false} InsertAt<T>(s: seq<T>, j: nat, x: T, le: (T, T) -> bool)
    requires j <= |s|
    requires j == 0 || le(s[j - 1], x)
    requires forall k :: j <= k < |s| ==> !le(s[k], x)
    ensures Insert(s, x, le) == s[..j] + [x] + s[j..]
    decreases |s|
  {
    if |s| == j {
      assert s[..j] == s;
    } else {
      var init := DropLast(s);
      assert !le(Last(s), x);
      assert Insert(s, x, le) == Insert(init, x, le) + [Last(s)];
      InsertAt(init, j, x, le);
      DropLastSlices(s, j);
    }
  }

  /** A sequence that agrees with `s` before `j`, holds `x` at `j` and `s`
      shifted by one after it is `s` with `x` inserted at `j`. */
  lemma Reassemble<T>(b: seq<T>, s: seq<T>, j: nat, x: T)
    requires |b| == |s| + 1 && j <= |s|
    requires forall k :: 0 <= k < j ==> b[k] == s[k]
    requires b[j] == x
    requires forall k :: j <= k < |s| ==> b[k + 1] == s[k]
    ensures b == s[..j] + [x] + s[j..]
  {
    forall k | 0 <= k < |b|
      ensures b[k] == (s[..j] + [x] + s[j..])[k]
    {
      if k > j {
        assert b[(k - 1) + 1] == s[k - 1];
      }
    }
  }

  /** Shifts `a[..i]`, already sorted, to make room for `a[i]` and drops it
      behind the elements it ties with, as one step of insertion sort. */
  method InsertInPlace<T>(a: array<T>, i: nat, le: (T, T) -> bool)
    requires i < a.Length
    modifies a
    ensures a[..i + 1] == Insert(old(a[..i]), old(a[i]), le)
    ensures a[i + 1..] == old(a[i + 1..])
  {
    ghost var s := a[..i];
    var x := a[i];
    var j := i;
    while j > 0 && !le(a[j - 1], x)
      invariant 0 <= j <= i
      invariant forall k :: 0 <= k < j ==> a[k] == s[k]
      invariant forall k :: j <= k < i ==> a[k + 1] == s[k] && !le(s[k], x)
      invariant forall k :: i < k < a.Length ==> a[k] == old(a[k])
      decreases j
    {
      a[j] := a[j - 1];
      j := j - 1;
    }
    a[j] := x;
    InsertAt(s, j, x, le);
    Reassemble(a[..i + 1], s, j, x);
    assert a[i + 1..] == old(a[i + 1..]);
  }

  /** Sorts `a` in place into exactly `StableSort(old(a[..]), le)`. */
  method SortInPlace<T>(a: array<T>, le: (T, T) -> bool)
    modifies a
    ensures a[..] == StableSort(old(a[..]), le)
  {
    var i := 0;
    while i < a.Length
      invariant 0 <= i <= a.Length
      invariant a[..i] == StableSort(old(a[..i]), le)
      invariant a[i..] == old(a[i..])
    {
      ghost var prefix := old(a[..i + 1]);
      assert DropLast(prefix) == old(a[..i]);
      assert Last(prefix) == a[i];
      InsertInPlace(a, i, le);
      i := i + 1;
    }
    assert a[..] == a[..a.Length];
    assert old(a[..]) == old(a[..a.Length]);
  }
}
