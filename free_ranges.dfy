/** Choosing the free range whose length sizes the root partition request.

    Both planning branches sort the list of free ranges by length with the
    stable `sort_by` and take `last()`. The range chosen is therefore one of
    maximal length and, among several of that length, the one reported last;
    with no free range at all, `unwrap()` panics.
 */
module FreeRanges {
  import opened GptTable
  import opened Sorting

  /** The comparison of `sort_by(|(_, a), (_, b)| a.cmp(b))`: by length only.
      (The fresh-install branch writes `partial_cmp(..).unwrap()`, which on
      `u64` is the same order.) */
  predicate ByLength(a: Range, b: Range)
  {
    a.length <= b.length
  }

  lemma ByLengthTotal()
    ensures Total(ByLength)
  {
  }

  /** After `sort_by`, the free list holds the same ranges, each no longer
      than the next. */
  lemma SortedFreeList(free: seq<Range>)
    ensures var sorted := StableSort(free, ByLength);
      && multiset(sorted) == multiset(free)
      && forall i :: 0 <= i < |sorted| - 1 ==> sorted[i].length <= sorted[i + 1].length
  {
    ByLengthTotal();
    StableSortSorted(free, ByLength);
    StableSortPermutes(free, ByLength);
  }

  /** Ranges of the same length keep the order `find_free_sectors` reported
      them in. */
  lemma SortedFreeListKeepsTies(free: seq<Range>, n: u64)
    ensures Filter(StableSort(free, ByLength), (r: Range) => r.length == n) == Filter(free, (r: Range) => r.length == n)
  {
    StableSortKeepsTieOrder(free, ByLength, (r: Range) => r.length == n);
  }

  /** `free[k]` is as long as every range, and strictly longer than every
      range reported after it. */
  ghost predicate IsLastLongest(free: seq<Range>, k: int)
  {
    && 0 <= k < |free|
    && (forall j :: 0 <= j < |free| ==> free[j].length <= free[k].length)
    && (forall j :: k < j < |free| ==> free[j].length < free[k].length)
  }

  lemma {:induction false} LastMaximalByLength(s: seq<Range>) returns (k: nat)
    requires |s| > 0
    ensures IsLastLongest(s, k) && s[k] == LastMaximal(s, ByLength)
    decreases |s|
  {
    if |s| == 1 {
      k := 0;
    } else {
      var init := DropLast(s);
      var k0 := LastMaximalByLength(init);
      if ByLength(init[k0], Last(s)) {
        k := |s| - 1;
      } else {
        k := k0;
      }
    }
  }

  lemma LastMaximalIsLongest(s: seq<Range>)
    requires |s| > 0
    ensures forall x :: x in s ==> x.length <= LastMaximal(s, ByLength).length
  {
    var k := LastMaximalByLength(s);
  }

  /** The range `freespace_vec.last()` yields after the sort, or `None` when
      the list is empty (the panic of `unwrap()`). */
  function Largest(free: seq<Range>): (r: Option<Range>)
    ensures r.None? <==> |free| == 0
    ensures r.Some? ==> r.value in free
    ensures r.Some? ==> forall x :: x in free ==> x.length <= r.value.length
  {
    if |free| == 0 then None
    else
      LastOfStableSort(free, ByLength);
      LastMaximalIsLongest(free);
      Some(Last(StableSort(free, ByLength)))
  }

  /** The chosen range is the one at the unique position of `free` that is
      longest and beaten by nobody after it: on ties, the last one wins. */
  lemma LargestIsLastLongest(free: seq<Range>) returns (k: nat)
    requires |free| > 0
    ensures IsLastLongest(free, k) && Largest(free) == Some(free[k])
    ensures forall k' :: IsLastLongest(free, k') ==> k' == k
  {
    LastOfStableSort(free, ByLength);
    k := LastMaximalByLength(free);
    forall k' | IsLastLongest(free, k') ensures k' == k {
    }
  }
}
