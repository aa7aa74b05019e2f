/**
 Sorting a list in place by exchanging the data of its nodes: quicksort with a pivot chosen at random,
 selection sort for short stretches.
 */
module SimcSort {
  import opened Order
  import opened SimcList

  const MIN_QUICKSORT_ELS: nat := 24

  /** Exchange the data of two nodes, elements i and j. */
  method SwapData(l: List, a: Node, b: Node, ghost i: nat, ghost j: nat)
    requires l.Valid() && i < |l.vals| && j < |l.vals| && a == l.nodes[i + 1] && b == l.nodes[j + 1]
    modifies l`vals, l.nodes`data
    ensures l.Valid() && l.vals == Swap(old(l.vals), i, j)
  {
    var tmpdata := a.data;
    a.data := b.data;
    b.data := tmpdata;
    l.vals := Swap(l.vals, i, j);
  }

  /** Whether the list can be reached from the node of element i by one step. */
  lemma {:induction false} Steps(l: List, i: nat)
    requires l.Valid() && i < |l.vals|
    ensures l.nodes[i + 1].next == l.nodes[i + 2] && l.nodes[i + 1].prev == l.nodes[i]
  {
    assert After(l.nodes, i + 1) == l.nodes[i + 2] && Prior(l.nodes, i + 1) == l.nodes[i];
  }

  // ------------------------------------------------------------ selection sort

  /** The node with the element that comes first among those from i to the last one. */
  method FindFirst(l: List, cmp: Comparator, versus: int, firstunsorted: Node, lel: Node, ghost i: nat, ghost last: nat)
    returns (toswap: Node, ghost m: nat)
    requires l.Valid() && TotalPreorder(cmp) && i <= last < |l.vals| && firstunsorted == l.nodes[i + 1]
             && lel == l.nodes[last + 1]
    ensures i <= m <= last && toswap == l.nodes[m + 1] && AllAfter(cmp, versus, l.vals, i, last + 1, l.vals[m])
  {
    toswap, m := firstunsorted, i;
    Steps(l, i);
    Steps(l, last);
    var cursor := firstunsorted.next;
    ghost var k := i + 1;
    TestMeans(cmp, versus, l.vals[i], l.vals[i]);
    BeforeTotal(cmp, versus, l.vals[i], l.vals[i]);
    while cursor != lel.next
      invariant i < k <= last + 1 && i <= m < k && cursor == l.nodes[k + 1] && toswap == l.nodes[m + 1]
      invariant AllAfter(cmp, versus, l.vals, i, k, l.vals[m])
      decreases last + 1 - k
    {
      Steps(l, k);
      Choose(cmp, versus, l.vals, i, k, m);
      if cmp(toswap.data, cursor.data) * -versus > 0 {
        toswap, m := cursor, k;
      }
      cursor := cursor.next;
      k := k + 1;
    }
  }

  /** Looking at one more element. */
  lemma {:induction false} Choose(cmp: Comparator, versus: int, s: seq<int>, i: nat, k: nat, m: nat)
    requires TotalPreorder(cmp) && i <= m < k < |s| && AllAfter(cmp, versus, s, i, k, s[m])
    ensures cmp(s[m], s[k]) * -versus > 0 ==> AllAfter(cmp, versus, s, i, k + 1, s[k])
    ensures !(cmp(s[m], s[k]) * -versus > 0) ==> AllAfter(cmp, versus, s, i, k + 1, s[m])
  {
    TestMeans(cmp, versus, s[m], s[k]);
    BeforeTotal(cmp, versus, s[m], s[k]);
    BeforeTotal(cmp, versus, s[k], s[k]);
    if cmp(s[m], s[k]) * -versus > 0 {
      forall j | i <= j < k
        ensures Before(cmp, versus, s[k], s[j])
      {
        BeforeTransitive(cmp, versus, s[k], s[m], s[j]);
      }
    }
  }

  /** The elements up to i are sorted and come before the others. */
  ghost predicate SelectedTo(cmp: Comparator, versus: int, s: seq<int>, lo: nat, i: nat, hi: nat)
    requires lo <= i <= hi <= |s|
  {
    forall a, b :: lo <= a < i && a < b < hi ==> Before(cmp, versus, s[a], s[b])
  }

  lemma {:induction false} SelectNext(cmp: Comparator, versus: int, s: seq<int>, lo: nat, i: nat, hi: nat, m: nat,
                                      t: seq<int>)
    requires lo <= i <= m < hi <= |s| && SelectedTo(cmp, versus, s, lo, i, hi)
    requires AllAfter(cmp, versus, s, i, hi, s[m]) && t == Swap(s, i, m)
    ensures SelectedTo(cmp, versus, t, lo, i + 1, hi)
  {
    forall a, b | lo <= a < i + 1 && a < b < hi
      ensures Before(cmp, versus, t[a], t[b])
    {
      if a < i {
        assert Before(cmp, versus, s[a], s[b]) && Before(cmp, versus, s[a], s[i]) && Before(cmp, versus, s[a], s[m]);
      } else {
        assert Before(cmp, versus, s[m], s[b]) && Before(cmp, versus, s[m], s[i]);
      }
    }
  }

  /** From `base`, the elements up to i have been selected. */
  ghost predicate Selecting(cmp: Comparator, versus: int, base: seq<int>, s: seq<int>, first: nat, i: nat, last: nat)
  {
    first <= i <= last < |s| && Permutes(base, s, first, last + 1) && SelectedTo(cmp, versus, s, first, i, last + 1)
  }

  lemma {:induction false} SelectedAll(cmp: Comparator, versus: int, base: seq<int>, s: seq<int>, first: nat, last: nat)
    requires Selecting(cmp, versus, base, s, first, last, last)
    ensures SortedRange(cmp, versus, s, first, last + 1)
  {
  }

  lemma {:induction false} SelectStep(cmp: Comparator, versus: int, base: seq<int>, s: seq<int>, first: nat, i: nat,
                                      last: nat,
                                      m: nat, t: seq<int>)
    requires Selecting(cmp, versus, base, s, first, i, last) && i <= m <= last && t == Swap(s, i, m)
    requires AllAfter(cmp, versus, s, i, last + 1, s[m])
    ensures i < last ==> Selecting(cmp, versus, base, t, first, i + 1, last)
  {
    SelectNext(cmp, versus, s, first, i, last + 1, m, t);
    SwapPermutes(s, i, m, first, last + 1);
    PermutesTrans(base, s, t, first, last + 1);
  }

  /** Bring the element that comes first among those not sorted yet to the front of them. */
  method SelectOne(l: List, cmp: Comparator, versus: int, firstunsorted: Node, lel: Node,
                   ghost base: seq<int>, ghost first: nat, ghost i: nat, ghost last: nat)
    requires l.Valid() && TotalPreorder(cmp) && i < last && Selecting(cmp, versus, base, l.vals, first, i, last)
    requires firstunsorted == l.nodes[i + 1] && lel == l.nodes[last + 1]
    modifies l`vals, l.nodes`data
    ensures l.Valid() && Selecting(cmp, versus, base, l.vals, first, i + 1, last)
  {
    ghost var was := l.vals;
    var toswap;
    ghost var m;
    toswap, m := FindFirst(l, cmp, versus, firstunsorted, lel, i, last);
    SelectStep(cmp, versus, base, was, first, i, last, m, Swap(was, i, m));
    if toswap != firstunsorted {
      SwapData(l, firstunsorted, toswap, i, m);
    } else {
      assert Swap(was, i, m) == was;
    }
  }

  /** Put the next element in its place and step on. */
  method SelectAndStep(l: List, cmp: Comparator, versus: int, firstunsorted: Node, lel: Node, ghost base: seq<int>,
                    ghost first: nat, ghost i: nat, ghost last: nat)
    returns (next: Node)
    requires l.Valid() && TotalPreorder(cmp) && first <= i < last < |l.vals| && firstunsorted == l.nodes[i + 1]
    requires lel == l.nodes[last + 1] && Selecting(cmp, versus, base, l.vals, first, i, last)
    modifies l`vals, l.nodes`data
    ensures l.Valid() && Selecting(cmp, versus, base, l.vals, first, i + 1, last) && next == l.nodes[i + 2]
  {
    SelectOne(l, cmp, versus, firstunsorted, lel, base, first, i, last);
    Steps(l, i);
    next := firstunsorted.next;
  }

  method SelectionSort(l: List, cmp: Comparator, versus: int, first: nat, fel: Node, last: nat, lel: Node)
    requires l.Valid() && TotalPreorder(cmp) && first <= last < |l.vals| && fel == l.nodes[first + 1]
             && lel == l.nodes[last + 1]
    modifies l`vals, l.nodes`data
    ensures l.Valid() && Permutes(old(l.vals), l.vals, first, last + 1)
    ensures SortedRange(cmp, versus, l.vals, first, last + 1)
  {
    if last <= first {
      return;
    }
    var firstunsorted := fel;
    ghost var i, base := first, l.vals;
    while firstunsorted != lel
      invariant l.Valid() && Selecting(cmp, versus, base, l.vals, first, i, last) && firstunsorted == l.nodes[i + 1]
      decreases last - i
    {
      firstunsorted := SelectAndStep(l, cmp, versus, firstunsorted, lel, base, first, i, last);
      i := i + 1;
    }
    SelectedAll(cmp, versus, base, l.vals, first, last);
  }

  // ------------------------------------------------------------------ quicksort

  /**
   Partitioning: elements up to li come before the pivot, those after ri come after it; the pivot value pv
   stands at p, and all is still a permutation of the stretch as it was.
   */
  ghost predicate Split(cmp: Comparator, versus: int, base: seq<int>, s: seq<int>, first: nat, last: nat,
                        li: nat, p: nat, ri: nat, pv: int)
  {
    && first <= li <= p <= ri <= last < |s| && Permutes(base, s, first, last + 1) && s[p] == pv
    && AllBefore(cmp, versus, s, first, li, pv) && AllAfter(cmp, versus, s, ri + 1, last + 1, pv)
  }

  lemma {:induction false} SplitSwap(cmp: Comparator, versus: int, base: seq<int>, s: seq<int>, first: nat, last: nat,
                                     li: nat, p: nat, ri: nat, pv: int, t: seq<int>)
    requires TotalPreorder(cmp) && Split(cmp, versus, base, s, first, last, li, p, ri, pv) && li < p < ri
             && t == Swap(s, li, ri)
    requires !Before(cmp, versus, s[li], pv) && !Before(cmp, versus, pv, s[ri])
    ensures Split(cmp, versus, base, t, first, last, li + 1, p, ri - 1, pv)
  {
    BeforeTotal(cmp, versus, s[li], pv);
    BeforeTotal(cmp, versus, s[ri], pv);
    SwapPermutes(s, li, ri, first, last + 1);
    PermutesTrans(base, s, t, first, last + 1);
  }

  /** Element a moves behind the pivot at p, the element between them and the pivot each move towards a. */
  function RotatedLeft(s: seq<int>, a: nat, p: nat): (t: seq<int>)
    requires a < p < |s|
    ensures |t| == |s|
  {
    s[a := s[p - 1]][p - 1 := s[p]][p := s[a]]
  }

  function RotatedRight(s: seq<int>, p: nat, a: nat): (t: seq<int>)
    requires p < a < |s|
    ensures |t| == |s|
  {
    s[a := s[p + 1]][p + 1 := s[p]][p := s[a]]
  }

  lemma {:induction false} RotatePermutes(s: seq<int>, a: nat, q: nat, p: nat, lo: nat, hi: nat, t: seq<int>)
    requires lo <= a < hi <= |s| && lo <= p < hi && lo <= q < hi && a != p && q != p
    requires t == s[a := s[q]][q := s[p]][p := s[a]]
    ensures Permutes(s, t, lo, hi)
  {
    if q == a {
      assert t == Swap(s, a, p);
      SwapPermutes(s, a, p, lo, hi);
    } else {
      var u := Swap(s, q, p);
      assert t == Swap(u, a, p);
      SwapPermutes(s, q, p, lo, hi);
      SwapPermutes(u, a, p, lo, hi);
      PermutesTrans(s, u, t, lo, hi);
    }
  }

  lemma {:induction false} LeftBounds(cmp: Comparator, versus: int, s: seq<int>, first: nat, last: nat, li: nat,
                                      p: nat, pv: int, t: seq<int>)
    requires first <= li < p <= last < |s| && s[p] == pv && t == RotatedLeft(s, li, p) && Before(cmp, versus, pv, s[li])
    requires AllBefore(cmp, versus, s, first, li, pv) && AllAfter(cmp, versus, s, p + 1, last + 1, pv)
    ensures t[p - 1] == pv && AllBefore(cmp, versus, t, first, li, pv) && AllAfter(cmp, versus, t, p, last + 1, pv)
  {
  }

  lemma {:induction false} RightBounds(cmp: Comparator, versus: int, s: seq<int>, first: nat, last: nat, p: nat,
                                       ri: nat, pv: int, t: seq<int>)
    requires first <= p < ri <= last < |s| && s[p] == pv && t == RotatedRight(s, p, ri)
             && Before(cmp, versus, s[ri], pv)
    requires AllBefore(cmp, versus, s, first, p, pv) && AllAfter(cmp, versus, s, ri + 1, last + 1, pv)
    ensures t[p + 1] == pv && AllBefore(cmp, versus, t, first, p + 1, pv)
            && AllAfter(cmp, versus, t, ri + 1, last + 1, pv)
  {
  }

  lemma {:induction false} SplitRotateLeft(cmp: Comparator, versus: int, base: seq<int>, s: seq<int>, first: nat,
                                           last: nat,
                                           li: nat, p: nat, pv: int, t: seq<int>)
    requires TotalPreorder(cmp) && Split(cmp, versus, base, s, first, last, li, p, p, pv) && li < p
    requires !Before(cmp, versus, s[li], pv) && t == RotatedLeft(s, li, p)
    ensures Split(cmp, versus, base, t, first, last, li, p - 1, p - 1, pv)
  {
    BeforeTotal(cmp, versus, s[li], pv);
    LeftBounds(cmp, versus, s, first, last, li, p, pv, t);
    RotatePermutes(s, li, p - 1, p, first, last + 1, t);
    PermutesTrans(base, s, t, first, last + 1);
  }

  lemma {:induction false} SplitRotateRight(cmp: Comparator, versus: int, base: seq<int>, s: seq<int>, first: nat,
                                            last: nat,
                                            p: nat, ri: nat, pv: int, t: seq<int>)
    requires TotalPreorder(cmp) && Split(cmp, versus, base, s, first, last, p, p, ri, pv) && p < ri
    requires !Before(cmp, versus, pv, s[ri]) && t == RotatedRight(s, p, ri)
    ensures Split(cmp, versus, base, t, first, last, p + 1, p + 1, ri, pv)
  {
    BeforeTotal(cmp, versus, s[ri], pv);
    RightBounds(cmp, versus, s, first, last, p, ri, pv, t);
    RotatePermutes(s, ri, p + 1, p, first, last + 1, t);
    PermutesTrans(base, s, t, first, last + 1);
  }

  /** Walk from the left to the first element that may not stand before the pivot. */
  method ScanLeft(l: List, cmp: Comparator, versus: int, left: Node, pivot: Node, ghost li: nat, ghost p: nat)
    returns (left': Node, ghost li': nat)
    requires l.Valid() && TotalPreorder(cmp) && li <= p < |l.vals| && left == l.nodes[li + 1] && pivot == l.nodes[p + 1]
    ensures li <= li' <= p && left' == l.nodes[li' + 1] && AllBefore(cmp, versus, l.vals, li, li', l.vals[p])
    ensures li' == p || !Before(cmp, versus, l.vals[li'], l.vals[p])
  {
    left', li' := left, li;
    while left' != pivot && cmp(left'.data, pivot.data) * -versus <= 0
      invariant li <= li' <= p && left' == l.nodes[li' + 1] && AllBefore(cmp, versus, l.vals, li, li', l.vals[p])
      decreases p - li'
    {
      TestMeans(cmp, versus, l.vals[li'], l.vals[p]);
      Steps(l, li');
      left' := left'.next;
      li' := li' + 1;
    }
    TestMeans(cmp, versus, l.vals[li'], l.vals[p]);
  }

  /** Walk from the right to the first element that may not stand after the pivot. */
  method ScanRight(l: List, cmp: Comparator, versus: int, right: Node, pivot: Node, ghost ri: nat, ghost p: nat)
    returns (right': Node, ghost ri': nat)
    requires l.Valid() && TotalPreorder(cmp) && p <= ri < |l.vals| && right == l.nodes[ri + 1]
             && pivot == l.nodes[p + 1]
    ensures p <= ri' <= ri && right' == l.nodes[ri' + 1] && AllAfter(cmp, versus, l.vals, ri' + 1, ri + 1, l.vals[p])
    ensures ri' == p || !Before(cmp, versus, l.vals[p], l.vals[ri'])
  {
    right', ri' := right, ri;
    while right' != pivot && cmp(right'.data, pivot.data) * -versus >= 0
      invariant p <= ri' <= ri && right' == l.nodes[ri' + 1]
                && AllAfter(cmp, versus, l.vals, ri' + 1, ri + 1, l.vals[p])
      decreases ri' - p
    {
      TestMeans(cmp, versus, l.vals[ri'], l.vals[p]);
      Steps(l, ri');
      right' := right'.prev;
      ri' := ri' - 1;
    }
    TestMeans(cmp, versus, l.vals[ri'], l.vals[p]);
  }

  /** Exchange elements from both sides until one side has reached the pivot. */
  method Meet(l: List, cmp: Comparator, versus: int, fel: Node, lel: Node, pivot: Node,
              ghost first: nat, ghost last: nat, ghost p: nat)
    returns (left: Node, right: Node, ghost li: nat, ghost ri: nat)
    requires l.Valid() && TotalPreorder(cmp) && first <= p <= last < |l.vals|
    requires fel == l.nodes[first + 1] && lel == l.nodes[last + 1] && pivot == l.nodes[p + 1]
    modifies l`vals, l.nodes`data
    ensures l.Valid() && Split(cmp, versus, old(l.vals), l.vals, first, last, li, p, ri, old(l.vals)[p])
    ensures left == l.nodes[li + 1] && right == l.nodes[ri + 1] && (li == p || ri == p)
  {
    ghost var base, pv := l.vals, l.vals[p];
    left, right, li, ri := fel, lel, first, last;
    while left != pivot && right != pivot
      invariant Closing(l, cmp, versus, base, first, last, left, li, pivot, p, right, ri, pv)
      decreases ri - li
    {
      left, right, li, ri := MeetOnce(l, cmp, versus, left, right, pivot, base, first, last, li, p, ri, pv);
    }
  }

  /** What a scan has passed belongs to its side. */
  lemma {:induction false} Scanned(cmp: Comparator, versus: int, base: seq<int>, s: seq<int>, first: nat, last: nat,
                                   li: nat, p: nat, ri: nat, pv: int, li': nat, ri': nat)
    requires Split(cmp, versus, base, s, first, last, li, p, ri, pv) && li <= li' <= p <= ri' <= ri
    requires AllBefore(cmp, versus, s, li, li', pv) && AllAfter(cmp, versus, s, ri' + 1, ri + 1, pv)
    ensures Split(cmp, versus, base, s, first, last, li', p, ri', pv)
  {
  }

  /** Exchange two elements and step over them, one from either side. */
  method SwapInward(l: List, left: Node, right: Node, ghost li: nat, ghost ri: nat)
    returns (left': Node, right': Node)
    requires l.Valid() && li < |l.vals| && 0 < ri < |l.vals| && left == l.nodes[li + 1] && right == l.nodes[ri + 1]
    modifies l`vals, l.nodes`data
    ensures l.Valid() && l.vals == Swap(old(l.vals), li, ri)
    ensures left' == l.nodes[li + 2] && right' == l.nodes[ri]
  {
    SwapData(l, left, right, li, ri);
    Steps(l, li);
    Steps(l, ri);
    left', right' := left.next, right.prev;
  }

  /** Neither of two elements may stay on its side of the pivot. */
  ghost predicate WrongSides(cmp: Comparator, versus: int, s: seq<int>, li: nat, p: nat, ri: nat, pv: int) {
    li < p < ri < |s| && !Before(cmp, versus, s[li], pv) && !Before(cmp, versus, pv, s[ri])
  }

  /** Exchange two elements that stand on the wrong sides and step over them. */
  method SwapAndStep(l: List, cmp: Comparator, versus: int, left: Node, right: Node, ghost pivot: Node,
                     ghost base: seq<int>, ghost first: nat, ghost last: nat, ghost li: nat, ghost p: nat,
                     ghost ri: nat, ghost pv: int)
    returns (left': Node, right': Node)
    requires TotalPreorder(cmp) && Closing(l, cmp, versus, base, first, last, left, li, pivot, p, right, ri, pv)
             && WrongSides(cmp, versus, l.vals, li, p, ri, pv)
    modifies l`vals, l.nodes`data
    ensures Closing(l, cmp, versus, base, first, last, left', li + 1, pivot, p, right', ri - 1, pv)
  {
    SplitSwap(cmp, versus, base, l.vals, first, last, li, p, ri, pv, Swap(l.vals, li, ri));
    left', right' := SwapInward(l, left, right, li, ri);
  }

  method MeetOnce(l: List, cmp: Comparator, versus: int, left: Node, right: Node, pivot: Node,
                  ghost base: seq<int>, ghost first: nat, ghost last: nat, ghost li: nat, ghost p: nat, ghost ri: nat,
                  ghost pv: int)
    returns (left': Node, right': Node, ghost li': nat, ghost ri': nat)
    requires TotalPreorder(cmp) && li < p < ri
    requires Closing(l, cmp, versus, base, first, last, left, li, pivot, p, right, ri, pv)
    modifies l`vals, l.nodes`data
    ensures Closing(l, cmp, versus, base, first, last, left', li', pivot, p, right', ri', pv)
    ensures ri' - li' < ri - li
  {
    left', right', li', ri' := ScanBoth(l, cmp, versus, left, right, pivot, base, first, last, li, p, ri, pv);
    if left' != pivot && right' != pivot {
      left', right' := SwapAndStep(l, cmp, versus, left', right', pivot, base, first, last, li', p, ri', pv);
      li', ri' := li' + 1, ri' - 1;
    }
  }

  /**
   Walk from both sides to elements that stand on the wrong side, or to the pivot; from at least one side, some way.
   */
  method ScanBoth(l: List, cmp: Comparator, versus: int, left: Node, right: Node, pivot: Node,
                  ghost base: seq<int>, ghost first: nat, ghost last: nat, ghost li: nat, ghost p: nat, ghost ri: nat,
                  ghost pv: int)
    returns (left': Node, right': Node, ghost li': nat, ghost ri': nat)
    requires TotalPreorder(cmp) && li < p < ri
    requires Closing(l, cmp, versus, base, first, last, left, li, pivot, p, right, ri, pv)
    ensures li <= li' <= p <= ri' <= ri
    ensures Closing(l, cmp, versus, base, first, last, left', li', pivot, p, right', ri', pv)
    ensures left' == pivot || right' == pivot ==> li' == p || ri' == p
    ensures left' != pivot && right' != pivot ==> WrongSides(cmp, versus, l.vals, li', p, ri', pv)
  {
    left', li' := ScanLeft(l, cmp, versus, left, pivot, li, p);
    right', ri' := ScanRight(l, cmp, versus, right, pivot, ri, p);
    Scanned(cmp, versus, base, l.vals, first, last, li, p, ri, pv, li', ri');
  }

  /** Move one element from the left of the pivot behind it; the pivot moves one node to the left. */
  method RotateLeft(l: List, left: Node, pivot: Node, ghost li: nat, ghost p: nat) returns (pivot': Node)
    requires l.Valid() && li < p < |l.vals| && left == l.nodes[li + 1] && pivot == l.nodes[p + 1]
    modifies l`vals, l.nodes`data
    ensures l.Valid() && l.vals == RotatedLeft(old(l.vals), li, p) && pivot' == l.nodes[p]
  {
    Steps(l, p);
    var tmpdata := left.data;
    left.data := pivot.prev.data;
    pivot.prev.data := pivot.data;
    pivot.data := tmpdata;
    l.vals := RotatedLeft(l.vals, li, p);
    pivot' := pivot.prev;
  }

  method RotateRight(l: List, right: Node, pivot: Node, ghost p: nat, ghost ri: nat) returns (pivot': Node)
    requires l.Valid() && p < ri < |l.vals| && right == l.nodes[ri + 1] && pivot == l.nodes[p + 1]
    modifies l`vals, l.nodes`data
    ensures l.Valid() && l.vals == RotatedRight(old(l.vals), p, ri) && pivot' == l.nodes[p + 2]
  {
    Steps(l, p);
    var tmpdata := right.data;
    right.data := pivot.next.data;
    pivot.next.data := pivot.data;
    pivot.data := tmpdata;
    l.vals := RotatedRight(l.vals, p, ri);
    pivot' := pivot.next;
  }

  /** One side is cleared up to the pivot; the other is still to be looked at. */
  ghost predicate Closing(l: List, cmp: Comparator, versus: int, base: seq<int>, first: nat, last: nat,
                          left: Node, li: nat, pivot: Node, p: nat, right: Node, ri: nat, pv: int)
    reads l, l.nodes
  {
    && l.Valid() && Split(cmp, versus, base, l.vals, first, last, li, p, ri, pv)
    && left == l.nodes[li + 1] && pivot == l.nodes[p + 1] && right == l.nodes[ri + 1]
  }

  /** Look at one element on the left side: it stays or is rotated behind the pivot. */
  method CloseLeftOnce(l: List, cmp: Comparator, versus: int, left: Node, pivot: Node, pivotid: int,
                       ghost base: seq<int>, ghost first: nat, ghost last: nat, ghost i: nat, ghost q: nat,
                       ghost pv: int)
    returns (left': Node, pivot': Node, pivotid': int, ghost i': nat, ghost q': nat)
    requires TotalPreorder(cmp) && Closing(l, cmp, versus, base, first, last, left, i, pivot, q, pivot, q, pv) && i < q
    modifies l`vals, l.nodes`data
    ensures Closing(l, cmp, versus, base, first, last, left', i', pivot', q', pivot', q', pv)
    ensures pivotid' - pivotid == q' - q && q' - i' < q - i
  {
    left', pivot', pivotid', i', q' := left, pivot, pivotid, i, q;
    TestMeans(cmp, versus, l.vals[i], pv);
    if cmp(left.data, pivot.data) * -versus > 0 {
      pivot' := ThrowRight(l, cmp, versus, left, pivot, base, first, last, i, q, pv);
      pivotid', q' := pivotid - 1, q - 1;
    } else {
      left' := StepRight(l, cmp, versus, left, pivot, base, first, last, i, q, pv);
      i' := i + 1;
    }
  }

  /** The element at the left may not stand before the pivot: rotate it behind. */
  method ThrowRight(l: List, cmp: Comparator, versus: int, left: Node, pivot: Node,
                    ghost base: seq<int>, ghost first: nat, ghost last: nat, ghost i: nat, ghost q: nat, ghost pv: int)
    returns (pivot': Node)
    requires TotalPreorder(cmp) && Closing(l, cmp, versus, base, first, last, left, i, pivot, q, pivot, q, pv) && i < q
    requires !Before(cmp, versus, l.vals[i], pv)
    modifies l`vals, l.nodes`data
    ensures Closing(l, cmp, versus, base, first, last, left, i, pivot', q - 1, pivot', q - 1, pv)
  {
    SplitRotateLeft(cmp, versus, base, l.vals, first, last, i, q, pv, RotatedLeft(l.vals, i, q));
    pivot' := RotateLeft(l, left, pivot, i, q);
  }

  /** The element at the left may stand before the pivot: go on to the next one. */
  method StepRight(l: List, cmp: Comparator, versus: int, left: Node, ghost pivot: Node,
                   ghost base: seq<int>, ghost first: nat, ghost last: nat, ghost i: nat, ghost q: nat, ghost pv: int)
    returns (left': Node)
    requires Closing(l, cmp, versus, base, first, last, left, i, pivot, q, pivot, q, pv) && i < q
             && Before(cmp, versus, l.vals[i], pv)
    ensures Closing(l, cmp, versus, base, first, last, left', i + 1, pivot, q, pivot, q, pv)
  {
    Scanned(cmp, versus, base, l.vals, first, last, i, q, q, pv, i + 1, q);
    Steps(l, i);
    left' := left.next;
  }

  /** Clear what is left on the left side, moving the pivot to the left as needed. */
  method CloseLeft(l: List, cmp: Comparator, versus: int, left: Node, pivot: Node, pivotid: int,
                   ghost base: seq<int>, ghost first: nat, ghost last: nat, ghost li: nat, ghost p: nat, ghost pv: int)
    returns (pivot': Node, pivotid': int, ghost q: nat)
    requires TotalPreorder(cmp) && Closing(l, cmp, versus, base, first, last, left, li, pivot, p, pivot, p, pv)
    modifies l`vals, l.nodes`data
    ensures Closing(l, cmp, versus, base, first, last, pivot', q, pivot', q, pivot', q, pv)
            && pivotid' == pivotid - (p - q)
  {
    var left' := left;
    ghost var i: nat := li;
    pivot', pivotid', q := pivot, pivotid, p;
    while left' != pivot'
      invariant Closing(l, cmp, versus, base, first, last, left', i, pivot', q, pivot', q, pv)
                && pivotid' == pivotid - (p - q)
      decreases q - i
    {
      left', pivot', pivotid', i, q := CloseLeftOnce(l, cmp, versus, left', pivot', pivotid', base, first, last, i, q,
                                                     pv);
    }
  }

  method CloseRightOnce(l: List, cmp: Comparator, versus: int, right: Node, pivot: Node, pivotid: int,
                        ghost base: seq<int>, ghost first: nat, ghost last: nat, ghost q: nat, ghost i: nat,
                        ghost pv: int)
    returns (right': Node, pivot': Node, pivotid': int, ghost i': nat, ghost q': nat)
    requires TotalPreorder(cmp) && Closing(l, cmp, versus, base, first, last, pivot, q, pivot, q, right, i, pv) && q < i
    modifies l`vals, l.nodes`data
    ensures Closing(l, cmp, versus, base, first, last, pivot', q', pivot', q', right', i', pv)
    ensures pivotid' - pivotid == q' - q && i' - q' < i - q
  {
    right', pivot', pivotid', i', q' := right, pivot, pivotid, i, q;
    TestMeans(cmp, versus, l.vals[i], pv);
    if cmp(right.data, pivot.data) * -versus < 0 {
      SplitRotateRight(cmp, versus, base, l.vals, first, last, q, i, pv, RotatedRight(l.vals, q, i));
      pivot' := RotateRight(l, right, pivot, q, i);
      pivotid', q' := pivotid + 1, q + 1;
    } else {
      Scanned(cmp, versus, base, l.vals, first, last, q, q, i, pv, q, i - 1);
      Steps(l, i);
      right', i' := right.prev, i - 1;
    }
  }

  /** Clear what is left on the right side, moving the pivot to the right as needed. */
  method CloseRight(l: List, cmp: Comparator, versus: int, right: Node, pivot: Node, pivotid: int,
                    ghost base: seq<int>, ghost first: nat, ghost last: nat, ghost p: nat, ghost ri: nat, ghost pv: int)
    returns (pivot': Node, pivotid': int, ghost q: nat)
    requires TotalPreorder(cmp) && Closing(l, cmp, versus, base, first, last, pivot, p, pivot, p, right, ri, pv)
    modifies l`vals, l.nodes`data
    ensures Closing(l, cmp, versus, base, first, last, pivot', q, pivot', q, pivot', q, pv)
            && pivotid' == pivotid + (q - p)
  {
    var right' := right;
    ghost var i: nat := ri;
    pivot', pivotid', q := pivot, pivotid, p;
    while right' != pivot'
      invariant Closing(l, cmp, versus, base, first, last, pivot', q, pivot', q, right', i, pv)
                && pivotid' == pivotid + (q - p)
      decreases i - q
    {
      right', pivot', pivotid', i, q := CloseRightOnce(l, cmp, versus, right', pivot', pivotid', base, first, last, q,
                                                       i, pv);
    }
  }

  /** The pivot's node, reached from the nearer end. */
  method FindPivot(l: List, fel: Node, lel: Node, first: nat, last: nat, pivotid: nat) returns (pivot: Node)
    requires l.Valid() && first < last < |l.vals| && pivotid <= last - first && fel == l.nodes[first + 1]
             && lel == l.nodes[last + 1]
    ensures pivot == l.nodes[first + pivotid + 1]
  {
    if pivotid < (last - first + 1) / 2 {
      pivot := fel;
      for i := 0 to pivotid
        invariant pivot == l.nodes[first + i + 1]
      {
        Steps(l, first + i);
        pivot := pivot.next;
      }
    } else {
      pivot := lel;
      var i := last - first;
      while i > pivotid
        invariant pivotid <= i <= last - first && pivot == l.nodes[first + i + 1]
      {
        Steps(l, first + i);
        pivot := pivot.prev;
        i := i - 1;
      }
    }
  }

  /** Put the pivot in its place: what comes before it to its left, what comes after it to its right. */
  method Partition(l: List, cmp: Comparator, versus: int, first: nat, fel: Node, last: nat, lel: Node, pivotid: nat)
    returns (pivot: Node, pivotid': int)
    requires l.Valid() && TotalPreorder(cmp) && first < last < |l.vals| && pivotid <= last - first
    requires fel == l.nodes[first + 1] && lel == l.nodes[last + 1]
    modifies l`vals, l.nodes`data
    ensures 0 <= pivotid' <= last - first && l.Valid() && pivot == l.nodes[first + pivotid' + 1]
    ensures var p := first + pivotid'; Split(cmp, versus, old(l.vals), l.vals, first, last, p, p, p, l.vals[p])
  {
    ghost var p, base := first + pivotid, l.vals;
    pivot := FindPivot(l, fel, lel, first, last, pivotid);
    var left, right;
    ghost var li, ri, q;
    left, right, li, ri := Meet(l, cmp, versus, fel, lel, pivot, first, last, p);
    if right == pivot {
      pivot, pivotid', q := CloseLeft(l, cmp, versus, left, pivot, pivotid, base, first, last, li, p, base[p]);
    } else {
      pivot, pivotid', q := CloseRight(l, cmp, versus, right, pivot, pivotid, base, first, last, p, ri, base[p]);
    }
  }

  /** The pivot stands at p, between the elements that come before it and those that come after it. */
  ghost predicate Placed(cmp: Comparator, versus: int, base: seq<int>, s: seq<int>, first: nat, last: nat, p: nat)
  {
    p < |s| && Split(cmp, versus, base, s, first, last, p, p, p, s[p])
  }

  /** Sorting the part to the left of the pivot keeps the pivot between the parts. */
  lemma {:induction false} AfterLeft(cmp: Comparator, versus: int, base: seq<int>, s: seq<int>, first: nat, last: nat,
                                     p: nat, t: seq<int>)
    requires Placed(cmp, versus, base, s, first, last, p) && Permutes(s, t, first, p)
    ensures Placed(cmp, versus, base, t, first, last, p)
  {
    PermutesWider(s, t, first, p, first, last + 1);
    PermutesTrans(base, s, t, first, last + 1);
    PermutesBefore(cmp, versus, s, t, first, p, s[p]);
    SameFrom(s, t, p);
  }

  lemma {:induction false} AfterRight(cmp: Comparator, versus: int, base: seq<int>, s: seq<int>, first: nat,
                                      last: nat, p: nat, t: seq<int>)
    requires Placed(cmp, versus, base, s, first, last, p) && Permutes(s, t, p + 1, last + 1)
             && SortedRange(cmp, versus, s, first, p)
    ensures Placed(cmp, versus, base, t, first, last, p) && SortedRange(cmp, versus, t, first, p)
  {
    PermutesWider(s, t, p + 1, last + 1, first, last + 1);
    PermutesTrans(base, s, t, first, last + 1);
    PermutesBefore(cmp, versus, s, t, p + 1, last + 1, s[p]);
    SameUpTo(s, t, p + 1);
    FrontKept(cmp, versus, s, t, first, p);
  }

  lemma {:induction false} FrontKept(cmp: Comparator, versus: int, s: seq<int>, t: seq<int>, first: nat, p: nat)
    requires p < |s| == |t| && forall k :: 0 <= k < p + 1 ==> t[k] == s[k]
    ensures first <= p && AllBefore(cmp, versus, s, first, p, s[p]) ==> AllBefore(cmp, versus, t, first, p, t[p])
    ensures first <= p && SortedRange(cmp, versus, s, first, p) ==> SortedRange(cmp, versus, t, first, p)
  {
  }

  lemma {:induction false} SameFrom(s: seq<int>, t: seq<int>, p: nat)
    requires |s| == |t| && p <= |s| && s[p..] == t[p..]
    ensures forall i :: p <= i < |s| ==> s[i] == t[i]
  {
    forall i | p <= i < |s| ensures s[i] == t[i] {
      assert s[i] == s[p..][i - p] && t[i] == t[p..][i - p];
    }
  }

  lemma {:induction false} SameUpTo(s: seq<int>, t: seq<int>, p: nat)
    requires |s| == |t| && p <= |s| && s[..p] == t[..p]
    ensures forall i :: 0 <= i < p ==> s[i] == t[i]
  {
    forall i | 0 <= i < p ensures s[i] == t[i] {
      assert s[i] == s[..p][i] && t[i] == t[..p][i];
    }
  }

  lemma {:induction false} BothSorted(cmp: Comparator, versus: int, base: seq<int>, s: seq<int>, first: nat,
                                      last: nat, p: nat)
    requires TotalPreorder(cmp) && Placed(cmp, versus, base, s, first, last, p)
    requires SortedRange(cmp, versus, s, first, p) && SortedRange(cmp, versus, s, p + 1, last + 1)
    ensures Permutes(base, s, first, last + 1) && SortedRange(cmp, versus, s, first, last + 1)
  {
    SortedAround(cmp, versus, s, first, p, last + 1);
  }

  /** Sort the stretch of elements first to last, whichever pivots are chosen. */
  method QuickSort(l: List, cmp: Comparator, versus: int, first: nat, fel: Node, last: nat, lel: Node)
    requires l.Valid() && TotalPreorder(cmp) && first <= last < |l.vals| && fel == l.nodes[first + 1]
             && lel == l.nodes[last + 1]
    modifies l`vals, l.nodes`data
    ensures l.Valid() && Permutes(old(l.vals), l.vals, first, last + 1)
    ensures SortedRange(cmp, versus, l.vals, first, last + 1)
    decreases last - first
  {
    if last <= first {
      return;
    }
    if last - first + 1 <= MIN_QUICKSORT_ELS {
      SelectionSort(l, cmp, versus, first, fel, last, lel);
      return;
    }
    var pivotid: nat :| pivotid <= last - first;
    ghost var base := l.vals;
    var pivot, id := Partition(l, cmp, versus, first, fel, last, lel, pivotid);
    SortParts(l, cmp, versus, first, fel, last, lel, pivot, id, base);
  }

  /** Sort the parts on either side of the pivot. */
  method SortParts(l: List, cmp: Comparator, versus: int, first: nat, fel: Node, last: nat, lel: Node, pivot: Node,
                   pivotid: nat,
                   ghost base: seq<int>)
    requires l.Valid() && TotalPreorder(cmp) && first < last < |l.vals| && fel == l.nodes[first + 1]
             && lel == l.nodes[last + 1]
    requires pivotid <= last - first && pivot == l.nodes[first + pivotid + 1]
    requires Placed(cmp, versus, base, l.vals, first, last, first + pivotid)
    modifies l`vals, l.nodes`data
    ensures l.Valid() && Permutes(base, l.vals, first, last + 1) && SortedRange(cmp, versus, l.vals, first, last + 1)
    decreases last - first, 1
  {
    ghost var p, s := first + pivotid, l.vals;
    SortLeft(l, cmp, versus, first, fel, pivot, pivotid, last - first, p);
    AfterLeft(cmp, versus, base, s, first, last, p, l.vals);
    ghost var t := l.vals;
    SortRight(l, cmp, versus, first, last, lel, pivot, pivotid, p);
    AfterRight(cmp, versus, base, t, first, last, p, l.vals);
    BothSorted(cmp, versus, base, l.vals, first, last, p);
  }

  /** Sort what is to the left of the pivot, if anything is. */
  method SortLeft(l: List, cmp: Comparator, versus: int, first: nat, fel: Node, pivot: Node, pivotid: nat,
                  ghost size: nat, ghost p: nat)
    requires l.Valid() && TotalPreorder(cmp) && p == first + pivotid < |l.vals| && fel == l.nodes[first + 1]
    requires pivot == l.nodes[p + 1] && pivotid <= size
    modifies l`vals, l.nodes`data
    ensures l.Valid() && Permutes(old(l.vals), l.vals, first, p)
    ensures SortedRange(cmp, versus, l.vals, first, p)
    decreases size, 0
  {
    if pivotid > 0 {
      Steps(l, p);
      QuickSort(l, cmp, versus, first, fel, first + pivotid - 1, pivot.prev);
    }
  }

  /** Sort what is to the right of the pivot, if anything is. */
  method SortRight(l: List, cmp: Comparator, versus: int, first: nat, last: nat, lel: Node, pivot: Node, pivotid: nat,
                   ghost p: nat)
    requires l.Valid() && TotalPreorder(cmp) && p == first + pivotid <= last < |l.vals| && lel == l.nodes[last + 1]
    requires pivot == l.nodes[p + 1]
    modifies l`vals, l.nodes`data
    ensures l.Valid() && Permutes(old(l.vals), l.vals, p + 1, last + 1)
    ensures SortedRange(cmp, versus, l.vals, p + 1, last + 1)
    decreases last - first, 0
  {
    if first + pivotid < last {
      Steps(l, p);
      QuickSort(l, cmp, versus, first + pivotid + 1, pivot.next, last, lel);
    }
  }

  /** Sort the list; -1 during an iteration. */
  method Sort(l: List, cmp: Comparator, versus: int) returns (r: int)
    requires l.Valid() && TotalPreorder(cmp)
    modifies l`vals, l.nodes`data
    ensures l.Valid() && r == (if l.iterActive then -1 else 0) && multiset(l.vals) == multiset(old(l.vals))
    ensures if r == 0 then SortedRange(cmp, versus, l.vals, 0, |l.vals|) else l.vals == old(l.vals)
  {
    if l.iterActive {
      return -1;
    }
    r := 0;
    if l.numels <= 1 {
      return;
    }
    Steps(l, 0);
    Steps(l, l.numels - 1);
    ghost var was := l.vals;
    assert After(l.nodes, 0) == l.nodes[1] && Prior(l.nodes, l.numels + 1) == l.nodes[l.numels];
    QuickSort(l, cmp, versus, 0, l.head.next, l.numels - 1, l.tail.prev);
    PermutesAll(was, l.vals, 0, l.numels);
  }
}
