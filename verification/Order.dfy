/**
 Orders given by a comparator, and what sorting a stretch of a sequence means.
 */
module Order {

  /** A comparator: positive if the first element comes before the second, negative if after, 0 if neither. */
  type Comparator = (int, int) -> int

  function Sign(x: int): int {
    if x > 0 then 1 else if x < 0 then -1 else 0
  }

  /** Every two elements compare, consistently both ways round, and the order is transitive. */
  ghost predicate TotalPreorder(cmp: Comparator) {
    && (forall a, b :: Sign(cmp(a, b)) == -Sign(cmp(b, a)))
    && (forall a, b, c :: cmp(a, b) >= 0 && cmp(b, c) >= 0 ==> cmp(a, c) >= 0)
  }

  /** a may stand before b: small to big if `versus` is positive, big to small if it is negative. */
  predicate Before(cmp: Comparator, versus: int, a: int, b: int) {
    if versus > 0 then cmp(a, b) >= 0 else if versus < 0 then cmp(a, b) <= 0 else true
  }

  /** The tests of the sorting algorithms, written with the comparator's result times -versus. */
  lemma {:induction false} TestMeans(cmp: Comparator, versus: int, a: int, b: int)
    requires TotalPreorder(cmp)
    ensures cmp(a, b) * -versus <= 0 <==> Before(cmp, versus, a, b)
    ensures cmp(a, b) * -versus >= 0 <==> Before(cmp, versus, b, a)
  {
    assert Sign(cmp(a, b)) == -Sign(cmp(b, a));
    var c := cmp(a, b);
    if versus > 0 && c > 0 { assert c * -versus < 0; }
    if versus > 0 && c < 0 { assert c * -versus > 0; }
    if versus < 0 && c > 0 { assert c * -versus > 0; }
    if versus < 0 && c < 0 { assert c * -versus < 0; }
  }

  lemma {:induction false} BeforeTotal(cmp: Comparator, versus: int, a: int, b: int)
    requires TotalPreorder(cmp)
    ensures Before(cmp, versus, a, b) || Before(cmp, versus, b, a)
  {
    assert Sign(cmp(a, b)) == -Sign(cmp(b, a));
  }

  lemma {:induction false} BeforeTransitive(cmp: Comparator, versus: int, a: int, b: int, c: int)
    requires TotalPreorder(cmp) && Before(cmp, versus, a, b) && Before(cmp, versus, b, c)
    ensures Before(cmp, versus, a, c)
  {
    assert Sign(cmp(a, b)) == -Sign(cmp(b, a)) && Sign(cmp(b, c)) == -Sign(cmp(c, b))
        && Sign(cmp(a, c)) == -Sign(cmp(c, a));
    if versus < 0 {
      assert cmp(c, b) >= 0 && cmp(b, a) >= 0;
    }
  }

  ghost predicate AllBefore(cmp: Comparator, versus: int, s: seq<int>, lo: nat, hi: nat, x: int)
    requires lo <= hi <= |s|
  {
    forall i :: lo <= i < hi ==> Before(cmp, versus, s[i], x)
  }

  ghost predicate AllAfter(cmp: Comparator, versus: int, s: seq<int>, lo: nat, hi: nat, x: int)
    requires lo <= hi <= |s|
  {
    forall i :: lo <= i < hi ==> Before(cmp, versus, x, s[i])
  }

  ghost predicate SortedRange(cmp: Comparator, versus: int, s: seq<int>, lo: nat, hi: nat)
    requires lo <= hi <= |s|
  {
    forall i, j :: lo <= i < j < hi ==> Before(cmp, versus, s[i], s[j])
  }

  /** Both parts sorted and a pivot between them. */
  lemma {:induction false} SortedAround(cmp: Comparator, versus: int, s: seq<int>, lo: nat, p: nat, hi: nat)
    requires TotalPreorder(cmp) && lo <= p < hi <= |s|
    requires SortedRange(cmp, versus, s, lo, p) && SortedRange(cmp, versus, s, p + 1, hi)
    requires AllBefore(cmp, versus, s, lo, p, s[p]) && AllAfter(cmp, versus, s, p + 1, hi, s[p])
    ensures SortedRange(cmp, versus, s, lo, hi)
  {
    forall i, j | lo <= i < j < hi
      ensures Before(cmp, versus, s[i], s[j])
    {
      if i < p < j {
        BeforeTransitive(cmp, versus, s[i], s[p], s[j]);
      }
    }
  }

  // ------------------------------------------------------------- permutations

  /** t is s with the stretch from lo to hi permuted. */
  ghost predicate Permutes(s: seq<int>, t: seq<int>, lo: nat, hi: nat) {
    && |s| == |t| && lo <= hi <= |s| && s[..lo] == t[..lo] && s[hi..] == t[hi..]
    && multiset(s[lo..hi]) == multiset(t[lo..hi])
  }

  lemma {:induction false} PermutesTrans(s: seq<int>, t: seq<int>, u: seq<int>, lo: nat, hi: nat)
    requires Permutes(s, t, lo, hi) && Permutes(t, u, lo, hi)
    ensures Permutes(s, u, lo, hi)
  {
  }

  /** Permuting a stretch permutes every longer one. */
  lemma {:induction false} PermutesWider(s: seq<int>, t: seq<int>, lo: nat, hi: nat, a: nat, b: nat)
    requires Permutes(s, t, lo, hi) && a <= lo && hi <= b <= |s|
    ensures Permutes(s, t, a, b)
  {
    assert s[a..b] == s[a..lo] + s[lo..hi] + s[hi..b];
    assert t[a..b] == t[a..lo] + t[lo..hi] + t[hi..b];
    assert s[a..lo] == s[..lo][a..] && t[a..lo] == t[..lo][a..];
    assert s[hi..b] == s[hi..][..b - hi] && t[hi..b] == t[hi..][..b - hi];
    assert s[..a] == s[..lo][..a] && t[..a] == t[..lo][..a];
    assert s[b..] == s[hi..][b - hi..] && t[b..] == t[hi..][b - hi..];
  }

  /** A permuted sequence has the same elements. */
  lemma {:induction false} PermutesAll(s: seq<int>, t: seq<int>, lo: nat, hi: nat)
    requires Permutes(s, t, lo, hi)
    ensures multiset(s) == multiset(t)
  {
    PermutesWider(s, t, lo, hi, 0, |s|);
    assert s[0..|s|] == s && t[0..|s|] == t;
  }

  function Swap(s: seq<int>, i: nat, j: nat): (t: seq<int>)
    requires i < |s| && j < |s|
    ensures |t| == |s|
  {
    s[i := s[j]][j := s[i]]
  }

  lemma {:induction false} SwapPermutes(s: seq<int>, i: nat, j: nat, lo: nat, hi: nat)
    requires lo <= i < hi <= |s| && lo <= j < hi
    ensures Permutes(s, Swap(s, i, j), lo, hi)
  {
    var t := Swap(s, i, j);
    assert t[lo..hi] == s[lo..hi][i - lo := s[j]][j - lo := s[i]];
    assert s[..lo] == t[..lo] && s[hi..] == t[hi..];
    SwapMultiset(s[lo..hi], i - lo, j - lo);
  }

  lemma {:induction false} SwapMultiset(s: seq<int>, i: nat, j: nat)
    requires i < |s| && j < |s|
    ensures multiset(s[i := s[j]][j := s[i]]) == multiset(s)
  {
  }

  /** What holds of all elements of a stretch still holds after it is permuted. */
  lemma {:induction false} PermutesBefore(cmp: Comparator, versus: int, s: seq<int>, t: seq<int>, lo: nat, hi: nat,
                                          x: int)
    requires Permutes(s, t, lo, hi)
    ensures AllBefore(cmp, versus, s, lo, hi, x) ==> AllBefore(cmp, versus, t, lo, hi, x)
    ensures AllAfter(cmp, versus, s, lo, hi, x) ==> AllAfter(cmp, versus, t, lo, hi, x)
  {
    forall i | lo <= i < hi
      ensures exists j :: lo <= j < hi && s[j] == t[i]
    {
      assert t[lo..hi][i - lo] in multiset(t[lo..hi]);
      assert t[i] in s[lo..hi];
      var k :| 0 <= k < hi - lo && s[lo..hi][k] == t[i];
      assert s[lo + k] == t[i];
    }
  }
}
