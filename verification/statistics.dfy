/** Order statistics over integer sequences: sorting, the median numpy's
    `np.median` takes of an odd-length list, the sorted unique values
    `np.unique` returns, and minimum, maximum and sum.
 */
module Statistics {

  predicate Sorted(s: seq<int>) {
    forall i, j :: 0 <= i < j < |s| ==> s[i] <= s[j]
  }

  predicate StrictlySorted(s: seq<int>) {
    forall i, j :: 0 <= i < j < |s| ==> s[i] < s[j]
  }

  /** Inserts `x` into the sorted sequence `s`. */
  function Insert(x: int, s: seq<int>): (r: seq<int>)
    requires Sorted(s)
    ensures Sorted(r)
    ensures |r| == |s| + 1
    ensures r[0] == x || (|s| > 0 && r[0] == s[0])
  {
    if |s| == 0 then [x]
    else if x <= s[0] then [x] + s
    else [s[0]] + Insert(x, s[1..])
  }

  lemma {:induction false} InsertPermutes(x: int, s: seq<int>)
    requires Sorted(s)
    ensures multiset(Insert(x, s)) == multiset(s) + multiset{x}
  {
    if |s| > 0 && x > s[0] {
      InsertPermutes(x, s[1..]);
      assert s == [s[0]] + s[1..];
    }
  }

  /** Insertion sort: an ascending rearrangement of `s`. */
  function Sort(s: seq<int>): (r: seq<int>)
    ensures Sorted(r)
    ensures |r| == |s|
  {
    if |s| == 0 then [] else Insert(s[0], Sort(s[1..]))
  }

  /** Sorting only rearranges: the result is a permutation of the input. */
  lemma {:induction false} SortPermutes(s: seq<int>)
    ensures multiset(Sort(s)) == multiset(s)
  {
    if |s| > 0 {
      SortPermutes(s[1..]);
      InsertPermutes(s[0], Sort(s[1..]));
      assert s == [s[0]] + s[1..];
    }
  }

  /** The median of an odd-length list: the middle element once sorted. */
  function Median(s: seq<int>): (m: int)
    requires |s| % 2 == 1
    ensures m in s
  {
    var t := Sort(s);
    SortPermutes(s);
    assert t[|s| / 2] in multiset(t);
    t[|s| / 2]
  }

  /** The median lies within any bounds that all elements respect. */
  lemma MedianBounds(s: seq<int>, lo: int, hi: int)
    requires |s| % 2 == 1
    requires forall k :: 0 <= k < |s| ==> lo <= s[k] <= hi
    ensures lo <= Median(s) <= hi
  {
  }

  /** A value making up more than half of an odd-length list is its median. */
  lemma MedianOfMajority(s: seq<int>, v: int)
    requires |s| % 2 == 1
    requires multiset(s)[v] > |s| / 2
    ensures Median(s) == v
  {
    var t := Sort(s);
    SortPermutes(s);
    if t[|t| / 2] != v {
      MiddleNotMajority(t, v);
      assert false;
    }
  }

  /** In a sorted odd-length list, a value other than the middle element
      occupies at most half of the positions. */
  lemma MiddleNotMajority(t: seq<int>, v: int)
    requires Sorted(t) && |t| % 2 == 1 && t[|t| / 2] != v
    ensures multiset(t)[v] <= |t| / 2
  {
    var k := |t| / 2;
    if t[k] < v {
      // every position up to the middle holds a value below v
      forall i | 0 <= i <= k
        ensures t[i] != v
      {
        assert t[i] <= t[k];
      }
      CountOutside(t, v, 0, k + 1);
    } else {
      // every position from the middle on holds a value above v
      forall i | k <= i < |t|
        ensures t[i] != v
      {
        assert t[k] <= t[i];
      }
      CountOutside(t, v, k, |t|);
    }
  }

  /** If `v` is absent from positions lo..hi-1 of `t`, it occurs at most
      |t| - (hi - lo) times in `t`. */
  lemma CountOutside(t: seq<int>, v: int, lo: nat, hi: nat)
    requires lo <= hi <= |t|
    requires forall i :: lo <= i < hi ==> t[i] != v
    ensures multiset(t)[v] <= |t| - (hi - lo)
  {
    assert t == t[..lo] + t[lo..hi] + t[hi..];
    assert multiset(t[lo..hi])[v] == 0;
    CountAtMostLength(t[..lo], v);
    CountAtMostLength(t[hi..], v);
  }

  lemma {:induction false} CountAtMostLength(s: seq<int>, v: int)
    ensures multiset(s)[v] <= |s|
  {
    if |s| > 0 {
      assert s == [s[0]] + s[1..];
      CountAtMostLength(s[1..], v);
    }
  }

  /** If positions lo..hi-1 of `s` all hold `v`, then `v` occurs at least hi - lo times. */
  lemma {:induction false} CountAtLeast(s: seq<int>, v: int, lo: nat, hi: nat)
    requires lo <= hi <= |s|
    requires forall i :: lo <= i < hi ==> s[i] == v
    ensures multiset(s)[v] >= hi - lo
  {
    if lo < hi {
      assert s == s[..lo] + [v] + s[lo + 1..];
      CountAtLeast(s[lo + 1..], v, 0, hi - lo - 1);
    }
  }

  /** Drops adjacent repeats from a sorted sequence. */
  function Dedup(s: seq<int>): (r: seq<int>)
    requires Sorted(s)
    ensures StrictlySorted(r)
    ensures forall x :: x in r <==> x in s
  {
    if |s| <= 1 then s
    else if s[0] == s[1] then Dedup(s[1..])
    else
      var rest := Dedup(s[1..]);
      assert forall k :: 0 <= k < |rest| ==> rest[k] in s[1..];
      [s[0]] + rest
  }

  /** The distinct values of `s` in ascending order: `sorted(np.unique(s))`. */
  function Unique(s: seq<int>): (r: seq<int>)
    ensures StrictlySorted(r)
    ensures forall x :: x in r <==> x in s
    ensures |s| > 0 <==> |r| > 0
  {
    var t := Sort(s);
    SortPermutes(s);
    assert forall x :: x in t <==> x in multiset(s);
    assert |t| > 0 ==> t[0] in t;
    Dedup(t)
  }

  function Max(s: seq<int>): (m: int)
    requires |s| > 0
    ensures m in s
    ensures forall k :: 0 <= k < |s| ==> s[k] <= m
  {
    if |s| == 1 then s[0]
    else
      var rest := Max(s[1..]);
      assert forall k :: 1 <= k < |s| ==> s[k] == s[1..][k - 1];
      if s[0] >= rest then s[0] else rest
  }

  /** The last of the distinct values is the largest value. */
  lemma UniqueLastIsMax(s: seq<int>)
    requires |s| > 0
    ensures |Unique(s)| > 0 && Unique(s)[|Unique(s)| - 1] == Max(s)
  {
    var r, m := Unique(s), Max(s);
    var last := r[|r| - 1];
    assert last in s;
    var p :| 0 <= p < |s| && s[p] == last;
    assert m in r;
    var k :| 0 <= k < |r| && r[k] == m;
    assert k == |r| - 1;
  }

  function Min(s: seq<int>): (m: int)
    requires |s| > 0
    ensures m in s
    ensures forall k :: 0 <= k < |s| ==> m <= s[k]
  {
    if |s| == 1 then s[0]
    else
      var rest := Min(s[1..]);
      assert forall k :: 1 <= k < |s| ==> s[k] == s[1..][k - 1];
      if s[0] <= rest then s[0] else rest
  }

  function Sum(s: seq<int>): int {
    if |s| == 0 then 0 else s[0] + Sum(s[1..])
  }

  /** The sum never exceeds |s| times an upper bound of the elements, and falls
      strictly short of it as soon as one element is below the bound. */
  lemma {:induction false} SumBelowBound(s: seq<int>, m: int)
    requires forall k :: 0 <= k < |s| ==> s[k] <= m
    ensures Sum(s) <= |s| * m
    ensures (exists k :: 0 <= k < |s| && s[k] < m) ==> Sum(s) < |s| * m
  {
    if |s| > 0 {
      SumBelowBound(s[1..], m);
      assert forall k :: 1 <= k < |s| ==> s[k] == s[1..][k - 1];
      assert |s| * m == m + (|s| - 1) * m;
    }
  }
}
