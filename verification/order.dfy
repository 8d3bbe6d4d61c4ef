/**
 Sorting, counting and the median of a finite sequence of reals, as numpy's
 `median` computes it over a flattened array: the middle element of the sorted
 values for an odd count, the mean of the two middle elements for an even one.
 */
module Order {

  predicate Sorted(s: seq<real>)
  {
    forall i, j :: 0 <= i < j < |s| ==> s[i] <= s[j]
  }

  /** Inserts `x` into the sorted sequence `s`, before the first element not below it. */
  function Insert(x: real, s: seq<real>): (r: seq<real>)
    requires Sorted(s)
    ensures Sorted(r)
    ensures multiset(r) == multiset(s) + multiset{x}
    ensures |r| == |s| + 1
    ensures r[0] == x || (|s| > 0 && r[0] == s[0])
  {
    if |s| == 0 then [x]
    else if x <= s[0] then [x] + s
    else
      var rest := Insert(x, s[1..]);
      assert s == [s[0]] + s[1..];
      assert s[0] <= rest[0];
      [s[0]] + rest
  }

  /** An ascending rearrangement of `s`. */
  function Sort(s: seq<real>): (r: seq<real>)
    ensures Sorted(r)
    ensures multiset(r) == multiset(s)
    ensures |r| == |s|
  {
    if |s| == 0 then []
    else
      assert s == [s[0]] + s[1..];
      Insert(s[0], Sort(s[1..]))
  }

  /** The number of elements of `s` that satisfy `p`. */
  function CountIf(s: seq<real>, p: real -> bool): (n: nat)
    ensures n <= |s|
  {
    if |s| == 0 then 0 else (if p(s[0]) then 1 else 0) + CountIf(s[1..], p)
  }

  function Below(m: real): real -> bool
  {
    y => y < m
  }

  function Above(m: real): real -> bool
  {
    y => y > m
  }

  lemma {:induction false} CountIfAppend(a: seq<real>, b: seq<real>, p: real -> bool)
    ensures CountIf(a + b, p) == CountIf(a, p) + CountIf(b, p)
  {
    if |a| == 0 {
      assert a + b == b;
    } else {
      assert (a + b)[1..] == a[1..] + b;
      CountIfAppend(a[1..], b, p);
    }
  }

  /** Counting depends only on the multiset of values, not on their order. */
  lemma {:induction false} CountIfPermutation(s: seq<real>, t: seq<real>, p: real -> bool)
    requires multiset(s) == multiset(t)
    ensures CountIf(s, p) == CountIf(t, p)
    decreases |s|
  {
    if |s| == 0 {
      assert |t| == |multiset(t)| == 0;
    } else {
      var x := s[0];
      assert x in multiset(t);
      var j :| 0 <= j < |t| && t[j] == x;
      var rest := t[..j] + t[j + 1..];
      RemoveAt(t, j, p);
      assert s == [x] + s[1..];
      assert multiset(s[1..]) == multiset(s) - multiset{x};
      CountIfPermutation(s[1..], rest, p);
    }
  }

  /** Removing the element at `j` removes it from the multiset and from the count. */
  lemma RemoveAt(t: seq<real>, j: nat, p: real -> bool)
    requires j < |t|
    ensures multiset(t[..j] + t[j + 1..]) == multiset(t) - multiset{t[j]}
    ensures CountIf(t, p) == CountIf(t[..j] + t[j + 1..], p) + (if p(t[j]) then 1 else 0)
  {
    SplitAt(t, j);
    RemoveAtMultiset(t[..j], t[j], t[j + 1..]);
    RemoveAtCount(t[..j], t[j], t[j + 1..], p);
  }

  lemma SplitAt(t: seq<real>, j: nat)
    requires j < |t|
    ensures t == t[..j] + [t[j]] + t[j + 1..]
  {
    assert t[..j + 1] == t[..j] + [t[j]];
    assert t == t[..j + 1] + t[j + 1..];
  }

  lemma RemoveAtMultiset(u: seq<real>, x: real, v: seq<real>)
    ensures multiset(u + v) == multiset(u + [x] + v) - multiset{x}
  {
    assert multiset(u + [x] + v) == multiset(u) + multiset{x} + multiset(v);
    assert multiset(u + v) == multiset(u) + multiset(v);
  }

  lemma RemoveAtCount(u: seq<real>, x: real, v: seq<real>, p: real -> bool)
    ensures CountIf(u + [x] + v, p) == CountIf(u + v, p) + (if p(x) then 1 else 0)
  {
    CountIfAppend(u + [x], v, p);
    CountIfAppend(u, [x], p);
    CountIfAppend(u, v, p);
  }

  /** Splitting a sequence at `k` splits its count. */
  lemma CountIfSplit(s: seq<real>, k: nat, p: real -> bool)
    requires k <= |s|
    ensures CountIf(s, p) == CountIf(s[..k], p) + CountIf(s[k..], p)
  {
    assert s == s[..k] + s[k..];
    CountIfAppend(s[..k], s[k..], p);
  }

  /** No element satisfies `p`, so the count is zero. */
  lemma {:induction false} CountIfNone(s: seq<real>, p: real -> bool)
    requires forall k :: 0 <= k < |s| ==> !p(s[k])
    ensures CountIf(s, p) == 0
  {
    if |s| > 0 {
      CountIfNone(s[1..], p);
    }
  }

  /** In a sorted sequence whose elements from position `h` on are at least `m`, at most `h` lie below `m`. */
  lemma CountBelowSorted(t: seq<real>, h: nat, m: real)
    requires h <= |t|
    requires forall k :: h <= k < |t| ==> m <= t[k]
    ensures CountIf(t, Below(m)) <= h
  {
    CountIfSplit(t, h, Below(m));
    var u := t[h..];
    assert forall k :: 0 <= k < |u| ==> !Below(m)(u[k]);
    CountIfNone(u, Below(m));
  }

  /** In a sequence whose first `g` elements are at most `m`, at most `|t| - g` lie above `m`. */
  lemma CountAboveSorted(t: seq<real>, g: nat, m: real)
    requires g <= |t|
    requires forall k :: 0 <= k < g ==> t[k] <= m
    ensures CountIf(t, Above(m)) <= |t| - g
  {
    CountIfSplit(t, g, Above(m));
    var u := t[..g];
    assert forall k :: 0 <= k < |u| ==> !Above(m)(u[k]);
    CountIfNone(u, Above(m));
  }

  /** The median of a non-empty sequence, with numpy's convention for even counts. */
  function Median(s: seq<real>): (m: real)
    requires |s| > 0
    ensures exists k :: 0 <= k < |s| && s[k] <= m
    ensures exists k :: 0 <= k < |s| && m <= s[k]
    ensures CountIf(s, Below(m)) <= |s| / 2
    ensures CountIf(s, Above(m)) <= |s| / 2
  {
    var t := Sort(s);
    var m := MiddleOf(t);
    MedianBetween(s, t);
    MedianBelow(s, t);
    MedianAbove(s, t);
    m
  }

  /** Two ascending arrangements of the same values are the same sequence. */
  lemma {:induction false} SortedUnique(t: seq<real>, u: seq<real>)
    requires Sorted(t) && Sorted(u) && multiset(t) == multiset(u)
    ensures t == u
    decreases |t|
  {
    assert |t| == |multiset(t)| == |u|;
    if |t| > 0 {
      SortedLeast(t, u[0]);
      SortedLeast(u, t[0]);
      var x := t[0];
      assert u[0] == x;
      SortedTail(t);
      SortedTail(u);
      var t', u' := t[1..], u[1..];
      assert multiset(t') == multiset(u') by {
        assert multiset(t') == multiset(t) - multiset{x};
        assert multiset(u') == multiset(u) - multiset{x};
      }
      SortedUnique(t', u');
      assert t == [x] + t' && u == [x] + u';
    }
  }

  /** The first element of an ascending sequence is at most any of its values. */
  lemma SortedLeast(t: seq<real>, x: real)
    requires Sorted(t) && x in multiset(t)
    ensures |t| > 0 && t[0] <= x
  {
    var a :| 0 <= a < |t| && t[a] == x;
  }

  /** Dropping the first element keeps the order and removes that element from the multiset. */
  lemma SortedTail(t: seq<real>)
    requires Sorted(t) && |t| > 0
    ensures Sorted(t[1..])
    ensures multiset(t[1..]) == multiset(t) - multiset{t[0]}
  {
    assert t == [t[0]] + t[1..];
  }

  /**
   numpy's median is read off ANY ascending arrangement of the values: the
   middle element for an odd count, the mean of the two middle elements for an
   even one.
   */
  lemma MedianOfSortedArrangement(s: seq<real>, t: seq<real>)
    requires |s| > 0 && Sorted(t) && multiset(t) == multiset(s)
    ensures |t| == |s|
    ensures |s| % 2 == 1 ==> Median(s) == t[|s| / 2]
    ensures |s| % 2 == 0 ==> Median(s) == (t[|s| / 2 - 1] + t[|s| / 2]) / 2.0
  {
    assert |t| == |multiset(t)| == |s|;
    SortedUnique(Sort(s), t);
  }

  /** The middle element of a sorted sequence, or the mean of the two middle ones. */
  function MiddleOf(t: seq<real>): real
    requires |t| > 0
  {
    var h := |t| / 2;
    if |t| % 2 == 1 then t[h] else (t[h - 1] + t[h]) / 2.0
  }

  lemma MedianBetween(s: seq<real>, t: seq<real>)
    requires |s| > 0 && Sorted(t) && multiset(t) == multiset(s)
    ensures exists k :: 0 <= k < |s| && s[k] <= MiddleOf(t)
    ensures exists k :: 0 <= k < |s| && MiddleOf(t) <= s[k]
  {
    var h := |t| / 2;
    assert |t| == |multiset(t)| == |s|;
    assert t[h] in multiset(s);
    var hi :| 0 <= hi < |s| && s[hi] == t[h];
    var lo: int;
    if |t| % 2 == 1 {
      lo := hi;
    } else {
      assert t[h - 1] in multiset(s);
      lo :| 0 <= lo < |s| && s[lo] == t[h - 1];
      assert t[h - 1] <= t[h];
    }
    assert s[lo] <= MiddleOf(t) <= s[hi];
  }

  /** At most half the elements lie strictly below the middle of the sorted arrangement. */
  lemma MedianBelow(s: seq<real>, t: seq<real>)
    requires |s| > 0 && Sorted(t) && multiset(t) == multiset(s)
    ensures CountIf(s, Below(MiddleOf(t))) <= |s| / 2
  {
    var m := MiddleOf(t);
    assert |t| == |multiset(t)| == |s|;
    var h := |t| / 2;
    assert forall k :: h <= k < |t| ==> t[h] <= t[k];
    assert h > 0 ==> t[h - 1] <= t[h];
    CountBelowSorted(t, h, m);
    CountIfPermutation(s, t, Below(m));
  }

  /** At most half the elements lie strictly above the middle of the sorted arrangement. */
  lemma MedianAbove(s: seq<real>, t: seq<real>)
    requires |s| > 0 && Sorted(t) && multiset(t) == multiset(s)
    ensures CountIf(s, Above(MiddleOf(t))) <= |s| / 2
  {
    var m := MiddleOf(t);
    assert |t| == |multiset(t)| == |s|;
    var h := |t| / 2;
    var g := |t| - h;
    assert h > 0 ==> t[h - 1] <= t[h];
    assert forall k :: 0 <= k < g ==> t[k] <= t[g - 1];
    CountAboveSorted(t, g, m);
    CountIfPermutation(s, t, Above(m));
  }
}
