/** Specification of the logical contents of a SortedInt2: a sequence of
    integers in non-decreasing order.  Everything here is about values; the
    class in sorted_int2.dfy is proved against these definitions. */
module SortedSeq {

  /** Class invariant (3) of SortedInt2: entries in non-decreasing order. */
  ghost predicate Sorted(s: seq<int>) {
    forall i, j :: 0 <= i < j < |s| ==> s[i] <= s[j]
  }

  /** Number of occurrences of t in s. */
  function Count(s: seq<int>, t: int): (n: nat)
    ensures n <= |s|
  {
    if s == [] then 0 else (if s[0] == t then 1 else 0) + Count(s[1..], t)
  }

  /** Count agrees with the multiplicity of t in the multiset of entries. */
  lemma {:induction false} CountIsMultiplicity(s: seq<int>, t: int)
    ensures Count(s, t) == multiset(s)[t]
  {
    if s != [] {
      assert s == [s[0]] + s[1..];
      CountIsMultiplicity(s[1..], t);
    }
  }

  /** Number of leading entries that are below t; for a sorted sequence this is
      the index at which the run of t (possibly empty) starts. */
  function LeadingBelow(s: seq<int>, t: int): (n: nat)
    ensures n <= |s|
    ensures forall i :: 0 <= i < n ==> s[i] < t
    ensures n < |s| ==> s[n] >= t
  {
    if s == [] || s[0] >= t then 0 else 1 + LeadingBelow(s[1..], t)
  }

  /** In a sorted sequence the occurrences of t form one contiguous run that
      starts at LeadingBelow(s, t) and is as long as the frequency of t;
      everything after the run is greater than t. */
  lemma {:induction false} RunAt(s: seq<int>, t: int)
    requires Sorted(s)
    ensures LeadingBelow(s, t) + Count(s, t) <= |s|
    ensures forall i :: LeadingBelow(s, t) <= i < LeadingBelow(s, t) + Count(s, t) ==> s[i] == t
    ensures forall i :: LeadingBelow(s, t) + Count(s, t) <= i < |s| ==> s[i] > t
  {
    if s != [] {
      var r := s[1..];
      assert Sorted(r);
      RunAt(r, t);
      if r != [] {
        assert s[0] <= r[0];
      }
    }
  }

  /** The entries of s that differ from t, in their original order. */
  function Without(s: seq<int>, t: int): (r: seq<int>)
    ensures |r| <= |s|
  {
    if s == [] then []
    else if s[0] == t then Without(s[1..], t) else [s[0]] + Without(s[1..], t)
  }

  /** Without(s, t) has every occurrence of t and nothing else taken out. */
  lemma {:induction false} WithoutCount(s: seq<int>, t: int)
    ensures multiset(Without(s, t)) == multiset(s)[t := 0]
  {
    if s != [] {
      assert s == [s[0]] + s[1..];
      WithoutCount(s[1..], t);
    }
  }

  lemma {:induction false} WithoutAppend(a: seq<int>, b: seq<int>, t: int)
    ensures Without(a + b, t) == Without(a, t) + Without(b, t)
  {
    if a == [] {
      assert a + b == b;
    } else {
      assert (a + b)[0] == a[0];
      assert (a + b)[1..] == a[1..] + b;
      WithoutAppend(a[1..], b, t);
    }
  }

  lemma {:induction false} WithoutAbsent(s: seq<int>, t: int)
    requires forall i :: 0 <= i < |s| ==> s[i] != t
    ensures Without(s, t) == s
  {
    if s != [] {
      WithoutAbsent(s[1..], t);
    }
  }

  /** Removing a value that does not occur changes nothing. */
  lemma {:induction false} WithoutNone(s: seq<int>, t: int)
    requires Count(s, t) == 0
    ensures Without(s, t) == s
  {
    if s != [] {
      WithoutNone(s[1..], t);
    }
  }

  lemma {:induction false} WithoutOnly(s: seq<int>, t: int)
    requires forall i :: 0 <= i < |s| ==> s[i] == t
    ensures Without(s, t) == []
  {
    if s != [] {
      WithoutOnly(s[1..], t);
    }
  }

  /** Removing every t from a sorted sequence cuts its run of t out. */
  lemma WithoutSorted(s: seq<int>, t: int)
    requires Sorted(s)
    ensures LeadingBelow(s, t) + Count(s, t) <= |s|
    ensures Without(s, t) == s[..LeadingBelow(s, t)] + s[LeadingBelow(s, t) + Count(s, t)..]
    ensures Sorted(Without(s, t))
    ensures Count(s, t) >= 1 ==> s[LeadingBelow(s, t)] == t
  {
    var lo := LeadingBelow(s, t);
    var hi := lo + Count(s, t);
    RunAt(s, t);
    assert Without(s, t) == s[..lo] + s[hi..] by {
      assert forall i :: 0 <= i < lo ==> s[i] != t;
      assert forall i :: hi <= i < |s| ==> s[i] != t;
      WithoutCut(s, t, lo, hi);
    }
    CutSorted(s, lo, hi);
  }

  /** Removing every t from a sequence whose only occurrences of t fill
      s[lo..hi] cuts that slice out. */
  lemma WithoutCut(s: seq<int>, t: int, lo: nat, hi: nat)
    requires lo <= hi <= |s|
    requires forall i :: 0 <= i < lo ==> s[i] != t
    requires forall i :: lo <= i < hi ==> s[i] == t
    requires forall i :: hi <= i < |s| ==> s[i] != t
    ensures Without(s, t) == s[..lo] + s[hi..]
  {
    var below, run, above := s[..lo], s[lo..hi], s[hi..];
    assert s == (below + run) + above;
    calc {
      Without(s, t);
      { WithoutAppend(below + run, above, t); }
      Without(below + run, t) + Without(above, t);
      { WithoutAppend(below, run, t); }
      Without(below, t) + Without(run, t) + Without(above, t);
      { WithoutAbsent(below, t); WithoutOnly(run, t); WithoutAbsent(above, t); }
      below + [] + above;
    }
  }

  /** In a sorted non-empty sequence the copies of the least entry are the
      first Count(s, s[0]) entries, and there is at least one. */
  lemma LeastRun(s: seq<int>)
    requires Sorted(s) && s != []
    ensures 1 <= Count(s, s[0]) <= |s|
    ensures Without(s, s[0]) == s[Count(s, s[0])..]
    ensures Sorted(s[Count(s, s[0])..])
  {
    CountIsMultiplicity(s, s[0]);
    WithoutSorted(s, s[0]);
    assert LeadingBelow(s, s[0]) == 0;
    assert s[..0] + s[Count(s, s[0])..] == s[Count(s, s[0])..];
  }

  /** In a sorted non-empty sequence the copies of the greatest entry are the
      last Count(s, s[|s| - 1]) entries, and there is at least one. */
  lemma GreatestRun(s: seq<int>)
    requires Sorted(s) && s != []
    ensures 1 <= Count(s, s[|s| - 1]) <= |s|
    ensures Without(s, s[|s| - 1]) == s[..|s| - Count(s, s[|s| - 1])]
    ensures Sorted(s[..|s| - Count(s, s[|s| - 1])])
  {
    var t := s[|s| - 1];
    var lo, c := LeadingBelow(s, t), Count(s, t);
    assert 1 <= c by {
      CountIsMultiplicity(s, t);
      assert t in s;
    }
    assert lo + c == |s| by {
      RunAt(s, t);
    }
    WithoutSorted(s, t);
    assert s[..lo] + s[lo + c..] == s[..lo];
  }

  /** Cutting a slice out of a sorted sequence leaves it sorted. */
  lemma CutSorted(s: seq<int>, lo: nat, hi: nat)
    requires Sorted(s) && lo <= hi <= |s|
    ensures Sorted(s[..lo] + s[hi..])
  {
    var r := s[..lo] + s[hi..];
    forall i, j | 0 <= i < j < |r| ensures r[i] <= r[j] {
      var i' := if i < lo then i else i + (hi - lo);
      var j' := if j < lo then j else j + (hi - lo);
      assert r[i] == s[i'] && r[j] == s[j'];
    }
  }

  /** Index of the last occurrence of t in s, or -1 when t does not occur. */
  function LastIndexOf(s: seq<int>, t: int): (r: int)
    ensures -1 <= r < |s|
    ensures r == -1 <==> t !in s
    ensures r >= 0 ==> s[r] == t && forall j :: r < j < |s| ==> s[j] != t
  {
    if s == [] then -1
    else if s[|s| - 1] == t then |s| - 1
    else
      assert s == s[..|s| - 1] + [s[|s| - 1]];
      LastIndexOf(s[..|s| - 1], t)
  }

  /** One step of a forward scan for the last occurrence of t. */
  lemma LastIndexOfStep(s: seq<int>, i: nat, t: int)
    requires i < |s|
    ensures LastIndexOf(s[..i + 1], t) == if s[i] == t then i else LastIndexOf(s[..i], t)
  {
    var p := s[..i + 1];
    assert p[|p| - 1] == s[i] && p[..|p| - 1] == s[..i];
  }

  /** s with the entry at index i taken out. */
  function RemoveAt(s: seq<int>, i: nat): (r: seq<int>)
    requires i < |s|
    ensures |r| == |s| - 1
  {
    s[..i] + s[i + 1..]
  }

  /** Removing the entry at i takes exactly one copy of s[i] out of the
      entries. */
  lemma RemoveAtCount(s: seq<int>, i: nat)
    requires i < |s|
    ensures multiset(RemoveAt(s, i)) == multiset(s) - multiset{s[i]}
  {
    assert s == s[..i] + [s[i]] + s[i + 1..];
  }

  lemma RemoveAtSorted(s: seq<int>, i: nat)
    requires Sorted(s) && i < |s|
    ensures Sorted(RemoveAt(s, i))
  {
    CutSorted(s, i, i + 1);
  }

  /** In a sorted sequence it does not matter which occurrence of t is
      removed: taking out any of them gives the same sequence as taking out
      the last one. */
  lemma RemoveAnyOccurrence(s: seq<int>, t: int, i: nat)
    requires Sorted(s) && i < |s| && s[i] == t
    ensures RemoveAt(s, i) == RemoveAt(s, LastIndexOf(s, t))
  {
    var j := LastIndexOf(s, t);
    assert i <= j;
    var a, b := RemoveAt(s, i), RemoveAt(s, j);
    forall k | 0 <= k < |a| ensures a[k] == b[k] {
      if i <= k < j {
        assert s[i] <= s[k] <= s[k + 1] <= s[j];
      }
    }
  }

  /** Two sorted sequences joined so that every entry of the first is at most
      every entry of the second form a sorted sequence. */
  lemma SortedJoin(a: seq<int>, b: seq<int>)
    requires Sorted(a) && Sorted(b)
    requires forall i, j :: 0 <= i < |a| && 0 <= j < |b| ==> a[i] <= b[j]
    ensures Sorted(a + b)
  {
    var r := a + b;
    forall i, j | 0 <= i < j < |r| ensures r[i] <= r[j] {
      if j < |a| {
        assert r[i] == a[i] && r[j] == a[j];
      } else if i < |a| {
        assert r[i] == a[i] && r[j] == b[j - |a|];
      } else {
        assert r[i] == b[i - |a|] && r[j] == b[j - |a|];
      }
    }
  }

  /** Where the backward scan of insert stops for x: just after the last
      entry that is at most x, everything from there on being greater than x.
      In a sorted sequence that is the number of entries at most x. */
  function InsertionPoint(s: seq<int>, x: int): (p: nat)
    ensures p <= |s|
    ensures forall k :: p <= k < |s| ==> s[k] > x
    ensures p > 0 ==> s[p - 1] <= x
  {
    if s == [] || s[|s| - 1] <= x then |s| else InsertionPoint(s[..|s| - 1], x)
  }

  /** The insertion point is the only index that the scan can stop at. */
  lemma {:induction false} InsertionPointUnique(s: seq<int>, x: int, p: nat)
    requires p <= |s|
    requires forall k :: p <= k < |s| ==> s[k] > x
    requires p > 0 ==> s[p - 1] <= x
    ensures p == InsertionPoint(s, x)
  {
    if p < |s| {
      var s' := s[..|s| - 1];
      assert forall k :: p <= k < |s'| ==> s'[k] > x;
      InsertionPointUnique(s', x, p);
    }
  }

  /** s with x placed at its insertion point: the contents of a container
      after insert(x). */
  function Place(s: seq<int>, x: int): (r: seq<int>)
    ensures |r| == |s| + 1
  {
    var p := InsertionPoint(s, x);
    s[..p] + [x] + s[p..]
  }

  /** Placing x adds exactly one copy of x to the entries. */
  lemma PlaceCount(s: seq<int>, x: int)
    ensures multiset(Place(s, x)) == multiset(s) + multiset{x}
  {
    var p := InsertionPoint(s, x);
    assert s == s[..p] + s[p..];
  }

  /** Placing x keeps a sorted sequence sorted. */
  lemma PlaceSorted(s: seq<int>, x: int)
    requires Sorted(s)
    ensures Sorted(Place(s, x))
  {
    var k := InsertionPoint(s, x);
    var lower, upper := s[..k], s[k..];
    forall i | 0 <= i < |lower| ensures lower[i] <= x {
      assert lower[i] == s[i] <= s[k - 1];
    }
    SortedJoin(lower, [x]);
    var front := lower + [x];
    assert forall i :: 0 <= i < |front| ==> front[i] <= x;
    assert forall j :: 0 <= j < |upper| ==> upper[j] > x;
    SortedJoin(front, upper);
  }

  /** The contents after inserting the entries of xs one at a time, first to
      last, into a container holding s. */
  function InsertAll(s: seq<int>, xs: seq<int>): (r: seq<int>)
    ensures |r| == |s| + |xs|
  {
    if xs == [] then s else Place(InsertAll(s, xs[..|xs| - 1]), xs[|xs| - 1])
  }

  lemma {:induction false} InsertAllCount(s: seq<int>, xs: seq<int>)
    ensures multiset(InsertAll(s, xs)) == multiset(s) + multiset(xs)
  {
    if xs != [] {
      var front := xs[..|xs| - 1];
      assert xs == front + [xs[|xs| - 1]];
      InsertAllCount(s, front);
      PlaceCount(InsertAll(s, front), xs[|xs| - 1]);
    }
  }

  lemma {:induction false} InsertAllSorted(s: seq<int>, xs: seq<int>)
    requires Sorted(s)
    ensures Sorted(InsertAll(s, xs))
  {
    if xs != [] {
      InsertAllSorted(s, xs[..|xs| - 1]);
      PlaceSorted(InsertAll(s, xs[..|xs| - 1]), xs[|xs| - 1]);
    }
  }

  /** Inserting into a sorted sequence yields the sorted arrangement of all
      the entries: any sorted sequence holding the same entries equals it. */
  lemma InsertAllIsSortedUnion(s: seq<int>, xs: seq<int>, r: seq<int>)
    requires Sorted(s) && Sorted(r)
    requires multiset(r) == multiset(s) + multiset(xs)
    ensures InsertAll(s, xs) == r
  {
    InsertAllCount(s, xs);
    InsertAllSorted(s, xs);
    SortedUnique(InsertAll(s, xs), r);
  }

  /** The order in which two batches of entries are inserted into an empty
      container does not matter. */
  lemma InsertAllCommutes(a: seq<int>, b: seq<int>)
    ensures InsertAll(InsertAll([], a), b) == InsertAll(InsertAll([], b), a)
  {
    InsertAllSorted([], a);
    InsertAllSorted([], b);
    InsertAllCount([], a);
    InsertAllCount([], b);
    InsertAllSorted(InsertAll([], b), a);
    InsertAllCount(InsertAll([], b), a);
    InsertAllIsSortedUnion(InsertAll([], a), b, InsertAll(InsertAll([], b), a));
  }

  /** Inserting the entries of a sorted sequence into an empty container
      rebuilds that very sequence. */
  lemma InsertAllRebuilds(s: seq<int>)
    requires Sorted(s)
    ensures InsertAll([], s) == s
  {
    InsertAllIsSortedUnion([], s, s);
  }

  /** A sorted sequence is determined by its multiset of entries: two sorted
      sequences with the same entries are equal position by position. */
  lemma {:induction false} SortedUnique(a: seq<int>, b: seq<int>)
    requires Sorted(a) && Sorted(b)
    requires multiset(a) == multiset(b)
    ensures a == b
  {
    assert |a| == |multiset(a)| == |multiset(b)| == |b|;
    if a != [] {
      assert a[0] in multiset(b) && b[0] in multiset(a);
      HeadIsLeast(b, a[0]);
      HeadIsLeast(a, b[0]);
      assert a[0] == b[0];
      assert multiset(a) == multiset{a[0]} + multiset(a[1..]) by {
        assert a == [a[0]] + a[1..];
      }
      assert multiset(b) == multiset{b[0]} + multiset(b[1..]) by {
        assert b == [b[0]] + b[1..];
      }
      assert multiset(a[1..]) == multiset(a) - multiset{a[0]};
      assert multiset(b[1..]) == multiset(b) - multiset{b[0]};
      SortedTail(a);
      SortedTail(b);
      SortedUnique(a[1..], b[1..]);
    }
  }

  /** Dropping the first entry of a sorted sequence leaves it sorted. */
  lemma SortedTail(s: seq<int>)
    requires Sorted(s) && s != []
    ensures Sorted(s[1..])
  {
  }

  /** The first entry of a sorted sequence is at most each of its entries. */
  lemma HeadIsLeast(s: seq<int>, x: int)
    requires Sorted(s) && x in multiset(s)
    ensures s[0] <= x
  {
    var i :| 0 <= i < |s| && s[i] == x;
  }

  /** For sorted sequences, position-by-position equality and equality of the
      multisets of entries coincide. */
  lemma SortedEqualIff(a: seq<int>, b: seq<int>)
    requires Sorted(a) && Sorted(b)
    ensures a == b <==> multiset(a) == multiset(b)
  {
    if multiset(a) == multiset(b) {
      SortedUnique(a, b);
    }
  }

  /** Inserting x into a sorted sequence and then removing the last
      occurrence of x gives back the original sequence. */
  lemma InsertDeleteRoundTrip(s: seq<int>, s2: seq<int>, x: int)
    requires Sorted(s) && Sorted(s2)
    requires multiset(s2) == multiset(s) + multiset{x}
    ensures x in s2
    ensures RemoveAt(s2, LastIndexOf(s2, x)) == s
  {
    assert x in multiset(s2);
    var r := RemoveAt(s2, LastIndexOf(s2, x));
    RemoveAtSorted(s2, LastIndexOf(s2, x));
    RemoveAtCount(s2, LastIndexOf(s2, x));
    assert multiset(r) == multiset(s);
    SortedUnique(r, s);
  }

  /** insert(x) followed by delOne(x) gives back the sequence s itself. */
  lemma PlaceThenRemove(s: seq<int>, x: int)
    requires Sorted(s)
    ensures x in Place(s, x)
    ensures RemoveAt(Place(s, x), LastIndexOf(Place(s, x), x)) == s
  {
    PlaceSorted(s, x);
    PlaceCount(s, x);
    InsertDeleteRoundTrip(s, Place(s, x), x);
  }

  /** After every t is removed, t no longer occurs and every other value
      keeps its number of occurrences. */
  lemma WithoutRemovesAll(s: seq<int>, t: int, u: int)
    ensures Count(Without(s, t), t) == 0
    ensures u != t ==> Count(Without(s, t), u) == Count(s, u)
  {
    WithoutCount(s, t);
    CountIsMultiplicity(Without(s, t), t);
    CountIsMultiplicity(Without(s, t), u);
    CountIsMultiplicity(s, u);
  }

  /** Adding a container to itself: {1, 3, 5} becomes {1, 1, 3, 3, 5, 5}. */
  lemma SelfAppendExample()
    ensures InsertAll([1, 3, 5], [1, 3, 5]) == [1, 1, 3, 3, 5, 5]
  {
    InsertAllIsSortedUnion([1, 3, 5], [1, 3, 5], [1, 1, 3, 3, 5, 5]);
  }

  /** Removing the last occurrence of t takes exactly one copy of t out. */
  lemma RemoveLastCount(s: seq<int>, t: int)
    requires t in s
    ensures multiset(RemoveAt(s, LastIndexOf(s, t))) == multiset(s) - multiset{t}
  {
    RemoveAtCount(s, LastIndexOf(s, t));
  }

  /** Twice the median: the sum of the two middle entries, which are one and
      the same entry when the length is odd. */
  function TwiceMedian(s: seq<int>): (m: int)
    requires |s| > 0
    ensures |s| % 2 == 1 ==> m == 2 * s[|s| / 2]
  {
    s[(|s| - 1) / 2] + s[|s| / 2]
  }

  /** The median splits a sorted sequence in halves: the first half of the
      entries (including the middle one when the length is odd) are at most
      the median, the second half at least the median. */
  lemma MedianSplits(s: seq<int>)
    requires Sorted(s) && |s| > 0
    ensures forall i :: 0 <= i <= (|s| - 1) / 2 ==> 2 * s[i] <= TwiceMedian(s)
    ensures forall i :: |s| / 2 <= i < |s| ==> TwiceMedian(s) <= 2 * s[i]
    ensures (|s| - 1) / 2 + 1 == |s| - |s| / 2
  {
  }

  lemma MedianExamples()
    ensures TwiceMedian([1, 2, 3, 4, 5]) == 2 * 3
    ensures TwiceMedian([1, 2, 3, 4, 5, 6]) == 3 + 4
  {
  }

  /** A sequence that agrees with s below lo and with s shifted down by gap
      from lo on is s with the slice [lo, lo + gap) cut out. */
  lemma ShiftedIsCut(s: seq<int>, d: seq<int>, lo: nat, gap: nat)
    requires lo + gap <= |s| && |d| == |s| - gap
    requires forall k :: 0 <= k < lo ==> d[k] == s[k]
    requires forall k :: lo <= k < |d| ==> d[k] == s[k + gap]
    ensures d == s[..lo] + s[lo + gap..]
  {
  }

  /** A sequence that agrees with s below p, holds x at p and agrees with s
      shifted up by one above p is s with x placed at p. */
  lemma ShiftedIsPlace(s: seq<int>, d: seq<int>, p: nat, x: int)
    requires p <= |s| && |d| == |s| + 1
    requires forall k :: 0 <= k < p ==> d[k] == s[k]
    requires d[p] == x
    requires forall k :: p < k < |d| ==> d[k] == s[k - 1]
    ensures d == s[..p] + [x] + s[p..]
  {
  }
}
