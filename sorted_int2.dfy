/** The SortedInt2 container: an ordered multiset of integers kept in a
    growable array.  The array's length is the container's capacity; the
    first `used` slots hold the entries in non-decreasing order and the
    remaining slots are "don't care" values. */
module SortedIntegers {
  import opened SortedSeq

  /** Capacity given to a container constructed without a valid one. */
  const DefaultCapacity := 1

  /** Capacity that resize actually allocates for a request: first raised to
      `used` when below it, then raised to 1 when still below that; that is,
      the largest of the request, `used` and 1. */
  function ClampCapacity(request: int, used: nat): (c: nat)
    ensures c >= request && c >= used && c >= 1
    ensures c == request || c == used || c == 1
  {
    var atLeastUsed := if request < used then used else request;
    if atLeastUsed < 1 then 1 else atLeastUsed
  }

  /** Capacity to which insert grows a full container: the source computes
      capacity * 1.5 + 1 in floating point and truncates it, which for a
      non-negative capacity is capacity + capacity / 2 + 1. */
  function GrownCapacity(capacity: nat): (c: nat)
    ensures c > capacity
    ensures 2 * c == 3 * capacity + 2 || 2 * c == 3 * capacity + 1
  {
    capacity + capacity / 2 + 1
  }

  class SortedInt2 {
    var data: array<int>
    var used: nat
    /** The entries, lowest first. */
    ghost var Contents: seq<int>

    /** Class invariant: at least one slot, no more entries than slots, the
        entries are data[0..used) and they are sorted in non-decreasing
        order. */
    ghost predicate Valid()
      reads this, data
    {
      1 <= data.Length && used <= data.Length && Contents == data[..used] && Sorted(Contents)
    }

    /** The capacity field: the number of slots of the array. */
    function Capacity(): (c: nat)
      reads this
      ensures c == data.Length
    {
      data.Length
    }

    /** An empty container; a capacity below 1 is replaced by DefaultCapacity. */
    constructor (initCapacity: int := DefaultCapacity)
      ensures Valid() && fresh(data)
      ensures Contents == []
      ensures Capacity() == if initCapacity < 1 then DefaultCapacity else initCapacity
    {
      var n := if initCapacity < 1 then DefaultCapacity else initCapacity;
      data := new int[n];
      used := 0;
      Contents := [];
    }

    /** The copy constructor: a fresh array of the source's capacity holding
        the source's entries. */
    constructor Copy(src: SortedInt2)
      requires src.Valid()
      ensures Valid() && fresh(data)
      ensures Contents == src.Contents && Capacity() == src.Capacity()
    {
      var a := new int[src.data.Length];
      var i := 0;
      while i < src.used
        modifies a
        invariant 0 <= i <= src.used
        invariant a[..i] == src.data[..i]
      {
        a[i] := src.data[i];
        i := i + 1;
      }
      data := a;
      used := src.used;
      Contents := src.Contents;
    }

    /** Reallocates the array with capacity ClampCapacity(newCapacity, used)
        and copies the entries over; the entries and their order are kept. */
    method Resize(newCapacity: int)
      requires Valid()
      modifies this
      ensures Valid() && fresh(data)
      ensures Capacity() == ClampCapacity(newCapacity, used)
      ensures used == old(used) && Contents == old(Contents)
    {
      var n := newCapacity;
      if n < used {
        n := used;
      }
      if n < 1 {
        n := 1;
      }
      var larger := new int[n];
      var i := 0;
      while i < used
        modifies larger
        invariant 0 <= i <= used <= n == larger.Length
        invariant data == old(data) && used == old(used)
        invariant larger[..i] == data[..i]
      {
        larger[i] := data[i];
        i := i + 1;
      }
      assert larger[..used] == Contents;
      data := larger;
    }

    function IsEmpty(): (b: bool)
      reads this, data
      requires Valid()
      ensures b <==> Contents == []
    {
      used == 0
    }

    function Size(): (n: nat)
      reads this, data
      requires Valid()
      ensures n == |Contents|
    {
      used
    }

    /** The entry at 1-based position `position`: at least every entry
        before it and at most every entry after it, so position 1 holds the
        lowest entry and position Size() the highest. */
    function ValAt(position: int): (v: int)
      reads this, data
      requires Valid() && used != 0 && 1 <= position <= used
      ensures v == Contents[position - 1]
    {
      data[position - 1]
    }

    /** Positions follow the order of the values: position 1 holds the
        lowest entry and position Size() the highest. */
    lemma ValAtOrdered(p: int, q: int)
      requires Valid() && 1 <= p <= q <= used
      ensures ValAt(p) <= ValAt(q)
      ensures ValAt(1) == FindMin() && ValAt(used) == FindMax()
    {
      assert Contents[p - 1] <= Contents[q - 1];
    }

    function FindMin(): (m: int)
      reads this, data
      requires Valid() && used != 0
      ensures m in Contents
      ensures forall x :: x in Contents ==> m <= x
    {
      data[0]
    }

    function FindMax(): (m: int)
      reads this, data
      requires Valid() && used != 0
      ensures m in Contents
      ensures forall x :: x in Contents ==> x <= m
    {
      data[used - 1]
    }

    /** Twice the median (kept as an integer so that it is exact): the sum of
        the two middle entries when the number of entries is even, twice the
        middle entry when it is odd. */
    function FindMed(): (twiceMed: int)
      reads this, data
      requires Valid() && used != 0
      ensures twiceMed == TwiceMedian(Contents)
      ensures forall i :: 0 <= i <= (used - 1) / 2 ==> 2 * Contents[i] <= twiceMed
      ensures forall i :: used / 2 <= i < used ==> twiceMed <= 2 * Contents[i]
    {
      MedianSplits(Contents);
      if used % 2 == 0 then data[used / 2] + data[used / 2 - 1] else 2 * data[used / 2]
    }

    /** Number of occurrences of t among the entries. */
    method FindFreq(t: int) returns (freq: nat)
      requires Valid()
      ensures freq == Count(Contents, t)
    {
      ghost var s := Contents;
      freq := 0;
      var i := 0;
      while i < used
        invariant 0 <= i <= used == |s|
        invariant freq + Count(s[i..], t) == Count(s, t)
      {
        assert s[i..][1..] == s[i + 1..];
        if data[i] == t {
          freq := freq + 1;
        }
        i := i + 1;
      }
    }

    /** Assignment: afterwards this container holds the entries of rhs, with
        rhs's capacity; a new array is allocated only when the capacities
        differ, and assigning a container to itself changes nothing. */
    method Assign(rhs: SortedInt2)
      requires Valid() && rhs.Valid()
      modifies this, data
      ensures Valid() && rhs.Valid()
      ensures Contents == old(rhs.Contents) && rhs.Contents == old(rhs.Contents)
      ensures rhs.used == old(rhs.used) && rhs.data == old(rhs.data)
      ensures Capacity() == old(rhs.Capacity())
      ensures old(Capacity()) == old(rhs.Capacity()) ==> data == old(data)
      ensures old(Capacity()) != old(rhs.Capacity()) ==> fresh(data)
      ensures rhs == this ==> used == old(used) && data[..] == old(data[..])
    {
      if rhs == this {
        return;
      }
      ghost var sameCapacity := data.Length == rhs.data.Length;
      if data.Length != rhs.data.Length {
        data := new int[rhs.data.Length];
      }
      used := rhs.used;
      var i := 0;
      while i < used
        modifies data
        invariant 0 <= i <= used == rhs.used <= data.Length == rhs.data.Length
        invariant if sameCapacity then data == old(data) else fresh(data)
        invariant rhs.data[..rhs.used] == old(rhs.data[..rhs.used])
        invariant data[..i] == rhs.data[..i]
      {
        data[i] := rhs.data[i];
        i := i + 1;
      }
      Contents := rhs.Contents;
    }

    /** Empties the container; its capacity is kept. */
    method Reset()
      requires Valid()
      modifies this
      ensures Valid() && data == old(data)
      ensures Contents == []
    {
      used := 0;
      Contents := [];
    }

    /** Adds x: a full container first grows to GrownCapacity of its
        capacity, then the entries greater than x move one slot up and x
        goes into the gap they leave. */
    method Insert(x: int)
      requires Valid()
      modifies this, data
      ensures Valid()
      ensures Contents == Place(old(Contents), x)
      ensures old(used) == old(Capacity()) ==> fresh(data) && Capacity() == GrownCapacity(old(Capacity()))
      ensures old(used) < old(Capacity()) ==> data == old(data)
    {
      if used == data.Length {
        Resize(data.Length + data.Length / 2 + 1);
      }
      ghost var s := Contents;
      assert Sorted(Place(s, x)) by {
        PlaceSorted(s, x);
      }
      ShiftUp(data, used, x);
      used := used + 1;
      Contents := Place(s, x);
    }

    /** Removes every occurrence of the lowest entry, shifting the rest
        down, and returns how many were removed. */
    method DelMin() returns (freq: nat)
      requires Valid() && used != 0
      modifies this, data
      ensures Valid() && data == old(data)
      ensures freq == Count(old(Contents), old(Contents[0])) >= 1
      ensures Contents == old(Contents)[freq..] == Without(old(Contents), old(Contents[0]))
    {
      ghost var s := Contents;
      var min := FindMin();
      freq := FindFreq(min);
      LeastRun(s);
      assert s[..0] + s[freq..] == s[freq..];
      ShiftDown(data, 0, freq, used);
      used := used - freq;
      Contents := s[freq..];
    }

    /** Removes every occurrence of the highest entry, which are the last
        entries, and returns how many were removed. */
    method DelMax() returns (freq: nat)
      requires Valid() && used != 0
      modifies this
      ensures Valid() && data == old(data)
      ensures freq == Count(old(Contents), old(Contents[used - 1])) >= 1
      ensures Contents == old(Contents)[..old(used) - freq] == Without(old(Contents), old(Contents[used - 1]))
    {
      ghost var s := Contents;
      var max := FindMax();
      freq := FindFreq(max);
      GreatestRun(s);
      assert data[..used - freq] == s[..used - freq];
      used := used - freq;
      Contents := s[..used];
    }

    /** Removes the last occurrence of t, shifting the entries after it down
        by one, and reports whether t occurred at all. */
    method DelOne(t: int) returns (found: bool)
      requires Valid()
      modifies this, data
      ensures Valid() && data == old(data)
      ensures found <==> t in old(Contents)
      ensures found ==> Contents == RemoveAt(old(Contents), LastIndexOf(old(Contents), t))
      ensures !found ==> used == old(used) && data[..] == old(data[..]) && Contents == old(Contents)
    {
      ghost var s := Contents;
      var posi := LastPosition(data, used, t);
      if posi != -1 {
        ghost var r := RemoveAt(s, posi);
        assert Sorted(r) by {
          RemoveAtSorted(s, posi);
        }
        ShiftDown(data, posi, 1, used);
        assert data[..used - 1] == r;
        used := used - 1;
        Contents := r;
        found := true;
      } else {
        found := false;
      }
    }

    /** Removes every occurrence of t and returns how many there were (0,
        with nothing changed, when t does not occur).  A forward scan finds
        the start of the run of t and the entries after the run are moved
        down over it. */
    method DelAll(t: int) returns (freq: nat)
      requires Valid()
      modifies this, data
      ensures Valid() && data == old(data)
      ensures freq == Count(old(Contents), t)
      ensures Contents == Without(old(Contents), t)
      ensures freq == 0 ==> used == old(used) && data[..] == old(data[..]) && Contents == old(Contents)
    {
      ghost var s := Contents;
      freq := FindFreq(t);
      if freq == 0 {
        assert Without(s, t) == s by {
          WithoutNone(s, t);
        }
        return;
      }
      assert Sorted(Without(s, t)) by {
        WithoutSorted(s, t);
      }
      CutRun(data, used, t, freq);
      used := used - freq;
      Contents := Without(s, t);
    }

    /** Adds every entry of addend.  The addend is taken by value (a copy is
        made first), so addend may be this container itself: the entries
        added are those it had on entry. */
    method AddAll(addend: SortedInt2)
      requires Valid() && addend.Valid()
      modifies this, data
      ensures Valid() && (data == old(data) || fresh(data))
      ensures Contents == InsertAll(old(Contents), old(addend.Contents))
    {
      var copy := new SortedInt2.Copy(addend);
      InsertEach(this, copy);
    }
  }

  /** operator==: the two containers have the same number of entries and
      equal entries at every position. */
  method Equal(lhs: SortedInt2, rhs: SortedInt2) returns (eq: bool)
    requires lhs.Valid() && rhs.Valid()
    ensures eq <==> lhs.Contents == rhs.Contents
  {
    if lhs.Size() != rhs.Size() {
      return false;
    }
    var i := 0;
    while i < lhs.used
      invariant 0 <= i <= lhs.used
      invariant lhs.data[..i] == rhs.data[..i]
    {
      if lhs.data[i] != rhs.data[i] {
        assert lhs.Contents[i] != rhs.Contents[i];
        return false;
      }
      i := i + 1;
    }
    assert lhs.Contents == lhs.data[..i];
    return true;
  }

  /** operator+: a new container, of the default capacity, into which the
      entries of s1 and then those of s2 are inserted one at a time. */
  method Concat(s1: SortedInt2, s2: SortedInt2) returns (s3: SortedInt2)
    requires s1.Valid() && s2.Valid()
    ensures fresh(s3) && fresh(s3.data) && s3.Valid()
    ensures s3.Contents == InsertAll(InsertAll([], s1.Contents), s2.Contents)
  {
    s3 := new SortedInt2();
    InsertEach(s3, s1);
    InsertEach(s3, s2);
  }

  /** The loop of operator+= and each loop of operator+: the entries of src,
      read at positions 1 to size() (valAt(i + 1) reads the slot data[i]), are
      inserted into dst one at a time. */
  method InsertEach(dst: SortedInt2, src: SortedInt2)
    requires dst.Valid() && src.Valid() && dst != src && dst.data != src.data
    modifies dst, dst.data
    ensures dst.Valid() && (dst.data == old(dst.data) || fresh(dst.data))
    ensures dst.Contents == InsertAll(old(dst.Contents), src.Contents)
  {
    ghost var c := src.Contents;
    var count := src.Size();
    var i := 1;
    while i <= count
      invariant 1 <= i <= count + 1
      invariant dst.Valid() && (dst.data == old(dst.data) || fresh(dst.data))
      invariant dst.Contents == InsertAll(old(dst.Contents), c[..i - 1])
    {
      assert c[..i][..i - 1] == c[..i - 1] && c[..i][i - 1] == c[i - 1];
      dst.Insert(src.ValAt(i));
      assert dst.Contents == InsertAll(old(dst.Contents), c[..i]);
      i := i + 1;
    }
    assert c[..count] == c;
  }

  /** The scan of delOne over the first n slots of a: the index of the last
      slot holding t, -1 when there is none. */
  method LastPosition(a: array<int>, n: nat, t: int) returns (posi: int)
    requires n <= a.Length
    ensures posi == LastIndexOf(a[..n], t)
  {
    posi := -1;
    var i := 0;
    while i < n
      invariant 0 <= i <= n
      invariant posi == LastIndexOf(a[..i], t)
    {
      LastIndexOfStep(a[..n], i, t);
      assert a[..n][..i + 1] == a[..i + 1] && a[..n][..i] == a[..i];
      if a[i] == t {
        posi := i;
      }
      i := i + 1;
    }
  }

  /** The shifting loop of insert: from slot n down, every slot whose left
      neighbour is greater than x receives that neighbour, and x goes into
      the slot where the scan stops.  The slots beyond n are left as they
      were. */
  method ShiftUp(a: array<int>, n: nat, x: int)
    requires n < a.Length
    modifies a
    ensures a[..n + 1] == Place(old(a[..n]), x)
    ensures a[n + 1..] == old(a[n + 1..])
  {
    ghost var s := a[..n];
    var i := OpenGap(a, n, x);
    a[i] := x;
    InsertionPointUnique(s, x, i);
    ShiftedIsPlace(s, a[..n + 1], i, x);
  }

  /** The scan of ShiftUp without the final store: it moves every entry of
      a[..n] greater than x one slot up and returns the slot left free. */
  method OpenGap(a: array<int>, n: nat, x: int) returns (i: nat)
    requires n < a.Length
    modifies a
    ensures i <= n
    ensures forall k :: 0 <= k < i ==> a[k] == old(a[k])
    ensures forall k :: i < k <= n ==> a[k] == old(a[k - 1])
    ensures forall k :: n < k < a.Length ==> a[k] == old(a[k])
    ensures forall k :: i <= k < n ==> old(a[k]) > x
    ensures i > 0 ==> old(a[i - 1]) <= x
  {
    i := n;
    while i > 0 && a[i - 1] > x
      invariant 0 <= i <= n
      invariant forall k :: 0 <= k < i ==> a[k] == old(a[k])
      invariant forall k :: i < k <= n ==> a[k] == old(a[k - 1])
      invariant forall k :: n < k < a.Length ==> a[k] == old(a[k])
      invariant forall k :: i <= k < n ==> old(a[k]) > x
    {
      a[i] := a[i - 1];
      i := i - 1;
    }
  }

  /** The shifting loop shared by delMin, delOne and delAll: for i from lo
      up to n - gap, slot i receives the value in slot i + gap.  The slots
      [lo, lo + gap) are overwritten and the tail [n - gap, length) is left as
      it was. */
  method ShiftDown(a: array<int>, lo: nat, gap: nat, n: nat)
    requires lo + gap <= n <= a.Length
    modifies a
    ensures a[..n - gap] == old(a[..n])[..lo] + old(a[..n])[lo + gap..]
    ensures a[n - gap..] == old(a[n - gap..])
  {
    var i := lo;
    while i < n - gap
      invariant lo <= i <= n - gap
      invariant forall k :: 0 <= k < lo ==> a[k] == old(a[k])
      invariant forall k :: lo <= k < i ==> a[k] == old(a[gap + k])
      invariant forall k :: i <= k < a.Length ==> a[k] == old(a[k])
    {
      a[i] := a[gap + i];
      i := i + 1;
    }
    ShiftedIsCut(old(a[..n]), a[..n - gap], lo, gap);
  }

  /** The loops of delAll on the first n slots of a, which hold a sorted
      sequence with freq >= 1 occurrences of t: a forward scan finds the first
      t and the entries after the run of t are shifted down over it. */
  method CutRun(a: array<int>, n: nat, t: int, freq: nat)
    requires n <= a.Length && Sorted(a[..n])
    requires freq == Count(a[..n], t) >= 1
    modifies a
    ensures a[..n - freq] == Without(old(a[..n]), t)
  {
    ghost var s := a[..n];
    ghost var lo := LeadingBelow(s, t);
    ghost var rest := n - freq;
    assert lo + freq <= n && s[lo] == t by {
      WithoutSorted(s, t);
    }
    ghost var r := s[..lo] + s[lo + freq..];
    assert Without(s, t) == r by {
      WithoutSorted(s, t);
    }
    assert lo == rest ==> r == s[..rest];
    var i := 0;
    while i < n
      invariant 0 <= i <= n
      invariant i <= lo ==> a[..n] == s
      invariant i > lo ==> i > rest && a[..rest] == r
    {
      if a[i] == t && i < n - freq {
        assert i == lo by {
          assert i <= lo && a[..n][i] == s[i] == t;
        }
        ShiftDown(a, i, freq, n);
        assert a[..rest] == r;
        i := n - freq;
      } else if i == lo {
        assert a[..rest] == a[..n][..rest];
      }
      i := i + 1;
    }
  }
}
