/** Two places where SortedInt2.cpp does not do what its documentation and
    its class invariant promise, each modelled as written next to the
    corrected behaviour.  The SortedIntegers module implements the corrected
    behaviour: its capacity is the array length, and its delOne shift
    (ShiftDown) stops one slot earlier. */
module AsWritten {
  import opened SortedSeq
  import opened SortedIntegers

  datatype Option<T> = None | Some(value: T)

  // ---------------------------------------------------------------------
  // The constructor's capacity field.
  // ---------------------------------------------------------------------

  /** The bookkeeping of a container: the `capacity` field, the number of
      slots actually allocated for `data`, and `used`. */
  datatype Layout = Layout(capacity: int, slots: nat, used: nat)

  /** What the class invariant requires of the bookkeeping: the capacity
      field is the number of allocated slots, there is at least one, and
      the entries fit. */
  predicate Consistent(l: Layout) {
    l.capacity == l.slots && 1 <= l.slots && l.used <= l.slots
  }

  /** The constructor as written: the initialiser list copies the argument
      into the capacity field, and only the array allocation sees the
      argument raised to DefaultCapacity. */
  function ConstructAsWritten(initCapacity: int): (l: Layout)
    ensures l.used == 0 && l.slots >= 1
    ensures initCapacity >= 1 ==> l == ConstructCorrected(initCapacity)
    ensures initCapacity < 1 ==> l.slots == DefaultCapacity && l.capacity == initCapacity
    ensures initCapacity < 1 ==> !Consistent(l)
  {
    Layout(initCapacity, if initCapacity < 1 then DefaultCapacity else initCapacity, 0)
  }

  /** The constructor as documented: both the capacity field and the
      allocation use the argument, or DefaultCapacity when it is below 1.
      This is the bookkeeping of SortedIntegers.SortedInt2's constructor,
      whose capacity is its array length. */
  function ConstructCorrected(initCapacity: int): (l: Layout)
    ensures Consistent(l) && l.used == 0
    ensures initCapacity >= 1 ==> l.capacity == initCapacity
    ensures initCapacity < 1 ==> l.capacity == DefaultCapacity
  {
    var c := if initCapacity < 1 then DefaultCapacity else initCapacity;
    Layout(c, c, 0)
  }

  /** One insert, reduced to its effect on the bookkeeping.  The container
      grows only when used equals the capacity field; the entry is then
      stored in slot `used`, which is None when that slot was never
      allocated. */
  function InsertAsWritten(l: Layout): (r: Option<Layout>)
    ensures r.Some? <==> l.used == l.capacity || l.used < l.slots
    ensures r.Some? ==> r.value.used == l.used + 1
  {
    var grown :=
      if l.used == l.capacity then
        var c := ClampCapacity(GrownCapacity(l.used), l.used);
        Layout(c, c, l.used)
      else l;
    if grown.used < grown.slots then Some(grown.(used := grown.used + 1)) else None
  }

  /** n inserts in a row, None as soon as one of them writes outside the
      array. */
  function InsertTimes(l: Layout, n: nat): (r: Option<Layout>)
    ensures r.Some? ==> r.value.used == l.used + n
  {
    if n == 0 then Some(l)
    else match InsertTimes(l, n - 1)
      case None => None
      case Some(l') => InsertAsWritten(l')
  }

  /** The defect: after a construction with a negative capacity the field
      never equals used, so the one-slot array never grows, and the second
      insert writes data[1]. */
  lemma NegativeCapacityOverflows(initCapacity: int)
    requires initCapacity < 0
    ensures InsertTimes(ConstructAsWritten(initCapacity), 1).Some?
    ensures InsertTimes(ConstructAsWritten(initCapacity), 2).None?
  {
    var l := ConstructAsWritten(initCapacity);
    assert InsertTimes(l, 1) == Some(Layout(initCapacity, 1, 1));
  }

  /** Insert keeps consistent bookkeeping consistent, and then never writes
      outside the array. */
  lemma InsertKeepsConsistent(l: Layout)
    requires Consistent(l)
    ensures InsertAsWritten(l).Some? && Consistent(InsertAsWritten(l).value)
  {
  }

  /** With the corrected constructor any number of inserts stays inside the
      array. */
  lemma {:induction false} CorrectedNeverOverflows(initCapacity: int, n: nat)
    ensures InsertTimes(ConstructCorrected(initCapacity), n).Some?
    ensures Consistent(InsertTimes(ConstructCorrected(initCapacity), n).value)
  {
    if n > 0 {
      CorrectedNeverOverflows(initCapacity, n - 1);
      InsertKeepsConsistent(InsertTimes(ConstructCorrected(initCapacity), n - 1).value);
    }
  }

  // ---------------------------------------------------------------------
  // The shift loop of delOne.
  // ---------------------------------------------------------------------

  /** The shift loop of delOne as written, on the whole array d (every
      slot): for i from `i` while i < used, slot i receives slot i + 1.
      None when the loop reads past the last slot. */
  function ShiftAsWritten(d: seq<int>, i: nat, used: nat): (r: Option<seq<int>>)
    requires used <= |d|
    ensures r.Some? ==> |r.value| == |d|
    decreases used - i
  {
    if i >= used then Some(d)
    else if i + 1 >= |d| then None
    else ShiftAsWritten(d[i := d[i + 1]], i + 1, used)
  }

  /** The defect: on a full array (used equal to the number of slots) the
      last step reads data[used], one slot past the end, whichever entry is
      removed. */
  lemma {:induction false} FullArrayOverread(d: seq<int>, posi: nat)
    requires posi < |d|
    ensures ShiftAsWritten(d, posi, |d|).None?
    decreases |d| - posi
  {
    if posi + 1 < |d| {
      FullArrayOverread(d[posi := d[posi + 1]], posi + 1);
    }
  }

  /** The smallest instance: a full one-slot container holding 7. */
  lemma OverreadExample()
    ensures ShiftAsWritten([7], 0, 1).None?
  {
    FullArrayOverread([7], 0);
  }

  /** With a spare slot the loop as written stays inside the array, and the
      first used - 1 slots then hold the entries with the one at posi
      removed: the extra step only copies a "don't care" slot. */
  lemma {:induction false} SpareSlotShift(d: seq<int>, posi: nat, used: nat)
    requires posi < used < |d|
    ensures ShiftAsWritten(d, posi, used).Some?
    ensures ShiftAsWritten(d, posi, used).value[..used - 1] == RemoveAt(d[..used], posi)
  {
    ShiftedSuffix(d, posi, used);
    var r := ShiftAsWritten(d, posi, used).value;
    ShiftedIsCut(d[..used], r[..used - 1], posi, 1);
  }

  /** What ShiftAsWritten does from step i on, slot by slot. */
  lemma {:induction false} ShiftedSuffix(d: seq<int>, i: nat, used: nat)
    requires i <= used < |d|
    ensures ShiftAsWritten(d, i, used).Some?
    ensures var r := ShiftAsWritten(d, i, used).value;
      (forall k :: 0 <= k < i ==> r[k] == d[k]) &&
      (forall k :: i <= k < used ==> r[k] == d[k + 1])
    decreases used - i
  {
    if i < used {
      ShiftedSuffix(d[i := d[i + 1]], i + 1, used);
    }
  }

  /** The corrected shift: the loop stops at used - 1, so it reads only
      slots below used.  On values it is what ShiftDown(data, posi, 1, used)
      does to the array in SortedIntegers.SortedInt2.DelOne. */
  function ShiftCorrected(d: seq<int>, i: nat, used: nat): (r: seq<int>)
    requires used <= |d|
    ensures |r| == |d|
    decreases used - i
  {
    if i + 1 >= used then d
    else ShiftCorrected(d[i := d[i + 1]], i + 1, used)
  }

  /** The corrected shift removes the entry at posi from the first used
      slots, on a full array as well. */
  lemma CorrectedShiftRemoves(d: seq<int>, posi: nat, used: nat)
    requires posi < used <= |d|
    ensures ShiftCorrected(d, posi, used)[..used - 1] == RemoveAt(d[..used], posi)
  {
    var r := ShiftCorrected(d, posi, used);
    var after, before := r[..used - 1], d[..used];
    CorrectedSuffix(d, posi, used);
    forall k | 0 <= k < posi ensures after[k] == before[k] {
      assert r[k] == d[k];
    }
    forall k | posi <= k < |after| ensures after[k] == before[k + 1] {
      assert r[k] == d[k + 1];
    }
    ShiftedIsCut(before, after, posi, 1);
  }

  /** What ShiftCorrected does from step i on, slot by slot. */
  lemma {:induction false} CorrectedSuffix(d: seq<int>, i: nat, used: nat)
    requires i < used <= |d|
    ensures forall k :: 0 <= k < i ==> ShiftCorrected(d, i, used)[k] == d[k]
    ensures forall k :: i <= k < used - 1 ==> ShiftCorrected(d, i, used)[k] == d[k + 1]
    decreases used - i
  {
    if i + 1 < used {
      var d' := d[i := d[i + 1]];
      CorrectedSuffix(d', i + 1, used);
      assert ShiftCorrected(d, i, used) == ShiftCorrected(d', i + 1, used);
      assert forall k :: 0 <= k < |d| && k != i ==> d'[k] == d[k];
    }
  }
}
